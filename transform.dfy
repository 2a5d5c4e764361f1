/** Thread building and orchestration: one pass over every conversation,
    keeping the messages on the canonical path and grouping them per thread
    in a map that remembers insertion order. */
module Transform {
  import opened ExportTypes
  import opened ContentNormalizer
  import opened EditPath
  import opened Assembler

  /** `createThread(conversation)`: the thread starts with no message time. */
  function CreateThread(conv: Conversation): (r: Thread)
    ensures r.id == conv.conversationId && r.title == conv.title
    ensures r.createdAt == conv.createTime && r.updatedAt == conv.updateTime
    ensures r.lastMessageAt.None?
  {
    Thread(conv.title, conv.conversationId, conv.createTime, conv.updateTime, None)
  }

  /** A conversation the reducer can process: its tree is acyclic and `order`
      enumerates every key of `mapping` exactly once, as `for...in` does. */
  ghost predicate WellFormed(conv: Conversation, rk: Ranks) {
    && Acyclic(conv.mapping, rk)
    && (forall i :: 0 <= i < |conv.order| ==> conv.order[i] in conv.mapping)
    && (forall id :: id in conv.mapping ==> id in conv.order)
    && (forall i, j :: 0 <= i < j < |conv.order| ==> conv.order[i] != conv.order[j])
  }

  // ---------------------------------------------------------------------------
  // What one conversation contributes

  /** The message (if any) one iteration of the loop keeps for node `id`:
      it has a message, lies on the valid path, is complete, and survives
      `createMessage`. */
  function KeptAt(conv: Conversation, id: string, ghost rk: Ranks): (r: seq<OutMessage>)
    requires Acyclic(conv.mapping, rk) && id in conv.mapping
    ensures |r| <= 1
  {
    var node := conv.mapping[id];
    if node.message.None? then []
    else if !ValidPath(conv.mapping, {}, id, rk) then []
    else if IsIncomplete(node.message.value) then []
    else match CreateMessage(node.message.value, conv.conversationId)
      case None => []
      case Some(om) => [om]
  }

  function KeptIn(conv: Conversation, ids: seq<string>, ghost rk: Ranks): seq<OutMessage>
    requires Acyclic(conv.mapping, rk)
    requires forall i :: 0 <= i < |ids| ==> ids[i] in conv.mapping
  {
    if ids == [] then []
    else KeptIn(conv, ids[..|ids| - 1], rk) + KeptAt(conv, ids[|ids| - 1], rk)
  }

  /** The messages a conversation contributes, in mapping iteration order. */
  function Kept(conv: Conversation, ghost rk: Ranks): seq<OutMessage>
    requires WellFormed(conv, rk)
  {
    KeptIn(conv, conv.order, rk)
  }

  /** The running maximum of `created_at` that `last_message_at` follows:
      it moves only to a strictly later time. */
  function LatestCreated(ms: seq<OutMessage>): (r: Option<int>)
    ensures r.None? <==> ms == []
  {
    if ms == [] then None
    else
      var prev := LatestCreated(ms[..|ms| - 1]);
      var t := ms[|ms| - 1].createdAt;
      if prev.None? || t > prev.value then Some(t) else prev
  }

  /** The running maximum is the maximum: absent exactly for no messages,
      otherwise the `created_at` of some message and no earlier than any. */
  lemma {:induction false} LatestCreatedIsMax(ms: seq<OutMessage>)
    ensures LatestCreated(ms).None? <==> ms == []
    ensures LatestCreated(ms).Some? ==>
      && (exists i :: 0 <= i < |ms| && ms[i].createdAt == LatestCreated(ms).value)
      && (forall i :: 0 <= i < |ms| ==> ms[i].createdAt <= LatestCreated(ms).value)
  {
    if ms != [] {
      var init := ms[..|ms| - 1];
      LatestCreatedIsMax(init);
      assert forall i :: 0 <= i < |init| ==> init[i] == ms[i];
      if LatestCreated(init).Some? {
        var i :| 0 <= i < |init| && init[i].createdAt == LatestCreated(init).value;
        assert ms[i].createdAt == LatestCreated(init).value;
      }
    }
  }

  /** The thread `processConversation` returns. */
  function ThreadOf(conv: Conversation, ghost rk: Ranks): Thread
    requires WellFormed(conv, rk)
  {
    CreateThread(conv).(lastMessageAt := LatestCreated(Kept(conv, rk)))
  }

  /** A thread carries the conversation's id, title and times; its
      `last_message_at` is absent exactly when no message is kept, and
      otherwise is the latest `created_at` among the kept messages. */
  lemma ThreadOfLastMessage(conv: Conversation, rk: Ranks)
    requires WellFormed(conv, rk)
    ensures ThreadOf(conv, rk).id == conv.conversationId && ThreadOf(conv, rk).title == conv.title
    ensures ThreadOf(conv, rk).createdAt == conv.createTime && ThreadOf(conv, rk).updatedAt == conv.updateTime
    ensures ThreadOf(conv, rk).lastMessageAt.None? <==> Kept(conv, rk) == []
    ensures ThreadOf(conv, rk).lastMessageAt.Some? ==>
      && (forall om :: om in Kept(conv, rk) ==> om.createdAt <= ThreadOf(conv, rk).lastMessageAt.value)
      && (exists om :: om in Kept(conv, rk) && om.createdAt == ThreadOf(conv, rk).lastMessageAt.value)
  {
    LatestCreatedIsMax(Kept(conv, rk));
  }

  // ---------------------------------------------------------------------------
  // The message map: a JavaScript `Map` from thread id to message list

  /** The value of the map: keys in insertion order and the list under each. */
  datatype Groups = Groups(keys: seq<string>, lists: map<string, seq<OutMessage>>)

  ghost predicate GroupsValid(g: Groups) {
    && (forall i, j :: 0 <= i < j < |g.keys| ==> g.keys[i] != g.keys[j])
    && (forall k :: k in g.lists <==> k in g.keys)
  }

  /** `Array.from(map.values()).flat()` over the given keys. */
  function FlatKeys(keys: seq<string>, lists: map<string, seq<OutMessage>>): seq<OutMessage>
    requires forall i :: 0 <= i < |keys| ==> keys[i] in lists
  {
    if keys == [] then [] else lists[keys[0]] + FlatKeys(keys[1..], lists)
  }

  function Flat(g: Groups): seq<OutMessage>
    requires GroupsValid(g)
  {
    FlatKeys(g.keys, g.lists)
  }

  lemma {:induction false} FlatKeysSnoc(keys: seq<string>, lists: map<string, seq<OutMessage>>, k: string)
    requires forall i :: 0 <= i < |keys| ==> keys[i] in lists
    requires k in lists
    ensures FlatKeys(keys + [k], lists) == FlatKeys(keys, lists) + lists[k]
  {
    if keys != [] {
      assert (keys + [k])[1..] == keys[1..] + [k];
      FlatKeysSnoc(keys[1..], lists, k);
    }
  }

  lemma {:induction false} FlatKeysFrame(keys: seq<string>, lists: map<string, seq<OutMessage>>, k: string, v: seq<OutMessage>)
    requires forall i :: 0 <= i < |keys| ==> keys[i] in lists
    requires k !in keys
    ensures FlatKeys(keys, lists[k := v]) == FlatKeys(keys, lists)
  {
    if keys != [] {
      FlatKeysFrame(keys[1..], lists, k, v);
    }
  }

  lemma {:induction false} FlatKeysExtend(keys: seq<string>, lists: map<string, seq<OutMessage>>, k: string, x: OutMessage)
    requires forall i :: 0 <= i < |keys| ==> keys[i] in lists
    requires forall i, j :: 0 <= i < j < |keys| ==> keys[i] != keys[j]
    requires k in keys
    ensures multiset(FlatKeys(keys, lists[k := lists[k] + [x]])) == multiset(FlatKeys(keys, lists)) + multiset{x}
  {
    if keys[0] == k {
      assert k !in keys[1..];
      FlatKeysFrame(keys[1..], lists, k, lists[k] + [x]);
    } else {
      FlatKeysExtend(keys[1..], lists, k, x);
    }
  }

  /** `if (!map.has(key)) map.set(key, []); map.get(key).push(msg)`: a new
      key goes last, so the keys stay distinct. */
  function Push(g: Groups, key: string, msg: OutMessage): (r: Groups)
    requires GroupsValid(g)
    ensures GroupsValid(r)
  {
    if key in g.lists then Groups(g.keys, g.lists[key := g.lists[key] + [msg]])
    else Groups(g.keys + [key], g.lists[key := [msg]])
  }

  /** Pushing adds exactly `msg` to the flattened contents and adds no key
      other than `key`. */
  lemma PushContents(g: Groups, key: string, msg: OutMessage)
    requires GroupsValid(g)
    ensures multiset(Flat(Push(g, key, msg))) == multiset(Flat(g)) + multiset{msg}
    ensures forall k :: k in Push(g, key, msg).lists <==> k in g.lists || k == key
  {
    if key in g.lists {
      FlatKeysExtend(g.keys, g.lists, key, msg);
    } else {
      FlatNewKey(g, key, [msg]);
    }
  }

  /** Pushing a batch of messages under one key, in order. */
  function PushAll(g: Groups, key: string, batch: seq<OutMessage>): (r: Groups)
    requires GroupsValid(g)
    ensures GroupsValid(r)
  {
    if batch == [] then g
    else Push(PushAll(g, key, batch[..|batch| - 1]), key, batch[|batch| - 1])
  }

  /** A batch adds exactly its messages, each as often as it occurs, and no
      key other than `key`. */
  lemma {:induction false} PushAllContents(g: Groups, key: string, batch: seq<OutMessage>)
    requires GroupsValid(g)
    ensures multiset(Flat(PushAll(g, key, batch))) == multiset(Flat(g)) + multiset(batch)
    ensures forall k :: k in PushAll(g, key, batch).lists ==> k in g.lists || k == key
  {
    if batch != [] {
      var init := batch[..|batch| - 1];
      var x := batch[|batch| - 1];
      assert batch == init + [x];
      assert multiset(batch) == multiset(init) + multiset{x};
      var h := PushAll(g, key, init);
      PushAllContents(g, key, init);
      PushContents(h, key, x);
    }
  }

  lemma PushAllSnoc(g: Groups, key: string, batch: seq<OutMessage>, x: OutMessage)
    requires GroupsValid(g)
    ensures PushAll(g, key, batch + [x]) == Push(PushAll(g, key, batch), key, x)
  {
    assert (batch + [x])[..|batch|] == batch;
  }

  /** Under a key the map does not hold yet, a non-empty batch becomes a new
      last entry. */
  lemma {:induction false} PushAllNewKey(g: Groups, key: string, batch: seq<OutMessage>)
    requires GroupsValid(g) && key !in g.lists && batch != []
    ensures PushAll(g, key, batch) == Groups(g.keys + [key], g.lists[key := batch])
  {
    var n := |batch| - 1;
    var init := batch[..n];
    var x := batch[n];
    assert init + [x] == batch;
    assert g.lists[key := init][key := init + [x]] == g.lists[key := batch];
    PushAllSnoc(g, key, init, x);
    if init != [] {
      PushAllNewKey(g, key, init);
    }
  }

  lemma FlatNewKey(g: Groups, key: string, batch: seq<OutMessage>)
    requires GroupsValid(g) && key !in g.lists
    ensures GroupsValid(Groups(g.keys + [key], g.lists[key := batch]))
    ensures Flat(Groups(g.keys + [key], g.lists[key := batch])) == Flat(g) + batch
  {
    FlatKeysFrame(g.keys, g.lists, key, batch);
    FlatKeysSnoc(g.keys, g.lists[key := batch], key);
  }

  /** What one conversation pushes into the map: the thread id and the
      messages pushed under it, in order. */
  datatype Batch = Batch(key: string, msgs: seq<OutMessage>)

  /** The value of the map after pushing the batches in order. */
  function GroupAll(bs: seq<Batch>): (g: Groups)
    ensures GroupsValid(g)
  {
    if bs == [] then Groups([], map[])
    else PushAll(GroupAll(bs[..|bs| - 1]), bs[|bs| - 1].key, bs[|bs| - 1].msgs)
  }

  /** The batches' messages, one batch after another. */
  function Concat(bs: seq<Batch>): seq<OutMessage> {
    if bs == [] then [] else Concat(bs[..|bs| - 1]) + bs[|bs| - 1].msgs
  }

  lemma GroupAllSnoc(bs: seq<Batch>, b: Batch)
    ensures GroupAll(bs + [b]) == PushAll(GroupAll(bs), b.key, b.msgs)
    ensures Concat(bs + [b]) == Concat(bs) + b.msgs
  {
    assert (bs + [b])[..|bs|] == bs;
  }

  /** Every key of the map is the key of some batch. */
  lemma {:induction false} GroupAllKeys(bs: seq<Batch>)
    ensures forall k :: k in GroupAll(bs).lists ==> exists i :: 0 <= i < |bs| && bs[i].key == k
  {
    if bs != [] {
      var n := |bs| - 1;
      var init := bs[..n];
      GroupAllKeys(init);
      PushAllContents(GroupAll(init), bs[n].key, bs[n].msgs);
      forall k | k in GroupAll(bs).lists
        ensures exists i :: 0 <= i < |bs| && bs[i].key == k
      {
        if k != bs[n].key {
          var i :| 0 <= i < n && init[i].key == k;
          assert bs[i] == init[i];
        }
      }
    }
  }

  /** The flattened map holds every batch's messages, each as often as it
      occurs, whether or not keys repeat. */
  lemma {:induction false} GroupAllHoldsAll(bs: seq<Batch>)
    ensures multiset(Flat(GroupAll(bs))) == multiset(Concat(bs))
  {
    if bs != [] {
      var n := |bs| - 1;
      GroupAllHoldsAll(bs[..n]);
      PushAllContents(GroupAll(bs[..n]), bs[n].key, bs[n].msgs);
    }
  }

  /** With distinct keys, flattening the map gives the batches in order. */
  lemma {:induction false} GroupAllDistinct(bs: seq<Batch>)
    requires forall i, j :: 0 <= i < j < |bs| ==> bs[i].key != bs[j].key
    ensures Flat(GroupAll(bs)) == Concat(bs)
  {
    if bs != [] {
      var n := |bs| - 1;
      var init := bs[..n];
      var g := GroupAll(init);
      GroupAllDistinct(init);
      GroupAllKeys(init);
      assert forall i :: 0 <= i < n ==> init[i].key != bs[n].key;
      assert bs[n].key !in g.lists;
      if bs[n].msgs != [] {
        PushAllNewKey(g, bs[n].key, bs[n].msgs);
        FlatNewKey(g, bs[n].key, bs[n].msgs);
      }
    }
  }

  lemma {:induction false} ConcatMembers(bs: seq<Batch>, om: OutMessage)
    requires om in Concat(bs)
    ensures exists i :: 0 <= i < |bs| && om in bs[i].msgs
  {
    var n := |bs| - 1;
    if om !in bs[n].msgs {
      ConcatMembers(bs[..n], om);
      var i :| 0 <= i < n && om in bs[..n][i].msgs;
      assert bs[..n][i] == bs[i];
    }
  }

  /** Every conversation is well formed under its witness. */
  ghost predicate AllWellFormed(convs: seq<Conversation>, rks: seq<Ranks>) {
    |rks| == |convs| && forall i :: 0 <= i < |convs| ==> WellFormed(convs[i], rks[i])
  }

  /** Each conversation's batch: its id and its kept messages. */
  ghost function BatchesOf(convs: seq<Conversation>, rks: seq<Ranks>): (bs: seq<Batch>)
    requires AllWellFormed(convs, rks)
    ensures |bs| == |convs|
    ensures forall i :: 0 <= i < |convs| ==> bs[i] == Batch(convs[i].conversationId, Kept(convs[i], rks[i]))
  {
    seq(|convs|, i requires 0 <= i < |convs| && WellFormed(convs[i], rks[i]) =>
      Batch(convs[i].conversationId, Kept(convs[i], rks[i])))
  }

  /** The value of the message map after the given conversations. */
  ghost function Grouped(convs: seq<Conversation>, rks: seq<Ranks>): Groups
    requires AllWellFormed(convs, rks)
  {
    GroupAll(BatchesOf(convs, rks))
  }

  /** Every conversation's kept messages, one conversation after another. */
  ghost function AllKept(convs: seq<Conversation>, rks: seq<Ranks>): seq<OutMessage>
    requires AllWellFormed(convs, rks)
  {
    Concat(BatchesOf(convs, rks))
  }

  /** A mutable JavaScript `Map` from thread id to message list that keeps
      its keys in insertion order. */
  class MessageMap {
    var keys: seq<string>
    var lists: map<string, seq<OutMessage>>

    ghost predicate Valid()
      reads this
    {
      GroupsValid(Groups(keys, lists))
    }

    function Value(): Groups
      reads this
    {
      Groups(keys, lists)
    }

    constructor ()
      ensures Valid() && Value() == Groups([], map[])
    {
      keys := [];
      lists := map[];
    }

    /** `if (!messageMap.has(key)) messageMap.set(key, []); messageMap.get(key).push(msg)` */
    method Append(key: string, msg: OutMessage)
      requires Valid()
      modifies this
      ensures Valid() && Value() == Push(old(Value()), key, msg)
    {
      if key in lists {
        lists := lists[key := lists[key] + [msg]];
      } else {
        keys := keys + [key];
        lists := lists[key := [msg]];
      }
    }
  }

  // ---------------------------------------------------------------------------
  // processConversation and transformData

  /** The messages kept from the first `i` nodes in iteration order. */
  ghost function KeptPrefix(conv: Conversation, rk: Ranks, i: nat): seq<OutMessage>
    requires WellFormed(conv, rk) && i <= |conv.order|
  {
    KeptIn(conv, conv.order[..i], rk)
  }

  lemma KeptPrefixSnoc(conv: Conversation, rk: Ranks, i: nat)
    requires WellFormed(conv, rk) && i < |conv.order|
    ensures KeptPrefix(conv, rk, i + 1) == KeptPrefix(conv, rk, i) + KeptAt(conv, conv.order[i], rk)
  {
    assert conv.order[..i + 1][..i] == conv.order[..i];
  }

  lemma LatestCreatedSnoc(ms: seq<OutMessage>, x: OutMessage)
    ensures LatestCreated(ms + [x])
         == if LatestCreated(ms).None? || x.createdAt > LatestCreated(ms).value
            then Some(x.createdAt) else LatestCreated(ms)
  {
    assert (ms + [x])[..|ms|] == ms;
  }

  /** The loop body's step for a node the loop skips. */
  lemma SkipStep(conv: Conversation, rk: Ranks, i: nat)
    requires WellFormed(conv, rk) && i < |conv.order|
    requires KeptAt(conv, conv.order[i], rk) == []
    ensures KeptPrefix(conv, rk, i + 1) == KeptPrefix(conv, rk, i)
  {
    KeptPrefixSnoc(conv, rk, i);
  }

  /** The loop body's step for a node whose message is kept. */
  lemma KeptStep(conv: Conversation, rk: Ranks, i: nat, om: OutMessage, start: Groups)
    requires WellFormed(conv, rk) && i < |conv.order| && GroupsValid(start)
    requires KeptAt(conv, conv.order[i], rk) == [om]
    ensures KeptPrefix(conv, rk, i + 1) == KeptPrefix(conv, rk, i) + [om]
    ensures PushAll(start, conv.conversationId, KeptPrefix(conv, rk, i + 1))
         == Push(PushAll(start, conv.conversationId, KeptPrefix(conv, rk, i)), conv.conversationId, om)
  {
    KeptPrefixSnoc(conv, rk, i);
    PushAllSnoc(start, conv.conversationId, KeptPrefix(conv, rk, i), om);
  }

  /** The skip tests of one loop iteration: a node without a message, off
      the valid path, incomplete, or dropped by `createMessage` yields
      nothing; otherwise the message record to store. */
  method KeepNode(conv: Conversation, nodeId: string, validPathsCache: set<string>, ghost rk: Ranks)
    returns (message: Option<OutMessage>)
    requires Acyclic(conv.mapping, rk) && nodeId in conv.mapping && nodeId !in validPathsCache
    ensures message.None? <==> KeptAt(conv, nodeId, rk) == []
    ensures message.Some? ==> KeptAt(conv, nodeId, rk) == [message.value]
  {
    var node := conv.mapping[nodeId];
    if node.message.None? {
      return None;
    }
    CacheIrrelevant(conv.mapping, validPathsCache, nodeId, rk);
    var valid := IsInValidPath(nodeId, conv.mapping, validPathsCache, rk);
    if !valid {
      return None;
    }
    if IsIncomplete(node.message.value) {
      return None;
    }
    message := CreateMessage(node.message.value, conv.conversationId);
  }

  /** `processor.processConversation(conversation, messageMap)` */
  method ProcessConversation(conv: Conversation, messageMap: MessageMap, ghost rk: Ranks)
    returns (thread: Thread)
    requires WellFormed(conv, rk) && messageMap.Valid()
    modifies messageMap
    ensures messageMap.Valid()
    ensures thread == ThreadOf(conv, rk)
    ensures messageMap.Value() == PushAll(old(messageMap.Value()), conv.conversationId, Kept(conv, rk))
  {
    thread := CreateThread(conv);
    var validPathsCache: set<string> := {};
    ghost var start := messageMap.Value();
    for i := 0 to |conv.order|
      invariant messageMap.Valid()
      invariant messageMap.Value() == PushAll(start, conv.conversationId, KeptPrefix(conv, rk, i))
      invariant thread == CreateThread(conv).(lastMessageAt := LatestCreated(KeptPrefix(conv, rk, i)))
      invariant forall j :: i <= j < |conv.order| ==> conv.order[j] !in validPathsCache
    {
      var nodeId := conv.order[i];
      var message := KeepNode(conv, nodeId, validPathsCache, rk);
      if message.None? {
        SkipStep(conv, rk, i);
        continue;
      }
      KeptStep(conv, rk, i, message.value, start);
      LatestCreatedSnoc(KeptPrefix(conv, rk, i), message.value);
      messageMap.Append(thread.id, message.value);
      if thread.lastMessageAt.None? || message.value.createdAt > thread.lastMessageAt.value {
        thread := thread.(lastMessageAt := Some(message.value.createdAt));
      }
      validPathsCache := validPathsCache + {nodeId};
    }
    KeptPrefixAll(conv, rk);
  }

  lemma KeptPrefixAll(conv: Conversation, rk: Ranks)
    requires WellFormed(conv, rk)
    ensures KeptPrefix(conv, rk, |conv.order|) == Kept(conv, rk)
  {
    assert conv.order[..|conv.order|] == conv.order;
  }

  lemma SnocTake<T>(s: seq<T>, i: nat, t: seq<T>, x: T)
    requires i < |s| && t == s[..i] && x == s[i]
    ensures t + [x] == s[..i + 1]
  {
  }

  lemma TakeAll<T>(s: seq<T>)
    ensures s[..|s|] == s
  {
  }

  /** `transformData(chatgptData)` */
  method TransformData(convs: seq<Conversation>, ghost rks: seq<Ranks>)
    returns (threads: seq<Thread>, messages: seq<OutMessage>)
    requires AllWellFormed(convs, rks)
    ensures |threads| == |convs|
    ensures forall i :: 0 <= i < |convs| ==> threads[i] == ThreadOf(convs[i], rks[i])
    ensures messages == Flat(Grouped(convs, rks))
  {
    var messageMap := new MessageMap();
    ghost var ts := ThreadsOf(convs, rks);
    threads := [];
    for i := 0 to |convs|
      invariant messageMap.Valid()
      invariant threads == ts[..i]
      invariant messageMap.Value() == GroupAll(BatchesOf(convs, rks)[..i])
    {
      var thread := ProcessConversation(convs[i], messageMap, rks[i]);
      GroupStep(convs, rks, i);
      SnocTake(ts, i, threads, thread);
      threads := threads + [thread];
    }
    TakeAll(ts);
    TakeAll(BatchesOf(convs, rks));
    messages := Flat(messageMap.Value());
  }

  /** Every conversation's thread, in input order. */
  ghost function ThreadsOf(convs: seq<Conversation>, rks: seq<Ranks>): seq<Thread>
    requires AllWellFormed(convs, rks)
  {
    seq(|convs|, i requires 0 <= i < |convs| && WellFormed(convs[i], rks[i]) => ThreadOf(convs[i], rks[i]))
  }

  /** Grouping one more conversation's batch pushes its kept messages. */
  lemma GroupStep(convs: seq<Conversation>, rks: seq<Ranks>, i: nat)
    requires AllWellFormed(convs, rks) && i < |convs|
    ensures GroupAll(BatchesOf(convs, rks)[..i + 1])
         == PushAll(GroupAll(BatchesOf(convs, rks)[..i]), convs[i].conversationId, Kept(convs[i], rks[i]))
  {
    var bs := BatchesOf(convs, rks);
    assert bs[..i + 1] == bs[..i] + [bs[i]];
    GroupAllSnoc(bs[..i], bs[i]);
  }

  // ---------------------------------------------------------------------------
  // Properties of the whole reducer

  /** `id` is a node whose message the loop keeps as `om`. */
  ghost predicate KeptFrom(conv: Conversation, rk: Ranks, id: string, om: OutMessage)
    requires Acyclic(conv.mapping, rk)
  {
    && id in conv.mapping
    && conv.mapping[id].message.Some?
    && ValidPath(conv.mapping, {}, id, rk)
    && !IsIncomplete(conv.mapping[id].message.value)
    && CreateMessage(conv.mapping[id].message.value, conv.conversationId) == Some(om)
  }

  lemma {:induction false} KeptInSound(conv: Conversation, ids: seq<string>, rk: Ranks, om: OutMessage)
    requires Acyclic(conv.mapping, rk)
    requires forall i :: 0 <= i < |ids| ==> ids[i] in conv.mapping
    requires om in KeptIn(conv, ids, rk)
    ensures exists i :: 0 <= i < |ids| && KeptFrom(conv, rk, ids[i], om)
  {
    var n := |ids| - 1;
    var init := ids[..n];
    if om in KeptAt(conv, ids[n], rk) {
      assert KeptFrom(conv, rk, ids[n], om);
    } else {
      KeptInSound(conv, init, rk, om);
      var i :| 0 <= i < |init| && KeptFrom(conv, rk, init[i], om);
      assert init[i] == ids[i];
    }
  }

  lemma {:induction false} KeptInComplete(conv: Conversation, ids: seq<string>, rk: Ranks, om: OutMessage, i: nat)
    requires Acyclic(conv.mapping, rk)
    requires forall j :: 0 <= j < |ids| ==> ids[j] in conv.mapping
    requires i < |ids| && KeptFrom(conv, rk, ids[i], om)
    ensures om in KeptIn(conv, ids, rk)
  {
    var n := |ids| - 1;
    if i == n {
      assert KeptAt(conv, ids[n], rk) == [om];
    } else {
      assert ids[..n][i] == ids[i];
      KeptInComplete(conv, ids[..n], rk, om, i);
    }
  }

  /** A message is in a conversation's output exactly when some node of the
      mapping has a complete message on the valid path from which
      `createMessage` builds it. */
  lemma KeptExactly(conv: Conversation, rk: Ranks, om: OutMessage)
    requires WellFormed(conv, rk)
    ensures om in Kept(conv, rk) <==> exists id :: id in conv.mapping && KeptFrom(conv, rk, id, om)
  {
    if om in Kept(conv, rk) {
      var id := KeptSource(conv, rk, om);
    }
    if exists id :: id in conv.mapping && KeptFrom(conv, rk, id, om) {
      var id :| id in conv.mapping && KeptFrom(conv, rk, id, om);
      KeptFromIsKept(conv, rk, id, om);
    }
  }

  lemma KeptSource(conv: Conversation, rk: Ranks, om: OutMessage) returns (id: string)
    requires WellFormed(conv, rk) && om in Kept(conv, rk)
    ensures id in conv.mapping && KeptFrom(conv, rk, id, om)
  {
    KeptInSound(conv, conv.order, rk, om);
    var i :| 0 <= i < |conv.order| && KeptFrom(conv, rk, conv.order[i], om);
    id := conv.order[i];
  }

  lemma KeptFromIsKept(conv: Conversation, rk: Ranks, id: string, om: OutMessage)
    requires WellFormed(conv, rk) && id in conv.mapping && KeptFrom(conv, rk, id, om)
    ensures om in Kept(conv, rk)
  {
    var i :| 0 <= i < |conv.order| && conv.order[i] == id;
    KeptInComplete(conv, conv.order, rk, om, i);
  }

  /** Every kept message belongs to the conversation's thread, is `done`,
      and has visible text free of sentinel glyphs. */
  lemma KeptMessagesShape(conv: Conversation, rk: Ranks, om: OutMessage)
    requires WellFormed(conv, rk) && om in Kept(conv, rk)
    ensures om.threadId == conv.conversationId && om.status == DoneStatus
    ensures !Blank(om.content) && NoSentinel(om.content)
  {
    KeptExactly(conv, rk, om);
  }

  /** A conversation with no edit node keeps every node whose message is
      complete and survives `createMessage`. */
  lemma LinearConversationKeepsAll(conv: Conversation, rk: Ranks, id: string)
    requires WellFormed(conv, rk)
    requires forall x :: x in conv.mapping ==> !IsEditNode(conv.mapping[x])
    requires id != "" && id in conv.mapping && conv.mapping[id].message.Some?
    requires !IsIncomplete(conv.mapping[id].message.value)
    requires CreateMessage(conv.mapping[id].message.value, conv.conversationId).Some?
    ensures CreateMessage(conv.mapping[id].message.value, conv.conversationId).value in Kept(conv, rk)
  {
    NoEditNodeAllValid(conv.mapping, {}, id, rk);
    KeptExactly(conv, rk, CreateMessage(conv.mapping[id].message.value, conv.conversationId).value);
  }

  /** Newest wins: a node below a child of its nearest edit node that was not
      chosen contributes nothing. */
  lemma NonChosenBranchDropped(conv: Conversation, rk: Ranks, e: string, c: string, x: string, j: nat)
    requires WellFormed(conv, rk) && Linked(conv.mapping) && "" !in conv.mapping
    requires NearestEditOnChain(conv.mapping, Some(x), rk) == Some(e) && x != e
    requires NewestComplete(conv.mapping, conv.mapping[e].children) != Some(c)
    requires UpChain(conv.mapping, x, j) == Some(c) && UpChain(conv.mapping, x, j + 1) == Some(e)
    ensures KeptAt(conv, x, rk) == []
  {
    NonChosenBranchInvalid(conv.mapping, rk, e, c, x, j);
  }

  /** Newest wins only below the nearest edit node. An edit node with a
      complete message is kept whatever its ancestors chose: even when its
      parent edit node followed a newer sibling, the abandoned edit node
      stays on the valid path. */
  lemma AbandonedEditNodeKept(conv: Conversation, rk: Ranks, a: string)
    requires WellFormed(conv, rk) && a != "" && a in conv.mapping && IsEditNode(conv.mapping[a])
    requires conv.mapping[a].message.Some? && !IsIncomplete(conv.mapping[a].message.value)
    ensures KeptAt(conv, a, rk) == match CreateMessage(conv.mapping[a].message.value, conv.conversationId)
                                   case None => []
                                   case Some(om) => [om]
  {
  }

  /** And below such an edit node, its own newest complete child is kept,
      so a branch its parent abandoned still reaches the output. */
  lemma AbandonedBranchChildKept(conv: Conversation, rk: Ranks, a: string, x: string)
    requires WellFormed(conv, rk) && a != "" && a in conv.mapping && IsEditNode(conv.mapping[a])
    requires NewestComplete(conv.mapping, conv.mapping[a].children) == Some(x)
    requires x != "" && !IsEditNode(conv.mapping[x]) && conv.mapping[x].parent == Some(a)
    ensures KeptAt(conv, x, rk) == match CreateMessage(conv.mapping[x].message.value, conv.conversationId)
                                   case None => []
                                   case Some(om) => [om]
  {
    var m := conv.mapping;
    assert NearestEditOnChain(m, Some(a), rk) == Some(a);
    assert NearestEditOnChain(m, Some(x), rk) == Some(a);
    assert LatestPath(m, a, rk) == [x] + LatestPath(m, x, rk);
  }

  /** The output holds exactly the kept messages of all conversations, each
      as often as it is kept, even when two conversations share an id. */
  lemma GroupedHoldsAllKept(convs: seq<Conversation>, rks: seq<Ranks>)
    requires AllWellFormed(convs, rks)
    ensures multiset(Flat(Grouped(convs, rks))) == multiset(AllKept(convs, rks))
  {
    GroupAllHoldsAll(BatchesOf(convs, rks));
  }

  /** Every thread id in the message map is the id of an input conversation. */
  lemma GroupedKeys(convs: seq<Conversation>, rks: seq<Ranks>)
    requires AllWellFormed(convs, rks)
    ensures forall k :: k in Grouped(convs, rks).lists ==>
      exists i :: 0 <= i < |convs| && convs[i].conversationId == k
  {
    GroupAllKeys(BatchesOf(convs, rks));
  }

  /** With distinct conversation ids the output is every conversation's kept
      messages, one conversation after another, in input order. */
  lemma DistinctIdsConcatenate(convs: seq<Conversation>, rks: seq<Ranks>)
    requires AllWellFormed(convs, rks)
    requires forall i, j :: 0 <= i < j < |convs| ==> convs[i].conversationId != convs[j].conversationId
    ensures Flat(Grouped(convs, rks)) == AllKept(convs, rks)
  {
    GroupAllDistinct(BatchesOf(convs, rks));
  }

  /** Every emitted message comes from a conversation of the input, carries
      that conversation's thread id, is `done`, and was kept from a node with
      a complete message on the valid path. */
  lemma EmittedMessagesSound(convs: seq<Conversation>, rks: seq<Ranks>, om: OutMessage)
    requires AllWellFormed(convs, rks)
    requires om in Flat(Grouped(convs, rks))
    ensures om.status == DoneStatus
    ensures exists i ::
              && 0 <= i < |convs|
              && om.threadId == convs[i].conversationId
              && (exists id :: id in convs[i].mapping && KeptFrom(convs[i], rks[i], id, om))
  {
    var bs := BatchesOf(convs, rks);
    GroupAllHoldsAll(bs);
    assert om in multiset(Concat(bs));
    ConcatMembers(bs, om);
    var i :| 0 <= i < |bs| && om in bs[i].msgs;
    KeptExactly(convs[i], rks[i], om);
    KeptMessagesShape(convs[i], rks[i], om);
  }
}
