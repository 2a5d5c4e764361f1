/** Edit-path resolution: which nodes of an edit-branching conversation tree
    lie on the canonical (latest complete) path. */
module EditPath {
  import opened ExportTypes

  const FinishedStatus: string := "finished_successfully"
  const InProgressStatus: string := "in_progress"

  /** `isIncompleteMessage`; the `in_progress` test is subsumed by the second. */
  function IsIncomplete(msg: Message): (r: bool)
    ensures r <==> msg.status != Some(FinishedStatus)
  {
    msg.status == Some(InProgressStatus) || msg.status != Some(FinishedStatus)
  }

  /** `isEditNode`: a node with more than one child. */
  predicate IsEditNode(node: Node) {
    |node.children| > 1
  }

  /** A node that is not an edit node leaves no choice: its only child is
      followed when that child is complete, and nothing is followed otherwise. */
  lemma NonEditNodeNoChoice(m: Mapping, node: Node)
    requires !IsEditNode(node)
    ensures NewestComplete(m, node.children)
      == if |node.children| == 1 && CompleteChild(m, node.children[0]) then Some(node.children[0]) else None
  {
    if |node.children| == 1 {
      assert node.children[1..] == [];
    }
  }

  /** A witness that the mapping has no cycles: `down` decreases from a node
      to each of its children, `up` decreases from a node to its parent. */
  datatype Ranks = Ranks(down: map<string, nat>, up: map<string, nat>)

  ghost predicate Acyclic(m: Mapping, rk: Ranks) {
    && m.Keys <= rk.down.Keys
    && m.Keys <= rk.up.Keys
    && (forall id, c :: id in m && c in m && c in m[id].children ==> rk.down[c] < rk.down[id])
    && (forall id :: id in m && m[id].parent.Some? && m[id].parent.value in m ==>
          rk.up[m[id].parent.value] < rk.up[id])
  }

  /** Children and parent links agree, as in every export's tree. */
  ghost predicate Linked(m: Mapping) {
    forall id, c :: id in m && c in m && c in m[id].children ==> m[c].parent == Some(id)
  }

  // ---------------------------------------------------------------------------
  // Choosing the child to follow below a node

  /** `conversationMap[id]?.message?.create_time || 0` */
  function TimeOf(m: Mapping, id: string): (r: int)
    ensures id !in m || m[id].message.None? || m[id].message.value.createTime.None? ==> r == 0
    ensures id in m && m[id].message.Some? && m[id].message.value.createTime.Some?
            ==> r == m[id].message.value.createTime.value
  {
    if id in m && m[id].message.Some? then TimeOrZero(m[id].message.value.createTime) else 0
  }

  /** The child exists, has a message, and that message is complete. */
  predicate CompleteChild(m: Mapping, id: string) {
    id in m && m[id].message.Some? && !IsIncomplete(m[id].message.value)
  }

  /** Reference definition of the child that is followed: among the complete
      children the newest one, the earliest in `cs` among equally new ones. */
  function NewestComplete(m: Mapping, cs: seq<string>): (r: Option<string>)
    ensures r.Some? ==> r.value in cs && CompleteChild(m, r.value)
    ensures r.None? <==> forall i :: 0 <= i < |cs| ==> !CompleteChild(m, cs[i])
  {
    if cs == [] then None
    else
      var rest := NewestComplete(m, cs[1..]);
      if CompleteChild(m, cs[0]) && (rest.None? || TimeOf(m, rest.value) <= TimeOf(m, cs[0]))
      then Some(cs[0])
      else rest
  }

  /** Index `k` holds a complete child that is at least as new as every
      complete child and strictly newer than every earlier complete child. */
  ghost predicate IsNewestCompleteAt(m: Mapping, cs: seq<string>, k: int) {
    && 0 <= k < |cs|
    && CompleteChild(m, cs[k])
    && (forall j :: 0 <= j < |cs| && CompleteChild(m, cs[j]) ==> TimeOf(m, cs[j]) <= TimeOf(m, cs[k]))
    && (forall j :: 0 <= j < k && CompleteChild(m, cs[j]) ==> TimeOf(m, cs[j]) < TimeOf(m, cs[k]))
  }

  /** The child `NewestComplete` picks is the one `IsNewestCompleteAt` describes. */
  lemma {:induction false} NewestCompleteIsNewest(m: Mapping, cs: seq<string>) returns (k: nat)
    requires NewestComplete(m, cs).Some?
    ensures IsNewestCompleteAt(m, cs, k) && cs[k] == NewestComplete(m, cs).value
  {
    var tl := cs[1..];
    var rest := NewestComplete(m, tl);
    if CompleteChild(m, cs[0]) && (rest.None? || TimeOf(m, rest.value) <= TimeOf(m, cs[0])) {
      var k' := 0;
      if rest.Some? {
        k' := NewestCompleteIsNewest(m, tl);
      }
      forall j | 0 < j < |cs| && CompleteChild(m, cs[j])
        ensures TimeOf(m, cs[j]) <= TimeOf(m, cs[0])
      {
        assert tl[j - 1] == cs[j];
      }
      k := 0;
    } else {
      var k' := NewestCompleteIsNewest(m, tl);
      k := k' + 1;
      assert cs[k] == tl[k'];
      forall j | 0 < j < |cs| && CompleteChild(m, cs[j])
        ensures TimeOf(m, cs[j]) <= TimeOf(m, cs[k])
      {
        assert tl[j - 1] == cs[j];
      }
      forall j | 0 < j < k && CompleteChild(m, cs[j])
        ensures TimeOf(m, cs[j]) < TimeOf(m, cs[k])
      {
        assert tl[j - 1] == cs[j];
      }
    }
  }

  /** Conversely, the child `IsNewestCompleteAt` describes is the one
      `NewestComplete` picks; so the two definitions agree. */
  lemma {:induction false} NewestCompleteUnique(m: Mapping, cs: seq<string>, k: nat)
    requires IsNewestCompleteAt(m, cs, k)
    ensures NewestComplete(m, cs) == Some(cs[k])
  {
    var tl := cs[1..];
    var rest := NewestComplete(m, tl);
    if k == 0 {
      if rest.Some? {
        var i :| 0 <= i < |tl| && tl[i] == rest.value;
        assert cs[i + 1] == tl[i];
      }
    } else {
      assert tl[k - 1] == cs[k];
      forall j | 0 <= j < |tl| && CompleteChild(m, tl[j])
        ensures TimeOf(m, tl[j]) <= TimeOf(m, tl[k - 1])
      {
        assert cs[j + 1] == tl[j];
      }
      forall j | 0 <= j < k - 1 && CompleteChild(m, tl[j])
        ensures TimeOf(m, tl[j]) < TimeOf(m, tl[k - 1])
      {
        assert cs[j + 1] == tl[j];
      }
      assert IsNewestCompleteAt(m, tl, k - 1);
      NewestCompleteUnique(m, tl, k - 1);
    }
  }

  // ---------------------------------------------------------------------------
  // The stable descending sort and the scan that follows it

  ghost predicate DescendingByTime(m: Mapping, s: seq<string>) {
    forall i, j :: 0 <= i < j < |s| ==> TimeOf(m, s[i]) >= TimeOf(m, s[j])
  }

  /** Insert `x` before the first element that is not newer than it. */
  function InsertByTime(m: Mapping, x: string, s: seq<string>): (r: seq<string>)
    requires DescendingByTime(m, s)
    ensures multiset(r) == multiset(s) + multiset{x}
    ensures DescendingByTime(m, r)
  {
    if s == [] || TimeOf(m, x) >= TimeOf(m, s[0]) then [x] + s
    else
      var t := InsertByTime(m, x, s[1..]);
      InsertBelowHead(m, x, s, t);
      assert s == [s[0]] + s[1..];
      [s[0]] + t
  }

  /** Every element of `t`, a reordering of `s[1..]` and `x`, is no newer
      than `s[0]`, so `s[0]` can stay in front of it. */
  lemma InsertBelowHead(m: Mapping, x: string, s: seq<string>, t: seq<string>)
    requires s != [] && DescendingByTime(m, s) && TimeOf(m, x) < TimeOf(m, s[0])
    requires multiset(t) == multiset(s[1..]) + multiset{x} && DescendingByTime(m, t)
    ensures DescendingByTime(m, [s[0]] + t)
  {
    forall i | 0 <= i < |t| ensures TimeOf(m, t[i]) <= TimeOf(m, s[0]) {
      assert t[i] in multiset(t);
      if t[i] != x {
        assert t[i] in multiset(s[1..]);
        var j :| 0 <= j < |s[1..]| && s[1..][j] == t[i];
        assert s[j + 1] == t[i];
      }
    }
    var r := [s[0]] + t;
    forall i, j | 0 <= i < j < |r| ensures TimeOf(m, r[i]) >= TimeOf(m, r[j]) {
      assert r[j] == t[j - 1];
      if i > 0 { assert r[i] == t[i - 1]; }
    }
  }

  /** `[...children].sort((a, b) => timeB - timeA)`: a stable sort, newest
      first; equally new children keep their relative order. */
  function SortByTime(m: Mapping, cs: seq<string>): (r: seq<string>)
    ensures multiset(r) == multiset(cs)
    ensures DescendingByTime(m, r)
  {
    if cs == [] then []
    else
      var t := SortByTime(m, cs[1..]);
      assert cs == [cs[0]] + cs[1..];
      InsertByTime(m, cs[0], t)
  }

  /** The first complete element: what the `for ... break` scan finds. */
  function FirstComplete(m: Mapping, s: seq<string>): (r: Option<string>)
    ensures r.Some? ==> r.value in s && CompleteChild(m, r.value)
  {
    if s == [] then None
    else if CompleteChild(m, s[0]) then Some(s[0])
    else FirstComplete(m, s[1..])
  }

  /** The scan stops at the first complete element: nothing before it is
      complete, and it finds nothing exactly when nothing is complete. */
  lemma {:induction false} FirstCompleteIsFirst(m: Mapping, s: seq<string>) returns (k: nat)
    ensures FirstComplete(m, s).None? <==> forall i :: 0 <= i < |s| ==> !CompleteChild(m, s[i])
    ensures FirstComplete(m, s).Some? ==>
      && k < |s| && s[k] == FirstComplete(m, s).value
      && forall j :: 0 <= j < k ==> !CompleteChild(m, s[j])
  {
    if s == [] || CompleteChild(m, s[0]) {
      k := 0;
    } else {
      var k' := FirstCompleteIsFirst(m, s[1..]);
      k := k' + 1;
      forall i | 0 < i < |s| ensures s[i] == s[1..][i - 1] { }
    }
  }

  lemma {:induction false} FirstCompleteOfInsert(m: Mapping, x: string, s: seq<string>)
    requires DescendingByTime(m, s)
    ensures FirstComplete(m, InsertByTime(m, x, s)) ==
      var f := FirstComplete(m, s);
      if CompleteChild(m, x) && (f.None? || TimeOf(m, f.value) <= TimeOf(m, x)) then Some(x) else f
  {
    if s == [] || TimeOf(m, x) >= TimeOf(m, s[0]) {
      FirstCompleteFront(m, x, s);
    } else {
      var t := InsertByTime(m, x, s[1..]);
      assert ([s[0]] + t)[1..] == t;
      DescendingTail(m, s);
      FirstCompleteOfInsert(m, x, s[1..]);
    }
  }

  /** An element at least as new as the head goes in front; the scan then
      meets it first. */
  lemma FirstCompleteFront(m: Mapping, x: string, s: seq<string>)
    requires DescendingByTime(m, s) && (s == [] || TimeOf(m, x) >= TimeOf(m, s[0]))
    ensures FirstComplete(m, [x] + s) ==
      var f := FirstComplete(m, s);
      if CompleteChild(m, x) && (f.None? || TimeOf(m, f.value) <= TimeOf(m, x)) then Some(x) else f
  {
    assert ([x] + s)[1..] == s;
    var f := FirstComplete(m, s);
    if f.Some? {
      var i :| 0 <= i < |s| && s[i] == f.value;
      if i > 0 {
        assert TimeOf(m, s[i]) <= TimeOf(m, s[0]);
      }
    }
  }

  lemma DescendingTail(m: Mapping, s: seq<string>)
    requires s != [] && DescendingByTime(m, s)
    ensures DescendingByTime(m, s[1..])
  {
    forall i, j | 0 <= i < j < |s[1..]| ensures TimeOf(m, s[1..][i]) >= TimeOf(m, s[1..][j]) {
      assert s[1..][i] == s[i + 1] && s[1..][j] == s[j + 1];
    }
  }

  /** Scanning the sorted children for the first complete one yields the
      newest complete child, the earliest among equally new ones. */
  lemma {:induction false} SortedScanFindsNewest(m: Mapping, cs: seq<string>)
    ensures FirstComplete(m, SortByTime(m, cs)) == NewestComplete(m, cs)
  {
    if cs != [] {
      SortedScanFindsNewest(m, cs[1..]);
      FirstCompleteOfInsert(m, cs[0], SortByTime(m, cs[1..]));
    }
  }

  // ---------------------------------------------------------------------------
  // getLatestCompletePath

  /** The chain followed below `id`: the chosen child, then the chosen child
      of that child, and so on until no child qualifies. */
  function LatestPath(m: Mapping, id: string, ghost rk: Ranks): (p: seq<string>)
    requires Acyclic(m, rk) && id in m
    ensures forall k :: 0 <= k < |p| ==> CompleteChild(m, p[k]) && rk.down[p[k]] < rk.down[id]
    decreases rk.down[id]
  {
    match NewestComplete(m, m[id].children)
    case None => []
    case Some(c) => [c] + LatestPath(m, c, rk)
  }

  /** The path is a chain: it starts at the chosen child of `id`, each next
      id is the chosen child of the one before, and it stops at the first
      node with no complete child. It is empty exactly when `id` has no
      complete child. */
  lemma {:induction false} LatestPathIsChain(m: Mapping, id: string, rk: Ranks)
    requires Acyclic(m, rk) && id in m
    ensures var p := LatestPath(m, id, rk);
      && (p == [] <==> NewestComplete(m, m[id].children).None?)
      && (p != [] ==> NewestComplete(m, m[id].children) == Some(p[0]))
      && (forall k :: 0 < k < |p| ==> NewestComplete(m, m[p[k - 1]].children) == Some(p[k]))
      && (p != [] ==> NewestComplete(m, m[p[|p| - 1]].children).None?)
    decreases rk.down[id]
  {
    var p := LatestPath(m, id, rk);
    match NewestComplete(m, m[id].children)
    case None =>
    case Some(c) =>
      LatestPathIsChain(m, c, rk);
      var q := LatestPath(m, c, rk);
      assert p == [c] + q;
      forall k | 0 < k < |p|
        ensures NewestComplete(m, m[p[k - 1]].children) == Some(p[k])
      {
        if k > 1 { assert p[k - 1] == q[k - 2] && p[k] == q[k - 1]; }
      }
  }

  /** The starting node never occurs on its own path. */
  lemma LatestPathExcludesStart(m: Mapping, id: string, rk: Ranks)
    requires Acyclic(m, rk) && id in m
    ensures id !in LatestPath(m, id, rk)
  {
  }

  /** `getLatestCompletePath(node, conversationMap, validPaths)`: adds the
      chain below `nodeId` to `validPaths`. */
  method LatestCompletePath(m: Mapping, nodeId: string, validPaths: set<string>, ghost rk: Ranks)
    returns (r: set<string>)
    requires Acyclic(m, rk) && nodeId in m
    ensures r == validPaths + (set x | x in LatestPath(m, nodeId, rk))
    decreases rk.down[nodeId]
  {
    var node := m[nodeId];
    r := validPaths;
    if |node.children| == 0 {
      return;
    }
    var sortedChildren := SortByTime(m, node.children);
    SortedScanFindsNewest(m, node.children);
    var i := 0;
    while i < |sortedChildren|
      invariant 0 <= i <= |sortedChildren|
      invariant FirstComplete(m, sortedChildren[i..]) == NewestComplete(m, node.children)
      invariant r == validPaths
    {
      var childId := sortedChildren[i];
      if childId !in m || m[childId].message.None? {
        ScanSkip(m, sortedChildren, i);
        i := i + 1;
        continue;
      }
      if IsIncomplete(m[childId].message.value) {
        ScanSkip(m, sortedChildren, i);
        i := i + 1;
        continue;
      }
      ScanHit(m, sortedChildren, i);
      PathSetStep(m, nodeId, rk, childId);
      r := r + {childId};
      r := LatestCompletePath(m, childId, r, rk);
      break;
    }
    if NewestComplete(m, node.children).None? {
      PathSetEmpty(m, nodeId, rk);
    }
  }

  lemma ScanSkip(m: Mapping, s: seq<string>, i: nat)
    requires i < |s| && !CompleteChild(m, s[i])
    ensures FirstComplete(m, s[i + 1..]) == FirstComplete(m, s[i..])
  {
    assert s[i..][1..] == s[i + 1..];
  }

  lemma ScanHit(m: Mapping, s: seq<string>, i: nat)
    requires i < |s| && CompleteChild(m, s[i])
    ensures FirstComplete(m, s[i..]) == Some(s[i])
  {
    assert s[i..][0] == s[i];
  }

  /** The ids on the path below `id` are its chosen child `c` and the ids on
      the path below `c`. */
  lemma PathSetStep(m: Mapping, id: string, rk: Ranks, c: string)
    requires Acyclic(m, rk) && id in m && NewestComplete(m, m[id].children) == Some(c)
    ensures c in m && c in m[id].children && rk.down[c] < rk.down[id]
    ensures (set x | x in LatestPath(m, id, rk)) == {c} + (set x | x in LatestPath(m, c, rk))
  {
    assert LatestPath(m, id, rk) == [c] + LatestPath(m, c, rk);
  }

  lemma PathSetEmpty(m: Mapping, id: string, rk: Ranks)
    requires Acyclic(m, rk) && id in m && NewestComplete(m, m[id].children).None?
    ensures (set x | x in LatestPath(m, id, rk)) == {}
  {
  }

  // ---------------------------------------------------------------------------
  // isInValidPath

  /** The parent reached by one step of the upward walk, while the walk goes on. */
  function ParentIn(m: Mapping, id: string): (r: Option<string>)
    requires id in m
    ensures r.Some? ==> r.value != "" && r.value in m
  {
    match m[id].parent
    case None => None
    case Some(p) => if p != "" && p in m then Some(p) else None
  }

  /** The node the upward walk from `id` stands on after `k` steps, if any. */
  function UpChain(m: Mapping, id: string, k: nat): (r: Option<string>)
    ensures r.Some? ==> r.value != "" && r.value in m
  {
    if k == 0 then (if id != "" && id in m then Some(id) else None)
    else match UpChain(m, id, k - 1)
      case None => None
      case Some(x) => ParentIn(m, x)
  }

  /** The first edit node met walking up from `cur` (itself included), as
      the `while (currentId)` loop meets it. */
  function NearestEditOnChain(m: Mapping, cur: Option<string>, ghost rk: Ranks): (r: Option<string>)
    requires Acyclic(m, rk)
    ensures r.Some? ==> r.value != "" && r.value in m && IsEditNode(m[r.value])
    decreases if cur.Some? && cur.value in m then rk.up[cur.value] + 1 else 0
  {
    match cur
    case None => None
    case Some(id) =>
      if id == "" || id !in m then None
      else if IsEditNode(m[id]) then Some(id)
      else NearestEditOnChain(m, m[id].parent, rk)
  }

  /** Specification of `isInValidPath`. */
  function ValidPath(m: Mapping, cache: set<string>, id: string, ghost rk: Ranks): bool
    requires Acyclic(m, rk)
  {
    if id == "" || id !in m then false
    else if id in cache then true
    else if IsEditNode(m[id]) then true
    else match NearestEditOnChain(m, Some(id), rk)
      case None => true
      case Some(e) => id in LatestPath(m, e, rk)
  }

  /** `isInValidPath(messageId, conversationMap, validPathsCache)` */
  method IsInValidPath(messageId: string, m: Mapping, cache: set<string>, ghost rk: Ranks)
    returns (b: bool)
    requires Acyclic(m, rk)
    ensures b == ValidPath(m, cache, messageId, rk)
  {
    if messageId == "" || messageId !in m {
      return false;
    }
    if messageId in cache {
      return true;
    }
    var node := m[messageId];
    if IsEditNode(node) {
      return true;
    }
    var currentId: Option<string> := Some(messageId);
    while currentId.Some? && currentId.value != ""
      invariant NearestEditOnChain(m, currentId, rk) == NearestEditOnChain(m, Some(messageId), rk)
      decreases if currentId.Some? && currentId.value in m then rk.up[currentId.value] + 1 else 0
    {
      if currentId.value !in m {
        break;
      }
      var currentNode := m[currentId.value];
      if IsEditNode(currentNode) {
        var validPaths := LatestCompletePath(m, currentId.value, {}, rk);
        return messageId in validPaths;
      }
      currentId := currentNode.parent;
    }
    return true;
  }

  // ---------------------------------------------------------------------------
  // Properties of the resolver

  /** One step of the walk from `id` is the walk from its parent. */
  lemma {:induction false} UpChainShift(m: Mapping, id: string, k: nat)
    requires id != "" && id in m
    ensures UpChain(m, id, k + 1) ==
      (match ParentIn(m, id) case None => None case Some(p) => UpChain(m, p, k))
  {
    if k > 0 {
      UpChainShift(m, id, k - 1);
    }
  }

  /** A walk that has stopped stays stopped. */
  lemma {:induction false} UpChainStops(m: Mapping, id: string, a: nat, b: nat)
    requires a <= b && UpChain(m, id, a).None?
    ensures UpChain(m, id, b).None?
    decreases b - a
  {
    if a < b {
      UpChainStops(m, id, a + 1, b);
    }
  }

  /** The walk strictly decreases the `up` rank, so it never revisits a node. */
  lemma {:induction false} UpChainRank(m: Mapping, rk: Ranks, id: string, a: nat, b: nat)
    requires Acyclic(m, rk) && a < b && UpChain(m, id, b).Some?
    ensures UpChain(m, id, a).Some?
    ensures rk.up[UpChain(m, id, b).value] < rk.up[UpChain(m, id, a).value]
    decreases b - a
  {
    assert UpChain(m, id, b - 1).Some?;
    if a < b - 1 {
      UpChainRank(m, rk, id, a, b - 1);
    }
  }

  /** The walk meets each node at most once. */
  lemma UpChainInjective(m: Mapping, rk: Ranks, id: string, a: nat, b: nat)
    requires Acyclic(m, rk) && UpChain(m, id, a).Some? && UpChain(m, id, a) == UpChain(m, id, b)
    ensures a == b
  {
    if a < b {
      UpChainRank(m, rk, id, a, b);
    } else if b < a {
      UpChainRank(m, rk, id, b, a);
    }
  }

  /** When `NearestEditOnChain` finds an edit node, the walk from `id` meets
      it after some `k` steps and meets no edit node before. */
  lemma {:induction false} NearestEditFound(m: Mapping, id: string, rk: Ranks) returns (k: nat)
    requires Acyclic(m, rk) && NearestEditOnChain(m, Some(id), rk).Some?
    ensures UpChain(m, id, k) == NearestEditOnChain(m, Some(id), rk)
    ensures forall j: nat :: j < k ==> UpChain(m, id, j).Some? && !IsEditNode(m[UpChain(m, id, j).value])
    decreases rk.up[id]
  {
    if IsEditNode(m[id]) {
      k := 0;
    } else {
      var p := ParentIn(m, id).value;
      assert m[id].parent == Some(p);
      var k' := NearestEditFound(m, p, rk);
      k := k' + 1;
      UpChainShift(m, id, k');
      forall j: nat | j < k
        ensures UpChain(m, id, j).Some? && !IsEditNode(m[UpChain(m, id, j).value])
      {
        if j > 0 {
          UpChainShift(m, id, j - 1);
        }
      }
    }
  }

  /** When `NearestEditOnChain` finds nothing, the walk from `id` meets no
      edit node at all. */
  lemma {:induction false} NearestEditNone(m: Mapping, id: string, rk: Ranks)
    requires Acyclic(m, rk) && NearestEditOnChain(m, Some(id), rk).None?
    ensures forall k: nat :: UpChain(m, id, k).Some? ==> !IsEditNode(m[UpChain(m, id, k).value])
    decreases if id in m then rk.up[id] + 1 else 0
  {
    if id == "" || id !in m {
      forall k: nat ensures UpChain(m, id, k).None? {
        UpChainStops(m, id, 0, k);
      }
    } else {
      if ParentIn(m, id).Some? {
        var p := ParentIn(m, id).value;
        assert m[id].parent == Some(p);
        NearestEditNone(m, p, rk);
      }
      forall k: nat | UpChain(m, id, k).Some? ensures !IsEditNode(m[UpChain(m, id, k).value]) {
        if k > 0 {
          UpChainShift(m, id, k - 1);
        }
      }
    }
  }

  /** In a conversation without any edit node every present, non-empty id is
      on the valid path. */
  lemma {:induction false} NoEditNodeAllValid(m: Mapping, cache: set<string>, id: string, rk: Ranks)
    requires Acyclic(m, rk)
    requires forall x :: x in m ==> !IsEditNode(m[x])
    requires id != "" && id in m
    ensures ValidPath(m, cache, id, rk)
  {
    if NearestEditOnChain(m, Some(id), rk).Some? {
      var k := NearestEditFound(m, id, rk);
    }
  }

  /** A cache only matters for the ids it holds. */
  lemma CacheIrrelevant(m: Mapping, cache: set<string>, id: string, rk: Ranks)
    requires Acyclic(m, rk) && id !in cache
    ensures ValidPath(m, cache, id, rk) == ValidPath(m, {}, id, rk)
  {
  }

  /** Each node of the path below `e` reaches `e` by walking `k + 1` steps
      up, passing the first node of the path after `k` steps. */
  lemma {:induction false} LatestPathWalksUp(m: Mapping, e: string, rk: Ranks, k: nat)
    requires Acyclic(m, rk) && Linked(m) && "" !in m && e in m
    requires k < |LatestPath(m, e, rk)|
    ensures var p := LatestPath(m, e, rk);
      UpChain(m, p[k], k) == Some(p[0]) && UpChain(m, p[k], k + 1) == Some(e)
    decreases k
  {
    var p := LatestPath(m, e, rk);
    ChosenChildLinked(m, e, rk);
    var c := p[0];
    if k == 0 {
      assert UpChain(m, c, 0) == Some(c);
      UpChainStep(m, c, 0, c);
    } else {
      var q := LatestPath(m, c, rk);
      assert p[k] == q[k - 1];
      LatestPathWalksUp(m, c, rk, k - 1);
      UpChainStep(m, p[k], k, c);
    }
  }

  lemma UpChainStep(m: Mapping, x: string, k: nat, y: string)
    requires UpChain(m, x, k) == Some(y)
    ensures UpChain(m, x, k + 1) == ParentIn(m, y)
  {
  }

  /** The first node of the path below `e` is a child of `e` whose parent
      link leads back to `e`. */
  lemma ChosenChildLinked(m: Mapping, e: string, rk: Ranks)
    requires Acyclic(m, rk) && Linked(m) && "" !in m && e in m
    requires LatestPath(m, e, rk) != []
    ensures var c := LatestPath(m, e, rk)[0];
      && NewestComplete(m, m[e].children) == Some(c)
      && LatestPath(m, e, rk) == [c] + LatestPath(m, c, rk)
      && c in m && ParentIn(m, c) == Some(e)
  {
    var c := NewestComplete(m, m[e].children).value;
    assert c in m[e].children && c in m;
    assert m[c].parent == Some(e);
  }

  /** Newest wins: a node whose upward walk passes through a child `c` of the
      edit node `e` that was not chosen is not on the path below `e`. */
  lemma NonChosenBranchExcluded(m: Mapping, rk: Ranks, e: string, c: string, x: string, j: nat)
    requires Acyclic(m, rk) && Linked(m) && "" !in m && e in m
    requires NewestComplete(m, m[e].children) != Some(c)
    requires UpChain(m, x, j) == Some(c) && UpChain(m, x, j + 1) == Some(e)
    ensures x !in LatestPath(m, e, rk)
  {
    var p := LatestPath(m, e, rk);
    if x in p {
      var k :| 0 <= k < |p| && p[k] == x;
      LatestPathWalksUp(m, e, rk, k);
      PathNodeBranch(m, rk, x, e, p[0], k, j);
      LatestPathIsChain(m, e, rk);
    }
  }

  /** If the walk from `x` reaches `e` after `k + 1` steps, passing `c`
      after `k`, then any walk from `x` that reaches `e` after `j + 1` steps
      passes `c` after `j`. */
  lemma PathNodeBranch(m: Mapping, rk: Ranks, x: string, e: string, c: string, k: nat, j: nat)
    requires Acyclic(m, rk)
    requires UpChain(m, x, k) == Some(c) && UpChain(m, x, k + 1) == Some(e)
    requires UpChain(m, x, j + 1) == Some(e)
    ensures UpChain(m, x, j) == Some(c)
  {
    UpChainInjective(m, rk, x, k + 1, j + 1);
  }

  /** A node below a non-chosen child of its nearest edit ancestor is not on
      the valid path. */
  lemma NonChosenBranchInvalid(m: Mapping, rk: Ranks, e: string, c: string, x: string, j: nat)
    requires Acyclic(m, rk) && Linked(m) && "" !in m
    requires NearestEditOnChain(m, Some(x), rk) == Some(e) && x != e
    requires NewestComplete(m, m[e].children) != Some(c)
    requires UpChain(m, x, j) == Some(c) && UpChain(m, x, j + 1) == Some(e)
    ensures !ValidPath(m, {}, x, rk)
  {
    NonChosenBranchExcluded(m, rk, e, c, x, j);
  }
}
