/** Content normalisation: stripping the export's sentinel glyphs and
    flattening the three content shapes to plain text. */
module ContentNormalizer {
  import opened ExportTypes

  /** Content types dropped wherever they occur as a substring. */
  const ExcludedContentTypes: seq<string> := ["asset_pointer", "audio", "video"]

  const AudioTranscription: string := "audio_transcription"

  /** The private-use block U+E200..U+E2FF that the export uses for citation markers. */
  predicate IsSentinel(c: char) {
    '\U{E200}' <= c <= '\U{E2FF}'
  }

  predicate NoSentinel(s: string) {
    forall i :: 0 <= i < |s| ==> !IsSentinel(s[i])
  }

  /** `cleanContent`: delete every sentinel character. */
  function Clean(s: string): (r: string)
    ensures |r| <= |s|
    ensures NoSentinel(r)
  {
    if s == [] then []
    else if IsSentinel(s[0]) then Clean(s[1..])
    else [s[0]] + Clean(s[1..])
  }

  /** `s.includes(sub)` */
  predicate Contains(s: string, sub: string)
    decreases |s|
  {
    |sub| <= |s| && (sub <= s || Contains(s[1..], sub))
  }

  /** `sub` occurs in `s` starting at offset `k`. */
  predicate OccursAt(s: string, sub: string, k: int) {
    0 <= k && k + |sub| <= |s| && s[k..k + |sub|] == sub
  }

  /** `Contains` is substring search: `sub` occurs at some offset of `s`. */
  lemma {:induction false} ContainsIff(s: string, sub: string)
    ensures Contains(s, sub) <==> exists k :: OccursAt(s, sub, k)
  {
    if |sub| <= |s| {
      assert sub <= s <==> OccursAt(s, sub, 0);
      if s != [] {
        var t := s[1..];
        ContainsIff(t, sub);
        assert Contains(s, sub) <==> sub <= s || Contains(t, sub);
        forall k | 0 < k ensures OccursAt(s, sub, k) <==> OccursAt(t, sub, k - 1) {
          if k + |sub| <= |s| {
            TailSlice(s, k, |sub|);
          }
        }
        if Contains(s, sub) && !(sub <= s) {
          var k :| OccursAt(t, sub, k);
          assert OccursAt(s, sub, k + 1);
        }
      }
    } else {
      forall k ensures !OccursAt(s, sub, k) { }
    }
  }

  lemma TailSlice(s: string, k: nat, n: nat)
    requires 0 < k && k + n <= |s|
    ensures s[k..k + n] == s[1..][k - 1..k - 1 + n]
  {
    var a, b := s[k..k + n], s[1..][k - 1..k - 1 + n];
    assert |a| == |b| == n;
    forall j | 0 <= j < n ensures a[j] == b[j] {
      assert a[j] == s[k + j];
    }
  }

  /** A type is excluded exactly when it mentions one of the three words. */
  lemma IsExcludedTypeIff(t: string)
    ensures IsExcludedType(t) <==> Contains(t, "asset_pointer") || Contains(t, "audio") || Contains(t, "video")
  {
    assert ExcludedContentTypes[0] == "asset_pointer";
    assert ExcludedContentTypes[1] == "audio";
    assert ExcludedContentTypes[2] == "video";
  }

  /** `EXCLUDED_CONTENT_TYPES.some((type) => t.includes(type))` */
  predicate IsExcludedType(t: string) {
    exists k :: 0 <= k < |ExcludedContentTypes| && Contains(t, ExcludedContentTypes[k])
  }

  /** `processContentPart` */
  function ProcessPart(p: Part): (r: string)
    ensures NoSentinel(r)
  {
    match p
    case TextPart(s) => Clean(s)
    case ObjectPart(ct, text, json) =>
      if ct == Some(AudioTranscription) then Clean(text)
      else if ct.Some? && IsExcludedType(ct.value) then ""
      else Clean(json)
  }

  /** `parts.map(processContentPart)` */
  function ProcessParts(ps: seq<Part>): (r: seq<string>)
    ensures |r| == |ps|
    ensures forall i :: 0 <= i < |ps| ==> r[i] == ProcessPart(ps[i])
  {
    if ps == [] then [] else [ProcessPart(ps[0])] + ProcessParts(ps[1..])
  }

  /** `.filter(Boolean)` on strings: keep the non-empty ones, in order. */
  function NonEmpty(xs: seq<string>): (r: seq<string>)
    ensures forall i :: 0 <= i < |r| ==> r[i] != "" && r[i] in xs
    ensures forall i :: 0 <= i < |xs| && xs[i] != "" ==> xs[i] in r
    ensures r == [] <==> forall i :: 0 <= i < |xs| ==> xs[i] == ""
  {
    if xs == [] then []
    else if xs[0] == "" then NonEmpty(xs[1..])
    else [xs[0]] + NonEmpty(xs[1..])
  }

  /** `.join("\n")` */
  function JoinLines(xs: seq<string>): (r: string)
    ensures (forall i :: 0 <= i < |xs| ==> NoSentinel(xs[i])) ==> NoSentinel(r)
    ensures xs != [] && xs[0] != "" ==> r != ""
  {
    if xs == [] then ""
    else if |xs| == 1 then xs[0]
    else xs[0] + "\n" + JoinLines(xs[1..])
  }

  /** `processMessageContent` */
  function ProcessContent(c: Content): (r: string)
    ensures NoSentinel(r)
  {
    match c
    case NoContent => ""
    case StrContent(s) => if s == "" then "" else Clean(s)
    case ObjContent(_, text, parts) =>
      if text.Some? && text.value != "" then Clean(text.value)
      else if parts.Some? then JoinLines(NonEmpty(ProcessParts(parts.value)))
      else ""
  }

  // ---------------------------------------------------------------------------
  // Properties of the normaliser

  /** Cleaning distributes over concatenation, so it keeps the surviving
      characters in their original order. */
  lemma {:induction false} CleanAppend(a: string, b: string)
    ensures Clean(a + b) == Clean(a) + Clean(b)
  {
    if a == [] {
      assert a + b == b;
    } else {
      assert (a + b)[1..] == a[1..] + b;
      CleanAppend(a[1..], b);
    }
  }

  /** Cleaning a single character deletes it exactly when it is a sentinel. */
  lemma CleanOne(c: char)
    ensures Clean([c]) == if IsSentinel(c) then [] else [c]
  {
    assert [c][1..] == [];
  }

  /** A string without sentinels is left unchanged. */
  lemma {:induction false} CleanKeepsClean(s: string)
    requires NoSentinel(s)
    ensures Clean(s) == s
  {
    if s != [] {
      assert NoSentinel(s[1..]) by {
        forall i | 0 <= i < |s[1..]| ensures !IsSentinel(s[1..][i]) {
          assert s[1..][i] == s[i + 1];
        }
      }
      CleanKeepsClean(s[1..]);
      assert s == [s[0]] + s[1..];
    }
  }

  /** Cleaning twice is cleaning once. */
  lemma CleanIdempotent(s: string)
    ensures Clean(Clean(s)) == Clean(s)
  {
    CleanKeepsClean(Clean(s));
  }

  /** Every non-sentinel character keeps its number of occurrences; every
      sentinel character disappears. */
  lemma {:induction false} CleanCounts(s: string, c: char)
    ensures multiset(Clean(s))[c] == if IsSentinel(c) then 0 else multiset(s)[c]
  {
    if s != [] {
      CleanCounts(s[1..], c);
      assert s == [s[0]] + s[1..];
      assert multiset(s) == multiset{s[0]} + multiset(s[1..]);
      if !IsSentinel(s[0]) {
        assert multiset(Clean(s)) == multiset{s[0]} + multiset(Clean(s[1..]));
      }
    }
  }

  /** An `audio_transcription` part yields its cleaned text, even though its
      type contains the excluded substring "audio": the transcription test
      runs first. */
  lemma AudioTranscriptionPrecedes(text: string, json: string)
    ensures IsExcludedType(AudioTranscription)
    ensures ProcessPart(ObjectPart(Some(AudioTranscription), text, json)) == Clean(text)
  {
    assert ExcludedContentTypes[1] == "audio";
    assert "audio" <= AudioTranscription;
    assert Contains(AudioTranscription, ExcludedContentTypes[1]);
  }

  /** An object part whose type contains an excluded substring (and is not
      exactly `audio_transcription`) contributes nothing. */
  lemma ExcludedPartIsEmpty(p: Part)
    requires p.ObjectPart? && p.contentType.Some? && p.contentType.value != AudioTranscription
    requires IsExcludedType(p.contentType.value)
    ensures ProcessPart(p) == ""
  {
  }

  /** Joining the non-empty part texts gives the empty string exactly when
      every part yields the empty string. */
  lemma {:induction false} JoinEmptyIff(xs: seq<string>)
    ensures JoinLines(NonEmpty(xs)) == "" <==> forall i :: 0 <= i < |xs| ==> xs[i] == ""
  {
    var ys := NonEmpty(xs);
    if ys != [] {
      assert ys[0] != "";
    }
  }

  /** A `parts` content (with no truthy `text`) normalises to the empty
      string exactly when every part does. */
  lemma PartsContentEmptyIff(ct: Option<string>, text: Option<string>, ps: seq<Part>)
    requires text.None? || text.value == ""
    ensures ProcessContent(ObjContent(ct, text, Some(ps))) == ""
        <==> forall i :: 0 <= i < |ps| ==> ProcessPart(ps[i]) == ""
  {
    var xs := ProcessParts(ps);
    JoinEmptyIff(xs);
    assert (forall i :: 0 <= i < |xs| ==> xs[i] == "")
        <==> (forall i :: 0 <= i < |ps| ==> ProcessPart(ps[i]) == "");
  }

  /** Joining preserves the number of characters of the pieces plus one
      newline between neighbours. */
  lemma {:induction false} JoinLength(xs: seq<string>)
    requires xs != []
    ensures |JoinLines(xs)| == SumLengths(xs) + |xs| - 1
  {
    if |xs| > 1 {
      JoinLength(xs[1..]);
    }
  }

  /** Filtering distributes over concatenation, so with `NonEmpty([x])` it
      fixes the order of the kept strings. */
  lemma {:induction false} NonEmptyAppend(a: seq<string>, b: seq<string>)
    ensures NonEmpty(a + b) == NonEmpty(a) + NonEmpty(b)
  {
    if a == [] {
      assert a + b == b;
    } else {
      assert (a + b)[1..] == a[1..] + b;
      NonEmptyAppend(a[1..], b);
    }
  }

  /** Joining one more piece appends a newline and the piece. */
  lemma {:induction false} JoinLinesSnoc(xs: seq<string>, y: string)
    requires xs != []
    ensures JoinLines(xs + [y]) == JoinLines(xs) + "\n" + y
  {
    if |xs| == 1 {
      assert xs + [y] == [xs[0], y];
    } else {
      assert (xs + [y])[1..] == xs[1..] + [y];
      JoinLinesSnoc(xs[1..], y);
    }
  }

  /** A `parts` content (with no truthy `text`) grows part by part: a part
      that yields `""` adds nothing, any other part is appended on a line of
      its own. */
  lemma PartsContentSnoc(ct: Option<string>, text: Option<string>, ps: seq<Part>, p: Part)
    requires text.None? || text.value == ""
    ensures var before := ProcessContent(ObjContent(ct, text, Some(ps)));
            ProcessContent(ObjContent(ct, text, Some(ps + [p])))
            == if ProcessPart(p) == "" then before
               else if before == "" then ProcessPart(p)
               else before + "\n" + ProcessPart(p)
  {
    assert ProcessParts(ps + [p]) == ProcessParts(ps) + [ProcessPart(p)];
    JoinNonEmptySnoc(ProcessParts(ps), ProcessPart(p));
  }

  lemma JoinNonEmptySnoc(xs: seq<string>, y: string)
    ensures var before := JoinLines(NonEmpty(xs));
            JoinLines(NonEmpty(xs + [y]))
            == if y == "" then before else if before == "" then y else before + "\n" + y
  {
    var ys := NonEmpty(xs);
    NonEmptyOne(y);
    NonEmptyAppend(xs, [y]);
    JoinEmptyIff(xs);
    if y == "" {
      assert NonEmpty(xs + [y]) == ys + [];
      assert ys + [] == ys;
    } else if ys == [] {
      assert NonEmpty(xs + [y]) == [] + [y];
      assert [] + [y] == [y];
    } else {
      assert NonEmpty(xs + [y]) == ys + [y];
      JoinLinesSnoc(ys, y);
    }
  }

  lemma NonEmptyOne(y: string)
    ensures NonEmpty([y]) == if y == "" then [] else [y]
  {
    assert [y][1..] == [];
  }

  function SumLengths(xs: seq<string>): nat {
    if xs == [] then 0 else |xs[0]| + SumLengths(xs[1..])
  }
}
