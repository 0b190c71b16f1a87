/** A call frame that serves a second row as the first has left it: when the SQL functions of
    `regexp_replace_rand`, called without variables, still answer as for a fresh frame. */
module SecondRow {
  import opened RegexpReplaceRand
  import opened RegexpRewrite
  import opened ReplaceRandProperties
  import opened SplitRules
  import opened Texts
  import RR = ReplaceRand

  function FirstChunk(t: Text): Text { Chunks(t)[0] }

  /** What a row that no rule fits leaves in the slots. */
  function LeftByMiss(rule: Text, result: Text): (Text, Text) {
    var R, S := Chunks(rule), Chunks(result);
    (R[PairLimit(R, S) - 1], S[PairLimit(R, S) - 1])
  }

  /** The array version then leaves the fallback pair, if there is one. */
  function LeftByElementMiss(rule: Text, result: Text): (Text, Text) {
    var R, S := Chunks(rule), Chunks(result);
    if Fallback(R, S).Some? then Fallback(R, S).value else LeftByMiss(rule, result)
  }

  /** The result slot s reads as first for all digits: two digit streams decide it. */
  predicate ReadsAs(s: Text, first: Text) {
    FirstChunk(RR.Expand(s, 0, ZEROS, 0)) == first && FirstChunk(RR.Expand(s, 0, ONES, 0)) == first
  }

  /** All usable rules are one, not empty; the first result holds no placeholder; and what a miss leaves
      is that rule and reads as that result. */
  predicate ServesAgain(rule: Text, result: Text, left: (Text, Text)) {
    var R, S := Chunks(rule), Chunks(result);
    && (forall i :: 0 <= i < PairLimit(R, S) ==> R[i] == R[0])
    && R[0] != [] && RR.First(S[0], 0).None?
    && left.0 == R[0] && ReadsAs(left.1, S[0])
  }

  // ----- Facts about first chunks -----

  lemma FirstChunkIs(t: Text)
    ensures FirstChunk(t) == match IndexOfPair(t, '|', '|', 0) case None => t case Some(i) => t[..i]
  {
    assert t[0..] == t;
  }

  lemma MixedPairs(w: Text, z: Text, o: Text)
    requires Mixed(w, z, o)
    ensures IndexOfPair(w, '|', '|', 0) == IndexOfPair(z, '|', '|', 0) == IndexOfPair(o, '|', '|', 0)
  {
    SamePairs(w, z);
    SamePairs(w, o);
  }

  lemma SamePairs(u: Text, v: Text)
    requires |u| == |v| && forall i :: 0 <= i < |u| ==> (u[i] == '|' <==> v[i] == '|')
    ensures IndexOfPair(u, '|', '|', 0) == IndexOfPair(v, '|', '|', 0)
  {
    hide IndexOfPair;
    assert forall k | 0 <= k < |u| :: PairAt(u, '|', '|', k) == PairAt(v, '|', '|', k);
    var i, j := IndexOfPair(u, '|', '|', 0), IndexOfPair(v, '|', '|', 0);
    assert i.Some? ==> PairAt(v, '|', '|', i.value);
    assert j.Some? ==> PairAt(u, '|', '|', j.value);
  }

  /** A first chunk that two streams agree on is that of all. */
  lemma ReadsAsForAll(s: Text, first: Text, ds: RR.Stream)
    requires ReadsAs(s, first)
    ensures FirstChunk(RR.Expand(s, 0, ds, 0)) == first
  {
    hide RR.Expand, Chunks;
    var w, z, o := RR.Expand(s, 0, ds, 0), RR.Expand(s, 0, ZEROS, 0), RR.Expand(s, 0, ONES, 0);
    TwoStreamsTellAll(s, 0, ds, 0);
    MixedPairs(w, z, o);
    FirstChunkIs(w);
    FirstChunkIs(z);
    FirstChunkIs(o);
    assert FirstChunk(z) == FirstChunk(o);
    assert forall i | 0 <= i < |FirstChunk(z)| :: z[i] == FirstChunk(z)[i] && o[i] == FirstChunk(o)[i] && w[i] == z[i];
  }

  /** A chunk with a placeholder never reads as itself: its first chunk has fewer `r`. */
  lemma PlaceholderChanges(s: Text, ds: RR.Stream)
    requires RR.First(s, 0).Some?
    ensures FirstChunk(RR.Expand(s, 0, ds, 0)) != s
  {
    hide RR.First, RR.Expand, Chunks;
    var t := RR.Expand(s, 0, ds, 0);
    FewerR(s, 0, ds, 0);
    assert s[0..] == s;
    FirstChunkIs(t);
    match IndexOfPair(t, '|', '|', 0)
    case None =>
    case Some(i) => assert t == t[..i] + t[i..];
  }

  // ----- The law -----

  /** Both functions in one: the array version of an element, or the scalar version. */
  function AnswerOf(e: Engine, input: Text, slots: (Text, Text), keepEmpty: bool, ds: RR.Stream, element: bool): Text {
    if element then ElementAnswer(e, input, slots, keepEmpty, ds) else Answer(e, input, slots, keepEmpty, ds)
  }

  function LeftBy(e: Engine, rule: Text, result: Text, input: Text, element: bool): (Text, Text) {
    if element then LastTriedElement(e, Chunks(rule), Chunks(result), input)
    else LastTried(e, Chunks(rule), Chunks(result), input)
  }

  function LeftByMissOf(rule: Text, result: Text, element: bool): (Text, Text) {
    if element then LeftByElementMiss(rule, result) else LeftByMiss(rule, result)
  }

  /** With one rule in the slot, what counts is the first chunk of the expanded result. */
  lemma SingleAnswer(e: Engine, rule: Text, i: nat, s: Text, input: Text, keepEmpty: bool, ds: RR.Stream, element: bool)
    requires i < |Chunks(rule)|
    ensures var r := Chunks(rule)[i];
      AnswerOf(e, input, (r, s), keepEmpty, ds, element)
        == if r == [] then input else e.Yield(r, FirstChunk(RR.Expand(s, 0, ds, 0)), input, keepEmpty)
  {
    hide Chunks, RR.Expand, Rewrite, RewriteElement;
    RewriteSingle(e, rule, i, RR.Expand(s, 0, ds, 0), input, keepEmpty);
  }

  /** The answer of a fresh frame: the first pair that hits, and in the array version the pair left by
      a miss. */
  lemma FreshAnswer(e: Engine, rule: Text, result: Text, input: Text, keepEmpty: bool, ds: RR.Stream, element: bool)
    requires rule != [] && RR.First(result, 0).None?
    ensures var R, S := Chunks(rule), Chunks(result);
      var hit := FirstHit(e, R, input, PairLimit(R, S));
      var left := LeftByMissOf(rule, result, element);
      && AnswerOf(e, input, (rule, result), keepEmpty, ds, element) ==
           (if hit.Some? then e.Yield(R[hit.value], S[hit.value], input, keepEmpty)
            else e.Yield(left.0, left.1, input, keepEmpty))
      && LeftBy(e, rule, result, input, element) ==
           if hit.Some? then (R[hit.value], S[hit.value]) else left
  {
    hide Chunks, RR.First, RR.Expand, FirstHit, Fallback;
    RR.NothingFound(result, ds);
    var R, S := Chunks(rule), Chunks(result);
    FirstHitIsLeast(e, R, input, PairLimit(R, S));
  }

  /** Then a second row is answered as by a fresh frame, whatever engine, inputs and digits. */
  lemma SecondRowAgrees(e: Engine, rule: Text, result: Text, input1: Text, input2: Text, keepEmpty: bool, ds: RR.Stream, element: bool)
    requires rule != [] && RR.First(result, 0).None? && ServesAgain(rule, result, LeftByMissOf(rule, result, element))
    ensures AnswerOf(e, input2, LeftBy(e, rule, result, input1, element), keepEmpty, ds, element)
      == AnswerOf(e, input2, (rule, result), keepEmpty, ds, element)
  {
    hide Chunks, RR.First, RR.Expand, FirstHit, LeftBy, AnswerOf, LeftByMissOf, ReadsAs;
    var R, S := Chunks(rule), Chunks(result);
    var limit, left := PairLimit(R, S), LeftByMissOf(rule, result, element);
    FreshAnswer(e, rule, result, input1, keepEmpty, ds, element);
    FreshAnswer(e, rule, result, input2, keepEmpty, ds, element);
    FirstHitIsLeast(e, R, input1, limit);
    FirstHitIsLeast(e, R, input2, limit);
    SingleAnswer(e, rule, 0, S[0], input2, keepEmpty, ds, element);
    SingleAnswer(e, rule, 0, left.1, input2, keepEmpty, ds, element);
    ReadsAsForAll(left.1, S[0], ds);
    RR.NothingFound(S[0], ds);
    ChunkIsWhole(result, 0);
  }

  /** Two answers to a second row, from the slots a first row left and from a fresh frame. */
  predicate SecondRowOff(e: Engine, rule: Text, result: Text, input1: Text, input2: Text, keepEmpty: bool, ds: RR.Stream, element: bool) {
    AnswerOf(e, input2, LeftBy(e, rule, result, input1, element), keepEmpty, ds, element)
      != AnswerOf(e, input2, (rule, result), keepEmpty, ds, element)
  }

  /** A rule that hits first for one row and is not the first rule hides the first rule from the next. */
  lemma OffByOtherRule(rule: Text, result: Text, i: nat, keepEmpty: bool, ds: RR.Stream, element: bool)
    requires rule != [] && RR.First(result, 0).None?
    requires var R, S := Chunks(rule), Chunks(result); i < PairLimit(R, S) && R[i] != R[0]
    ensures var R := Chunks(rule); SecondRowOff(TwoRules(R[0], R[i]), rule, result, "1", "2", keepEmpty, ds, element)
  {
    hide Chunks, RR.First, RR.Expand, FirstHit, LeftBy, AnswerOf, LeftByMissOf;
    var R, S := Chunks(rule), Chunks(result);
    var limit, e := PairLimit(R, S), TwoRules(R[0], R[i]);
    FreshAnswer(e, rule, result, "1", keepEmpty, ds, element);
    FreshAnswer(e, rule, result, "2", keepEmpty, ds, element);
    FirstHitIsLeast(e, R, "1", limit);
    FirstHitIsLeast(e, R, "2", limit);
    var m := FirstHit(e, R, "1", limit).value;
    SingleAnswer(e, rule, m, S[m], "2", keepEmpty, ds, element);
  }

  /** A hit leaves the first rule; if that is empty, or its result has a placeholder, the next row is
      answered otherwise. */
  lemma OffAfterHit(rule: Text, result: Text, keepEmpty: bool, ds: RR.Stream, element: bool)
    requires rule != [] && RR.First(result, 0).None?
    requires Chunks(rule)[0] == [] || RR.First(Chunks(result)[0], 0).Some?
    ensures SecondRowOff(TwoResults(Chunks(result)[0]), rule, result, "2", "2", keepEmpty, ds, element)
  {
    hide Chunks, RR.First, RR.Expand, FirstHit, LeftBy, AnswerOf, LeftByMissOf, FirstChunk;
    var R, S := Chunks(rule), Chunks(result);
    var limit, e := PairLimit(R, S), TwoResults(S[0]);
    FreshAnswer(e, rule, result, "2", keepEmpty, ds, element);
    FirstHitIsLeast(e, R, "2", limit);
    SingleAnswer(e, rule, 0, S[0], "2", keepEmpty, ds, element);
    if R[0] != [] { PlaceholderChanges(S[0], ds); }
  }

  /** A miss leaves the first rule with a result that reads differently. */
  lemma OffAfterMiss(rule: Text, result: Text, keepEmpty: bool, ds: RR.Stream, element: bool)
    requires rule != [] && RR.First(result, 0).None?
    requires var left := LeftByMissOf(rule, result, element);
      left.0 == Chunks(rule)[0] != [] && FirstChunk(RR.Expand(left.1, 0, ds, 0)) != Chunks(result)[0]
    ensures SecondRowOff(TwoResults(Chunks(result)[0]), rule, result, "1", "2", keepEmpty, ds, element)
  {
    hide Chunks, RR.First, RR.Expand, FirstHit, LeftBy, AnswerOf, LeftByMissOf, FirstChunk;
    var R, S := Chunks(rule), Chunks(result);
    var limit, e, left := PairLimit(R, S), TwoResults(S[0]), LeftByMissOf(rule, result, element);
    FreshAnswer(e, rule, result, "1", keepEmpty, ds, element);
    FreshAnswer(e, rule, result, "2", keepEmpty, ds, element);
    FirstHitIsLeast(e, R, "1", limit);
    FirstHitIsLeast(e, R, "2", limit);
    SingleAnswer(e, rule, 0, left.1, "2", keepEmpty, ds, element);
  }

  /** Every proper part of a joined text is shorter. */
  lemma {:induction false} PartsAreShorter(chunks: seq<Text>, m: nat)
    requires m < |chunks| && |chunks| >= 2
    ensures |chunks[m]| < |Join(chunks)|
    ensures m > 0 ==> |Join(chunks[m..])| < |Join(chunks)|
    decreases m
  {
    if m == 1 {
      assert |chunks[1..]| > 1 ==> |chunks[1..][0]| < |Join(chunks[1..])|;
    } else if m > 1 {
      PartsAreShorter(chunks[1..], m - 1);
      assert chunks[1..][m - 1..] == chunks[m..];
    }
  }

  /** A rule text of several chunks is itself never tried as a rule. */
  lemma OwnTextNeverTried(e: Engine, t: Text, result: Text, input: Text, keepEmpty: bool)
    requires |Chunks(t)| >= 2 && forall p :: e.Hits(p, input) ==> p == t
    ensures RewriteElement(e, t, result, input, keepEmpty) == input
  {
    hide Chunks, FirstHit, Join;
    var R, S := Chunks(t), Chunks(result);
    JoinChunks(t, 0);
    assert t[0..] == t;
    FirstHitIsLeast(e, R, input, PairLimit(R, S));
    forall m: nat | m < |R| ensures R[m] != t && (m > 0 ==> Join(R[m..]) != t) {
      PartsAreShorter(R, m);
    }
    assert t != [] by { PartsAreShorter(R, 0); }
  }

  /** A miss of the array version leaves another rule than the only usable one. */
  lemma OffAfterFallback(rule: Text, result: Text, keepEmpty: bool, ds: RR.Stream) returns (e: Engine)
    requires rule != [] && RR.First(result, 0).None?
    requires var R, S := Chunks(rule), Chunks(result);
      && (forall i :: 0 <= i < PairLimit(R, S) ==> R[i] == R[0])
      && Fallback(R, S).Some? && Fallback(R, S).value.0 != R[0]
    ensures SecondRowOff(e, rule, result, "1", "2", keepEmpty, ds, true)
  {
    hide Chunks, RR.First, RR.Expand, FirstHit, LeftBy, AnswerOf, Fallback, FirstChunk;
    var R, S := Chunks(rule), Chunks(result);
    var limit, left := PairLimit(R, S), LeftByMissOf(rule, result, true);
    var several := |Chunks(left.0)| >= 2;
    e := if left.0 == [] then TwoResults(S[0]) else TwoRules(if several then left.0 else R[0], left.0);
    FreshAnswer(e, rule, result, "1", keepEmpty, ds, true);
    FreshAnswer(e, rule, result, "2", keepEmpty, ds, true);
    FirstHitIsLeast(e, R, "1", limit);
    FirstHitIsLeast(e, R, "2", limit);
    LeftRuleAnswer(e, left, several, keepEmpty, ds);
  }

  lemma LeftRuleAnswer(e: Engine, left: (Text, Text), several: bool, keepEmpty: bool, ds: RR.Stream)
    requires several == (|Chunks(left.0)| >= 2)
    requires left.0 != [] && several ==> forall p :: e.Hits(p, "2") ==> p == left.0
    requires left.0 != [] && !several ==> !e.Hits(left.0, "2")
    ensures AnswerOf(e, "2", left, keepEmpty, ds, true) == "2"
  {
    hide RR.Expand, RewriteElement;
    if left.0 != [] {
      if several {
        OwnTextNeverTried(e, left.0, RR.Expand(left.1, 0, ds, 0), "2", keepEmpty);
      } else {
        assert Chunks(left.0) == [left.0] by {
          JoinChunks(left.0, 0);
          assert left.0[0..] == left.0;
        }
        SingleAnswer(e, left.0, 0, left.1, "2", keepEmpty, ds, true);
      }
    }
  }

  /** Otherwise some engine, inputs and digits make the second answer wrong: the condition is exact, for
      both functions. */
  lemma SecondRowDiffers(rule: Text, result: Text, keepEmpty: bool, element: bool)
    returns (e: Engine, input1: Text, input2: Text, ds: RR.Stream)
    requires rule != [] && RR.First(result, 0).None? && !ServesAgain(rule, result, LeftByMissOf(rule, result, element))
    ensures SecondRowOff(e, rule, result, input1, input2, keepEmpty, ds, element)
  {
    hide Chunks, RR.First, RR.Expand, FirstHit, LeftBy, AnswerOf, Fallback, FirstChunk, SecondRowOff;
    var R, S := Chunks(rule), Chunks(result);
    var left := LeftByMissOf(rule, result, element);
    input1, input2, ds := "1", "2", ZEROS;
    if i :| 0 <= i < PairLimit(R, S) && R[i] != R[0] {
      e := TwoRules(R[0], R[i]);
      OffByOtherRule(rule, result, i, keepEmpty, ds, element);
    } else if R[0] == [] || RR.First(S[0], 0).Some? {
      e, input1 := TwoResults(S[0]), "2";
      OffAfterHit(rule, result, keepEmpty, ds, element);
    } else if left.0 != R[0] {
      e := OffAfterFallback(rule, result, keepEmpty, ds);
    } else {
      e := TwoResults(S[0]);
      if FirstChunk(RR.Expand(left.1, 0, ZEROS, 0)) == S[0] { ds := ONES; }
      OffAfterMiss(rule, result, keepEmpty, ds, element);
    }
  }
}
