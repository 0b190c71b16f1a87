/** Multi-rule rewriting: the scalar and the array loop over rule/result pairs, and the reference
    definition both are measured against. The regular-expression engine is foreign code and enters
    as three arbitrary functions. */
module RegexpRewrite {
  import opened Collections
  import opened Texts
  import opened SplitRules

  const MAX_TOKENS := 10

  datatype Engine = Engine(
    compiles: Text -> bool,                      // pg_regcomp accepts the pattern
    matches: (Text, Text) -> bool,               // pg_regexec finds pattern in input
    substitute: (Text, Text, Text) -> Option<Text> // textregexreplace: pattern, result, input; None: it threw
  ) {
    predicate Hits(rule: Text, input: Text) {
      compiles(rule) && matches(rule, input)
    }

    /** A substitution that gives nothing to return: it threw, or left an unwanted empty text. */
    predicate Discards(rule: Text, result: Text, input: Text, keepEmpty: bool) {
      var r := substitute(rule, result, input);
      r.None? || (r.value == [] && !keepEmpty)
    }

    /** What one pair makes of an input. */
    function Yield(rule: Text, result: Text, input: Text, keepEmpty: bool): Text {
      if !Hits(rule, input) || Discards(rule, result, input, keepEmpty) then input
      else substitute(rule, result, input).value
    }
  }

  // ----- The reference definition -----

  /** The chunks that may be paired: an empty last chunk counts only when it is the only one. */
  function Usable(chunks: seq<Text>): nat
    requires |chunks| >= 1
  {
    if |chunks| > 1 && chunks[|chunks| - 1] == [] then |chunks| - 1 else |chunks|
  }

  function PairLimit(R: seq<Text>, S: seq<Text>): (limit: nat)
    requires |R| >= 1 && |S| >= 1
    ensures 1 <= limit <= |R| && limit <= |S|
  {
    Min(Min(Usable(R), Usable(S)), MAX_TOKENS - 1)
  }

  /** The least index below limit whose rule hits. */
  function FirstHit(e: Engine, R: seq<Text>, input: Text, limit: nat): (r: Option<nat>)
    requires limit <= |R|
    ensures r.Some? ==> r.value < limit
  {
    if limit == 0 then None
    else
      var earlier := FirstHit(e, R, input, limit - 1);
      if earlier.Some? then earlier
      else if e.Hits(R[limit - 1], input) then Some(limit - 1)
      else None
  }

  lemma {:induction false} FirstHitIsLeast(e: Engine, R: seq<Text>, input: Text, limit: nat)
    requires limit <= |R|
    ensures match FirstHit(e, R, input, limit)
      case Some(i) => e.Hits(R[i], input) && forall k :: 0 <= k < i ==> !e.Hits(R[k], input)
      case None => forall k :: 0 <= k < limit ==> !e.Hits(R[k], input)
  {
    if limit > 0 {
      FirstHitIsLeast(e, R, input, limit - 1);
    }
  }

  /** The outcome of the first pair that hits, else the input. */
  function RewriteChunks(e: Engine, R: seq<Text>, S: seq<Text>, input: Text, keepEmpty: bool): Text
    requires |R| >= 1 && |S| >= 1
  {
    match FirstHit(e, R, input, PairLimit(R, S))
    case Some(i) => e.Yield(R[i], S[i], input, keepEmpty)
    case None => input
  }

  function Rewrite(e: Engine, rule: Text, result: Text, input: Text, keepEmpty: bool): Text {
    RewriteChunks(e, Chunks(rule), Chunks(result), input, keepEmpty)
  }

  // ----- What the array loop does beyond the reference -----

  /** The pair the array loop still tries after it left its inner loop by the pair limit or by an
      empty last chunk: it falls into the tail code with the pointers where they stood. */
  function Fallback(R: seq<Text>, S: seq<Text>): Option<(Text, Text)>
    requires |R| >= 1 && |S| >= 1
  {
    if Min(|R|, |S|) >= MAX_TOKENS then
      Some((Join(R[MAX_TOKENS - 2..]), S[MAX_TOKENS - 2]))
    else if 2 <= |R| <= |S| && R[|R| - 1] == [] then
      Some(([], S[|R| - 2]))
    else if 2 <= |S| <= |R| && S[|S| - 1] == [] then
      Some((Join(R[|S| - 1..]), []))
    else None
  }

  function RewriteElementChunks(e: Engine, R: seq<Text>, S: seq<Text>, input: Text, keepEmpty: bool): Text
    requires |R| >= 1 && |S| >= 1
  {
    match (FirstHit(e, R, input, PairLimit(R, S)), Fallback(R, S))
    case (Some(i), _) => e.Yield(R[i], S[i], input, keepEmpty)
    case (None, Some((lateRule, lateResult))) => e.Yield(lateRule, lateResult, input, keepEmpty)
    case (None, None) => input
  }

  /** The array loop on one element. */
  function RewriteElement(e: Engine, rule: Text, result: Text, input: Text, keepEmpty: bool): Text {
    RewriteElementChunks(e, Chunks(rule), Chunks(result), input, keepEmpty)
  }

  /** NULL elements stay NULL. */
  function RewriteNullable(e: Engine, rule: Text, result: Text, input: Option<Text>, keepEmpty: bool): Option<Text> {
    match input
    case None => None
    case Some(v) => Some(RewriteElement(e, rule, result, v, keepEmpty))
  }

  // ----- In terms of the engine -----

  /** Pair k may be tried: it exists, it is one of the first nine, and neither half is an empty text
      behind the last token. */
  predicate Eligible(R: seq<Text>, S: seq<Text>, k: nat) {
    && k < |R| && k < |S| && k < 9
    && (k > 0 && k == |R| - 1 ==> R[k] != [])
    && (k > 0 && k == |S| - 1 ==> S[k] != [])
  }

  lemma EligibleIsWithinLimit(R: seq<Text>, S: seq<Text>, k: nat)
    requires |R| >= 1 && |S| >= 1
    ensures Eligible(R, S, k) <==> k < PairLimit(R, S)
  {
  }

  /** The least eligible pair whose rule compiles and matches decides, in both versions: by the text the
      engine substitutes, unless that is empty and empty texts are not kept, or the engine throws. That
      pair is also what is left in the slots. */
  lemma FirstFit(e: Engine, rule: Text, result: Text, input: Text, keepEmpty: bool, m: nat)
    requires var R, S := Chunks(rule), Chunks(result);
      && Eligible(R, S, m) && e.compiles(R[m]) && e.matches(R[m], input)
      && forall k :: 0 <= k < m ==> !(e.compiles(R[k]) && e.matches(R[k], input))
    ensures Rewrite(e, rule, result, input, keepEmpty) == RewriteElement(e, rule, result, input, keepEmpty)
    ensures match e.substitute(Chunks(rule)[m], Chunks(result)[m], input)
      case Some(y) => Rewrite(e, rule, result, input, keepEmpty) == if y != [] || keepEmpty then y else input
      case None => Rewrite(e, rule, result, input, keepEmpty) == input
    ensures LastTried(e, Chunks(rule), Chunks(result), input) == (Chunks(rule)[m], Chunks(result)[m])
    ensures LastTriedElement(e, Chunks(rule), Chunks(result), input) == (Chunks(rule)[m], Chunks(result)[m])
  {
    hide Chunks, Fallback, PairLimit, FirstHit;
    var R, S := Chunks(rule), Chunks(result);
    EligibleIsWithinLimit(R, S, m);
    FirstHitIsLeast(e, R, input, PairLimit(R, S));
    assert e.Hits(R[m], input);
  }

  /** Where none fits the input comes back, in the array version unless one of three kinds of rule and
      result texts lets it try a further pair. */
  lemma NoFit(e: Engine, rule: Text, result: Text, input: Text, keepEmpty: bool)
    requires forall k: nat :: Eligible(Chunks(rule), Chunks(result), k) ==>
      !(e.compiles(Chunks(rule)[k]) && e.matches(Chunks(rule)[k], input))
    ensures Rewrite(e, rule, result, input, keepEmpty) == input
    ensures RewriteElement(e, rule, result, input, keepEmpty)
      == match Fallback(Chunks(rule), Chunks(result))
         case Some((p, r)) =>
           if !e.compiles(p) || !e.matches(p, input) then input
           else (match e.substitute(p, r, input)
                 case Some(y) => if y != [] || keepEmpty then y else input
                 case None => input)
         case None => input
    ensures forall m: nat :: Eligible(Chunks(rule), Chunks(result), m) && !Eligible(Chunks(rule), Chunks(result), m + 1) ==>
      && LastTried(e, Chunks(rule), Chunks(result), input) == (Chunks(rule)[m], Chunks(result)[m])
      && LastTriedElement(e, Chunks(rule), Chunks(result), input)
           == Fallback(Chunks(rule), Chunks(result)).GetOr((Chunks(rule)[m], Chunks(result)[m]))
  {
    hide Chunks, Fallback, FirstHit, PairLimit;
    NothingHits(e, Chunks(rule), Chunks(result), input);
    forall m: nat | Eligible(Chunks(rule), Chunks(result), m) && !Eligible(Chunks(rule), Chunks(result), m + 1)
      ensures PairLimit(Chunks(rule), Chunks(result)) == m + 1
    {
      EligibleIsWithinLimit(Chunks(rule), Chunks(result), m);
      EligibleIsWithinLimit(Chunks(rule), Chunks(result), m + 1);
    }
  }

  lemma NothingHits(e: Engine, R: seq<Text>, S: seq<Text>, input: Text)
    requires |R| >= 1 && |S| >= 1
    requires forall k: nat :: Eligible(R, S, k) ==> !(e.compiles(R[k]) && e.matches(R[k], input))
    ensures FirstHit(e, R, input, PairLimit(R, S)) == None
  {
    hide PairLimit, FirstHit;
    FirstHitIsLeast(e, R, input, PairLimit(R, S));
    forall k: nat | k < PairLimit(R, S) ensures !e.Hits(R[k], input) {
      EligibleIsWithinLimit(R, S, k);
    }
  }

  /** What the further pair is, by the texts. With ten pairs or more: all of the rule text behind the
      first eight rules, with the ninth result. With an empty text behind the last rule, where there are
      no fewer results: the empty rule, with the result before the last one. With an empty text behind the
      last result, where there are no fewer rules: all of the rule text from that rule on, with the empty
      result. Otherwise there is none. */
  lemma FurtherPair(rule: Text, result: Text)
    ensures var R, S := Chunks(rule), Chunks(result);
      var f := Fallback(R, S);
      && (|R| >= 10 && |S| >= 10 ==> f.Some? && f.value.1 == S[8] && rule == Join(R[..8]) + "||" + f.value.0)
      && ((|R| < 10 || |S| < 10) && 2 <= |R| <= |S| && R[|R| - 1] == [] ==> f == Some(([], S[|R| - 2])))
      && ((|R| < 10 || |S| < 10) && 2 <= |S| <= |R| && S[|S| - 1] == [] && !(|R| == |S| && R[|R| - 1] == []) ==>
           f.Some? && f.value.1 == [] && rule == Join(R[..|S| - 1]) + "||" + f.value.0)
      && ((|R| < 10 || |S| < 10) && !(2 <= |R| <= |S| && R[|R| - 1] == []) && !(2 <= |S| <= |R| && S[|S| - 1] == []) ==>
           f == None)
  {
    hide Chunks, Join;
    var R, S := Chunks(rule), Chunks(result);
    JoinChunks(rule, 0);
    assert rule[0..] == rule;
    if |R| >= 10 && |S| >= 10 { JoinParts(R, 8); }
    if 2 <= |S| <= |R| { JoinParts(R, |S| - 1); }
  }

  lemma {:induction false} JoinParts(chunks: seq<Text>, m: nat)
    requires 0 < m < |chunks|
    ensures Join(chunks) == Join(chunks[..m]) + "||" + Join(chunks[m..])
    decreases m
  {
    var tail := chunks[1..];
    if m > 1 {
      JoinParts(tail, m - 1);
      assert chunks[..m][1..] == tail[..m - 1] && tail[m - 1..] == chunks[m..];
      JoinRegroup(chunks[0], Join(tail[..m - 1]), Join(chunks[m..]));
    } else {
      assert chunks[..1] == [chunks[0]];
    }
  }

  lemma JoinRegroup(a: Text, b: Text, c: Text)
    ensures a + "||" + (b + "||" + c) == (a + "||" + b) + "||" + c
  {
  }

  // ----- When the two agree -----

  /** The fallback pair brings in a rule that no earlier attempt has already ruled out. */
  predicate Diverges(rule: Text, result: Text) {
    var R, S := Chunks(rule), Chunks(result);
    Fallback(R, S).Some? && Fallback(R, S).value.0 !in R[..PairLimit(R, S)]
  }

  lemma ArrayAgrees(e: Engine, rule: Text, result: Text, input: Text, keepEmpty: bool)
    requires !Diverges(rule, result)
    ensures RewriteElement(e, rule, result, input, keepEmpty) == Rewrite(e, rule, result, input, keepEmpty)
  {
    var R, S := Chunks(rule), Chunks(result);
    FirstHitIsLeast(e, R, input, PairLimit(R, S));
    if FirstHit(e, R, input, PairLimit(R, S)).None? && Fallback(R, S).Some? {
      var k :| 0 <= k < PairLimit(R, S) && R[k] == Fallback(R, S).value.0;
      assert !e.Hits(R[k], input);
    }
  }

  /** The condition is exact: otherwise some engine and some input tell the two versions apart. */
  lemma ArrayDiverges(rule: Text, result: Text, keepEmpty: bool) returns (e: Engine, input: Text)
    requires Diverges(rule, result)
    ensures RewriteElement(e, rule, result, input, keepEmpty) != Rewrite(e, rule, result, input, keepEmpty)
  {
    var R, S := Chunks(rule), Chunks(result);
    var late := Fallback(R, S).value.0;
    e := Engine(p => true, (p, x) => p == late, (p, r, x) => Some("y"));
    input := "x";
    FirstHitIsLeast(e, R, input, PairLimit(R, S));
    assert e.Yield(late, Fallback(R, S).value.1, input, keepEmpty) == "y";
  }

  /** For a given engine and input the versions differ exactly when no usable rule hits, there is a
      fallback pair, and that pair changes the input. */
  lemma VersionsDiffer(e: Engine, rule: Text, result: Text, input: Text, keepEmpty: bool)
    ensures RewriteElement(e, rule, result, input, keepEmpty) != Rewrite(e, rule, result, input, keepEmpty) <==>
      var R, S := Chunks(rule), Chunks(result);
      && (forall k :: 0 <= k < PairLimit(R, S) ==> !e.Hits(R[k], input))
      && Fallback(R, S).Some?
      && e.Yield(Fallback(R, S).value.0, Fallback(R, S).value.1, input, keepEmpty) != input
  {
    hide Fallback, PairLimit;
    var R, S := Chunks(rule), Chunks(result);
    FirstHitIsLeast(e, R, input, PairLimit(R, S));
  }

  lemma LiteralChunks(a: Text, b: Text)
    requires FreeOf(a, '|', '|') && FreeOf(b, '|', '|') && (a == [] || a[|a| - 1] != '|')
    ensures Chunks(a + "||" + b) == [a, b]
  {
    var chunks := [a, b];
    assert chunks[1..] == [b];
    assert Join([b]) == b;
    ChunksJoin(chunks, []);
    assert [] + Join(chunks) == a + "||" + b;
  }

  lemma TrailingChunks(e: Engine, a: Text, x: Text, y: Text, input: Text, keepEmpty: bool)
    requires a != [] && y != [] && !e.Hits(a, input)
    ensures RewriteChunks(e, [a, []], [x, y], input, keepEmpty) == input
    ensures RewriteElementChunks(e, [a, []], [x, y], input, keepEmpty) == e.Yield([], x, input, keepEmpty)
  {
    var R, S := [a, []], [x, y];
    assert PairLimit(R, S) == 1;
    FirstHitIsLeast(e, R, input, 1);
  }

  /** For instance a token at the end of the rules: where the rule `a` misses, the array version goes
      on to try the empty rule. */
  lemma TrailingToken(e: Engine, input: Text, keepEmpty: bool)
    ensures Diverges("a||", "x||y")
    ensures !e.Hits("a", input) ==>
      && Rewrite(e, "a||", "x||y", input, keepEmpty) == input
      && RewriteElement(e, "a||", "x||y", input, keepEmpty) == e.Yield([], "x", input, keepEmpty)
  {
    LiteralChunks("a", []);
    LiteralChunks("x", "y");
    assert "a" + "||" + [] == "a||" && "x" + "||" + "y" == "x||y";
    hide Chunks, RewriteChunks, RewriteElementChunks;
    if !e.Hits("a", input) { TrailingChunks(e, "a", "x", "y", input, keepEmpty); }
    assert ["a", []][..1] == ["a"];
  }

  /** Up to nine rules, and no text of several chunks that ends in an empty one: the array version
      does to each element what the scalar version does. */
  lemma PlainRulesAgree(e: Engine, rule: Text, result: Text, input: Text, keepEmpty: bool)
    requires |Chunks(rule)| < MAX_TOKENS
    requires Usable(Chunks(rule)) == |Chunks(rule)| && Usable(Chunks(result)) == |Chunks(result)|
    ensures RewriteElement(e, rule, result, input, keepEmpty) == Rewrite(e, rule, result, input, keepEmpty)
  {
    assert Fallback(Chunks(rule), Chunks(result)).None?;
    ArrayAgrees(e, rule, result, input, keepEmpty);
  }

  lemma {:induction false} ChunkIsFree(chunks: seq<Text>, k: nat)
    requires WellSplit(chunks) && k < |chunks|
    ensures FreeOf(chunks[k], '|', '|')
  {
    if k > 0 {
      ChunkIsFree(chunks[1..], k - 1);
    }
  }

  /** Ten or more pairs always diverge: the late rule holds `||`, which no chunk does. */
  lemma TenPairsDiverge(rule: Text, result: Text)
    requires |Chunks(rule)| >= MAX_TOKENS && |Chunks(result)| >= MAX_TOKENS
    ensures Diverges(rule, result)
  {
    var R := Chunks(rule);
    ChunksWellSplit(rule, 0);
    var late := Join(R[MAX_TOKENS - 2..]);
    assert late == R[MAX_TOKENS - 2] + "||" + Join(R[MAX_TOKENS - 2..][1..]);
    assert PairAt(late, '|', '|', |R[MAX_TOKENS - 2]|);
    forall k | 0 <= k < |R| ensures R[k] != late {
      ChunkIsFree(R, k);
    }
  }

  /** The changelog speaks of ten pairs; the tenth is never looked at. */
  lemma TenthPairIgnored(e: Engine, R: seq<Text>, S: seq<Text>, R': seq<Text>, S': seq<Text>,
                         input: Text, keepEmpty: bool)
    requires |R| >= MAX_TOKENS && |S| >= MAX_TOKENS && |R'| >= MAX_TOKENS && |S'| >= MAX_TOKENS
    requires R[..MAX_TOKENS - 1] == R'[..MAX_TOKENS - 1] && S[..MAX_TOKENS - 1] == S'[..MAX_TOKENS - 1]
    ensures RewriteChunks(e, R, S, input, keepEmpty) == RewriteChunks(e, R', S', input, keepEmpty)
  {
    FirstHitOfPrefix(e, R, R', input, MAX_TOKENS - 1);
    var hit := FirstHit(e, R, input, MAX_TOKENS - 1);
    if hit.Some? {
      assert S[hit.value] == S[..MAX_TOKENS - 1][hit.value] == S'[hit.value];
      assert R[hit.value] == R[..MAX_TOKENS - 1][hit.value] == R'[hit.value];
    }
  }

  /** The reference with another limit on the number of pairs. */
  function RewriteUpTo(e: Engine, R: seq<Text>, S: seq<Text>, input: Text, keepEmpty: bool, most: nat): Text
    requires |R| >= 1 && |S| >= 1
  {
    match FirstHit(e, R, input, Min(Min(Usable(R), Usable(S)), most))
    case Some(i) => e.Yield(R[i], S[i], input, keepEmpty)
    case None => input
  }

  /** There is a tenth pair, and its rule is a new one. */
  predicate TenthMatters(R: seq<Text>, S: seq<Text>)
    requires |R| >= 1 && |S| >= 1
  {
    Min(Usable(R), Usable(S)) >= MAX_TOKENS && R[MAX_TOKENS - 1] !in R[..MAX_TOKENS - 1]
  }

  /** Only then would the ten pairs of the changelog do anything else than the nine of the code. */
  lemma NineAreEnough(e: Engine, R: seq<Text>, S: seq<Text>, input: Text, keepEmpty: bool)
    requires |R| >= 1 && |S| >= 1 && !TenthMatters(R, S)
    ensures RewriteUpTo(e, R, S, input, keepEmpty, MAX_TOKENS) == RewriteChunks(e, R, S, input, keepEmpty)
  {
    if Min(Usable(R), Usable(S)) >= MAX_TOKENS {
      var k :| 0 <= k < MAX_TOKENS - 1 && R[k] == R[MAX_TOKENS - 1];
      FirstHitIsLeast(e, R, input, MAX_TOKENS - 1);
      if FirstHit(e, R, input, MAX_TOKENS - 1).Some? {
        FirstHitStays(e, R, input, MAX_TOKENS - 1, MAX_TOKENS);
      }
    }
  }

  /** And then it would, for some engine and input. */
  lemma TenthIsMissed(R: seq<Text>, S: seq<Text>, keepEmpty: bool) returns (e: Engine, input: Text)
    requires |R| >= 1 && |S| >= 1 && TenthMatters(R, S)
    ensures RewriteUpTo(e, R, S, input, keepEmpty, MAX_TOKENS) != RewriteChunks(e, R, S, input, keepEmpty)
  {
    var tenth := R[MAX_TOKENS - 1];
    e := Engine(p => true, (p, x) => p == tenth, (p, r, x) => Some("y"));
    input := "x";
    FirstHitIsLeast(e, R, input, MAX_TOKENS - 1);
    FirstHitIsLeast(e, R, input, MAX_TOKENS);
    assert forall k | 0 <= k < MAX_TOKENS - 1 :: R[k] in R[..MAX_TOKENS - 1];
    assert FirstHit(e, R, input, MAX_TOKENS - 1).None?;
    assert e.Hits(R[MAX_TOKENS - 1], input);
  }

  lemma {:induction false} FirstHitOfPrefix(e: Engine, R: seq<Text>, R': seq<Text>, input: Text, limit: nat)
    requires limit <= |R| && limit <= |R'| && R[..limit] == R'[..limit]
    ensures FirstHit(e, R, input, limit) == FirstHit(e, R', input, limit)
  {
    if limit > 0 {
      assert R[..limit - 1] == R[..limit][..limit - 1] == R'[..limit - 1];
      assert R[limit - 1] == R[..limit][limit - 1] == R'[limit - 1];
      FirstHitOfPrefix(e, R, R', input, limit - 1);
    }
  }

  // ----- What a call leaves in the argument slots -----

  /** The pair the scalar loop tried last. */
  function LastTried(e: Engine, R: seq<Text>, S: seq<Text>, input: Text): (Text, Text)
    requires |R| >= 1 && |S| >= 1
  {
    var m := FirstHit(e, R, input, PairLimit(R, S)).GetOr(PairLimit(R, S) - 1);
    (R[m], S[m])
  }

  /** The pair the array loop tried last for an element. */
  function LastTriedElement(e: Engine, R: seq<Text>, S: seq<Text>, input: Text): (Text, Text)
    requires |R| >= 1 && |S| >= 1
  {
    if FirstHit(e, R, input, PairLimit(R, S)).None? && Fallback(R, S).Some? then Fallback(R, S).value
    else LastTried(e, R, S, input)
  }

  /** The slots after the array loop: those of the last element that is not NULL. */
  function SlotsAfter(e: Engine, rule: Text, result: Text, inputs: seq<Option<Text>>): (Text, Text) {
    if inputs == [] then (rule, result)
    else
      var v := inputs[|inputs| - 1];
      if v.None? then SlotsAfter(e, rule, result, inputs[..|inputs| - 1])
      else LastTriedElement(e, Chunks(rule), Chunks(result), v.value)
  }

  /** The slots follow the elements one by one: a NULL element changes nothing. */
  lemma SlotsFollow(e: Engine, rule: Text, result: Text, inputs: seq<Option<Text>>, v: Option<Text>)
    ensures SlotsAfter(e, rule, result, []) == (rule, result)
    ensures SlotsAfter(e, rule, result, inputs + [v])
      == if v == None then SlotsAfter(e, rule, result, inputs)
         else LastTriedElement(e, Chunks(rule), Chunks(result), v.value)
  {
    assert (inputs + [v])[..|inputs|] == inputs;
  }

  /** What the scalar loop leaves in the slots still stands for the same rules: all usable rules are
      one, and so are the first and the last usable result. */
  predicate Reusable(rule: Text, result: Text) {
    var R, S := Chunks(rule), Chunks(result);
    var limit := PairLimit(R, S);
    (forall i :: 0 <= i < limit ==> R[i] == R[0]) && S[limit - 1] == S[0]
  }

  lemma ChunkIsWhole(t: Text, k: nat)
    requires k < |Chunks(t)|
    ensures Chunks(Chunks(t)[k]) == [Chunks(t)[k]]
  {
    ChunksWellSplit(t, 0);
    ChunkIsFree(Chunks(t), k);
    LastChunk([], Chunks(t)[k]);
    assert [] + Chunks(t)[k] == Chunks(t)[k];
  }

  /** One chunk as the rule text: only the first result chunk counts, and the versions agree. */
  lemma RewriteSingle(e: Engine, rule: Text, i: nat, result: Text, input: Text, keepEmpty: bool)
    requires i < |Chunks(rule)|
    ensures Rewrite(e, Chunks(rule)[i], result, input, keepEmpty)
      == RewriteElement(e, Chunks(rule)[i], result, input, keepEmpty)
      == e.Yield(Chunks(rule)[i], Chunks(result)[0], input, keepEmpty)
  {
    ChunkIsWhole(rule, i);
    hide Chunks;
    var r := Chunks(rule)[i];
    assert FirstHit(e, [r], input, 0) == None;
    assert FirstHit(e, [r], input, 1) == if e.Hits(r, input) then Some(0) else None;
    assert PairLimit([r], Chunks(result)) == 1;
    assert Fallback([r], Chunks(result)).None?;
  }

  /** Then a second walk over the frame gives the answer of a first one. */
  lemma SecondCallAgrees(e: Engine, rule: Text, result: Text, input1: Text, input2: Text, keepEmpty: bool)
    requires Reusable(rule, result)
    ensures var (r, s) := LastTried(e, Chunks(rule), Chunks(result), input1);
      Rewrite(e, r, s, input2, keepEmpty) == Rewrite(e, rule, result, input2, keepEmpty)
  {
    var R, S := Chunks(rule), Chunks(result);
    var limit := PairLimit(R, S);
    hide Chunks, FirstHit, PairLimit, LastTried, Rewrite;
    OneRule(e, rule, result, input1, keepEmpty);
    OneRule(e, rule, result, input2, keepEmpty);
    ChunkIsWhole(result, 0);
    RewriteSingle(e, rule, 0, S[0], input2, keepEmpty);
  }

  lemma OneRule(e: Engine, rule: Text, result: Text, input: Text, keepEmpty: bool)
    requires Reusable(rule, result)
    ensures var R, S := Chunks(rule), Chunks(result);
      LastTried(e, R, S, input) == (R[0], S[0]) && Rewrite(e, rule, result, input, keepEmpty) == e.Yield(R[0], S[0], input, keepEmpty)
  {
    hide Chunks, FirstHit, PairLimit;
    var R, S := Chunks(rule), Chunks(result);
    FirstHitIsLeast(e, R, input, PairLimit(R, S));
    assert FirstHit(e, R, input, PairLimit(R, S)) == if e.Hits(R[0], input) then Some(0) else None;
  }

  /** And otherwise some engine and two inputs make the second answer wrong. */
  lemma SecondCallDiffers(rule: Text, result: Text, keepEmpty: bool) returns (e: Engine, input1: Text, input2: Text)
    requires !Reusable(rule, result)
    ensures var (r, s) := LastTried(e, Chunks(rule), Chunks(result), input1);
      Rewrite(e, r, s, input2, keepEmpty) != Rewrite(e, rule, result, input2, keepEmpty)
  {
    hide Chunks, FirstHit, Rewrite, LastTried;
    var R, S := Chunks(rule), Chunks(result);
    var limit := PairLimit(R, S);
    input1, input2 := "1", "2";
    if i :| 0 <= i < limit && R[i] != R[0] {
      e := TwoRules(R[0], R[i]);
      var m := TwoRulesTell(rule, result, i, keepEmpty);
      RewriteSingle(e, rule, m, S[m], input2, keepEmpty);
    } else {
      e := TwoResults(S[0]);
      TwoResultsTell(rule, result, keepEmpty);
      ChunkIsWhole(result, limit - 1);
      RewriteSingle(e, rule, limit - 1, S[limit - 1], input2, keepEmpty);
    }
  }

  lemma TwoRulesTell(rule: Text, result: Text, i: nat, keepEmpty: bool) returns (m: nat)
    requires var R, S := Chunks(rule), Chunks(result); i < PairLimit(R, S) && R[i] != R[0]
    ensures var R, S := Chunks(rule), Chunks(result);
      var e := TwoRules(R[0], R[i]);
      && m < PairLimit(R, S) && R[m] != R[0]
      && LastTried(e, R, S, "1") == (R[m], S[m])
      && Rewrite(e, rule, result, "2", keepEmpty) == "y"
  {
    hide Chunks, FirstHit;
    var R, S := Chunks(rule), Chunks(result);
    var e := TwoRules(R[0], R[i]);
    FirstHitIsLeast(e, R, "1", PairLimit(R, S));
    FirstHitIsLeast(e, R, "2", PairLimit(R, S));
    assert e.Hits(R[i], "1") && e.Hits(R[0], "2");
    m := FirstHit(e, R, "1", PairLimit(R, S)).value;
    assert FirstHit(e, R, "2", PairLimit(R, S)) == Some(0);
    assert RewriteChunks(e, R, S, "2", keepEmpty) == "y";
  }

  lemma TwoResultsTell(rule: Text, result: Text, keepEmpty: bool)
    ensures var R, S := Chunks(rule), Chunks(result);
      var (e, last) := (TwoResults(S[0]), PairLimit(R, S) - 1);
      LastTried(e, R, S, "1") == (R[last], S[last]) && Rewrite(e, rule, result, "2", keepEmpty) == "y"
  {
    hide Chunks, FirstHit;
    var R, S := Chunks(rule), Chunks(result);
    var e, limit := TwoResults(S[0]), PairLimit(R, S);
    FirstHitIsLeast(e, R, "1", limit);
    FirstHitIsLeast(e, R, "2", limit);
    assert FirstHit(e, R, "1", limit).None?;
    assert e.Hits(R[0], "2");
    assert FirstHit(e, R, "2", limit) == Some(0);
    assert e.Yield(R[0], S[0], "2", keepEmpty) == "y";
    assert RewriteChunks(e, R, S, "2", keepEmpty) == "y";
  }

  /** An engine that finds rule b in "1" and rule a elsewhere. */
  function TwoRules(a: Text, b: Text): Engine {
    Engine(p => true, (p, x) => p == if x == "1" then b else a, (p, r, x) => Some("y"))
  }

  /** An engine that finds every rule in "2", and tells the result text s from others. */
  function TwoResults(s: Text): Engine {
    Engine(p => true, (p, x) => x == "2", (p, r, x) => Some(if r == s then "y" else "z"))
  }

  // ----- The loops -----

  /** Pair n exists and is one of those that may be tried. */
  predicate Live(R: seq<Text>, S: seq<Text>, n: nat) {
    && n < |R| && n < |S| && n < MAX_TOKENS - 1
    && (n > 0 ==> !(n == |R| - 1 && R[n] == []) && !(n == |S| - 1 && S[n] == []))
  }

  lemma {:induction false} FirstHitStays(e: Engine, R: seq<Text>, input: Text, n: nat, limit: nat)
    requires n <= limit <= |R| && FirstHit(e, R, input, n).Some?
    ensures FirstHit(e, R, input, limit) == FirstHit(e, R, input, n)
  {
    if n < limit {
      FirstHitStays(e, R, input, n, limit - 1);
    }
  }

  /** What attempting pair n decides, after all earlier pairs missed. */
  lemma Attempt(e: Engine, R: seq<Text>, S: seq<Text>, input: Text, keepEmpty: bool, n: nat)
    requires Live(R, S, n) && FirstHit(e, R, input, n).None?
    ensures e.Hits(R[n], input) || !Live(R, S, n + 1) ==>
      && RewriteChunks(e, R, S, input, keepEmpty) == e.Yield(R[n], S[n], input, keepEmpty)
      && LastTried(e, R, S, input) == (R[n], S[n])
    ensures !e.Hits(R[n], input) ==> FirstHit(e, R, input, n + 1).None?
  {
    var limit := PairLimit(R, S);
    if e.Hits(R[n], input) {
      FirstHitStays(e, R, input, n + 1, limit);
    } else if !Live(R, S, n + 1) {
      assert limit == n + 1;
    }
  }

  /** The same for the array loop, where a hit or a natural end decides. */
  lemma AttemptElement(e: Engine, R: seq<Text>, S: seq<Text>, input: Text, keepEmpty: bool, n: nat)
    requires Live(R, S, n) && FirstHit(e, R, input, n).None?
    ensures e.Hits(R[n], input) || |R| == n + 1 || |S| == n + 1 ==>
      && RewriteElementChunks(e, R, S, input, keepEmpty) == e.Yield(R[n], S[n], input, keepEmpty)
      && LastTriedElement(e, R, S, input) == (R[n], S[n])
    ensures !e.Hits(R[n], input) ==> FirstHit(e, R, input, n + 1).None?
  {
    if e.Hits(R[n], input) {
      FirstHitStays(e, R, input, n + 1, PairLimit(R, S));
    } else if !Live(R, S, n + 1) {
      assert PairLimit(R, S) == n + 1;
    }
  }

  /** An early break after pair n leaves the fallback pair to decide. */
  lemma BreakLeavesFallback(e: Engine, R: seq<Text>, S: seq<Text>, input: Text, keepEmpty: bool, n: nat)
    requires Live(R, S, n) && FirstHit(e, R, input, n).None? && !e.Hits(R[n], input)
    requires n + 1 < |R| && n + 1 < |S| && !Live(R, S, n + 1)
    ensures Fallback(R, S) == Some(
      if n + 1 == MAX_TOKENS - 1 then (Join(R[n..]), S[n])
      else if n + 2 == |R| && R[n + 1] == [] then ([], S[n])
      else (Join(R[n + 1..]), []))
    ensures RewriteElementChunks(e, R, S, input, keepEmpty)
      == e.Yield(Fallback(R, S).value.0, Fallback(R, S).value.1, input, keepEmpty)
    ensures LastTriedElement(e, R, S, input) == Fallback(R, S).value
  {
    assert PairLimit(R, S) == n + 1;
  }

  /** The texts the tail code attempts. On the first pair (n == 0) a slot that needs no cutting is
      used as it stands. */
  function TailRule(slot: Text, rule: Text, rulePtr: nat, n: nat): Text
    requires rulePtr <= |rule|
  {
    if n != 0 then rule[rulePtr..] else slot
  }

  function TailResult(slot: Text, result: Text, resultPtr: nat, n: nat): Text
    requires resultPtr <= |result|
  {
    match IndexOfPair(result, '|', '|', resultPtr)
    case Some(i) => result[resultPtr..i]
    case None => if n != 0 then result[resultPtr..] else slot
  }

  /** Where the array loop leaves its pointers when it breaks off after pair m missed. */
  ghost function BreakPointers(rule: Text, result: Text, m: nat): (r: (nat, nat))
    requires m + 1 < |Chunks(rule)| && m + 1 < |Chunks(result)|
    ensures r.0 <= |rule| && r.1 <= |result|
  {
    if m + 1 >= MAX_TOKENS - 1 then (ChunkStart(rule, m), ChunkStart(result, m))
    else if ChunkStart(rule, m + 1) >= |rule| then (ChunkStart(rule, m + 1), ChunkStart(result, m))
    else (ChunkStart(rule, m + 1), ChunkStart(result, m + 1))
  }

  /** The three tests both loops make after pair n missed: pair limit, end of rules, end of results. */
  method Advance(rule: Text, rulePtr: nat, ruleToken: nat, result: Text, resultPtr: nat, resultToken: nat, n: nat)
    returns (more: bool, nextRule: nat, nextResult: nat)
    requires Live(Chunks(rule), Chunks(result), n)
    requires rulePtr == ChunkStart(rule, n) && resultPtr == ChunkStart(result, n)
    requires IndexOfPair(rule, '|', '|', rulePtr) == Some(ruleToken)
    requires IndexOfPair(result, '|', '|', resultPtr) == Some(resultToken)
    ensures n + 1 < |Chunks(rule)| && n + 1 < |Chunks(result)|
    ensures more == Live(Chunks(rule), Chunks(result), n + 1)
    ensures (nextRule, nextResult) == BreakPointers(rule, result, n)
    ensures more ==> nextRule == ChunkStart(rule, n + 1) && nextResult == ChunkStart(result, n + 1)
  {
    hide Chunks, ChunkStart, IndexOfPair;
    AtChunk(rule, n);
    AtChunk(result, n);
    nextRule, nextResult, more := rulePtr, resultPtr, false;
    if n + 1 >= MAX_TOKENS - 1 { return; }
    nextRule := ruleToken + 2;
    if nextRule >= |rule| { return; }
    nextResult := resultToken + 2;
    more := nextResult < |result|;
  }

  /** What the tail code makes of the pair at the pointers. */
  function TailYield(e: Engine, slots: (Text, Text), rule: Text, rulePtr: nat, result: Text, resultPtr: nat,
                     n: nat, input: Text, keepEmpty: bool): Text
    requires rulePtr <= |rule| && resultPtr <= |result|
  {
    e.Yield(TailRule(slots.0, rule, rulePtr, n), TailResult(slots.1, result, resultPtr, n), input, keepEmpty)
  }

  /** From there the tail code cuts the fallback pair, whatever the slots hold. */
  lemma LateTexts(slot: Text, rule: Text, result: Text, m: nat)
    requires m + 1 < |Chunks(rule)| && m + 1 < |Chunks(result)|
    requires Live(Chunks(rule), Chunks(result), m) && !Live(Chunks(rule), Chunks(result), m + 1)
    ensures var R, S, (p, q) := Chunks(rule), Chunks(result), BreakPointers(rule, result, m);
      (TailRule(slot, rule, p, m + 1), TailResult(slot, result, q, m + 1))
        == (if m + 1 == MAX_TOKENS - 1 then (Join(R[m..]), S[m])
            else if m + 2 == |R| && R[m + 1] == [] then ([], S[m])
            else (Join(R[m + 1..]), []))
  {
    AtChunk(rule, m);
    AtChunk(result, m);
    JoinFrom(rule, m);
    JoinFrom(rule, m + 1);
  }

  lemma LatePair(e: Engine, slots: (Text, Text), rule: Text, rulePtr: nat, result: Text, resultPtr: nat,
                 m: nat, input: Text, keepEmpty: bool)
    requires m + 1 < |Chunks(rule)| && m + 1 < |Chunks(result)|
    requires Live(Chunks(rule), Chunks(result), m) && !Live(Chunks(rule), Chunks(result), m + 1)
    requires FirstHit(e, Chunks(rule), input, m).None? && !e.Hits(Chunks(rule)[m], input)
    requires BreakPointers(rule, result, m) == (rulePtr, resultPtr)
    ensures TailYield(e, slots, rule, rulePtr, result, resultPtr, m + 1, input, keepEmpty)
      == RewriteElement(e, rule, result, input, keepEmpty)
    ensures (TailRule(slots.0, rule, rulePtr, m + 1), TailResult(slots.1, result, resultPtr, m + 1))
      == LastTriedElement(e, Chunks(rule), Chunks(result), input)
  {
    LateTexts(slots.0, rule, result, m);
    LateTexts(slots.1, rule, result, m);
    BreakLeavesFallback(e, Chunks(rule), Chunks(result), input, keepEmpty, m);
  }

  /** With no rule token left it attempts pair n, provided a slot that needs no cutting is current. */
  lemma LastRule(e: Engine, slots: (Text, Text), rule: Text, rulePtr: nat, result: Text, resultPtr: nat,
                 n: nat, input: Text, keepEmpty: bool)
    requires Live(Chunks(rule), Chunks(result), n) && FirstHit(e, Chunks(rule), input, n).None?
    requires rulePtr == ChunkStart(rule, n) && resultPtr == ChunkStart(result, n)
    requires IndexOfPair(rule, '|', '|', rulePtr).None?
    requires n == 0 ==> slots.0 == rule
    requires n == 0 && |Chunks(result)| == 1 ==> slots.1 == result
    ensures TailYield(e, slots, rule, rulePtr, result, resultPtr, n, input, keepEmpty)
      == RewriteElement(e, rule, result, input, keepEmpty) == Rewrite(e, rule, result, input, keepEmpty)
    ensures (TailRule(slots.0, rule, rulePtr, n), TailResult(slots.1, result, resultPtr, n))
      == LastTried(e, Chunks(rule), Chunks(result), input) == LastTriedElement(e, Chunks(rule), Chunks(result), input)
  {
    AtChunk(rule, n);
    AtChunk(result, n);
    Attempt(e, Chunks(rule), Chunks(result), input, keepEmpty, n);
    AttemptElement(e, Chunks(rule), Chunks(result), input, keepEmpty, n);
  }

  /** How an iteration of the loops goes on after its attempt. */
  datatype Step = NoRuleToken | Decided(ret: Option<Text>) | Missed(ruleToken: nat, resultToken: nat)

  /** The call frame: argument slots that the loops overwrite with chunks. */
  class CallFrame {
    var argIn: Text
    var argRule: Text
    var argResult: Text

    constructor (input: Text, rule: Text, result: Text)
      ensures argIn == input && argRule == rule && argResult == result
    {
      argIn, argRule, argResult := input, rule, result;
    }

    /** `apply_textregexreplace_noopt`: one attempt with the pair in the slots. None stands for a
        zero Datum. `final` asks for a copy of the input instead, except for a rule that does not
        compile. */
    method Apply(e: Engine, final: bool, keepEmpty: bool) returns (matched: bool, ret: Option<Text>)
      ensures matched == (e.compiles(argRule) && e.matches(argRule, argIn))
      ensures !matched ==> ret.GetOr(argIn) == argIn
      ensures matched ==>
        match e.substitute(argRule, argResult, argIn)
        case Some(y) => ret.GetOr(argIn) == if y != [] || keepEmpty then y else argIn
        case None => ret.GetOr(argIn) == argIn
      ensures ret.GetOr(argIn) == e.Yield(argRule, argResult, argIn, keepEmpty)
    {
      matched, ret := false, None;
      if !e.compiles(argRule) { return; }
      if !e.matches(argRule, argIn) {
        if final { ret := Some(argIn); }
        return;
      }
      matched := true;
      ret := e.substitute(argRule, argResult, argIn);
      if ret.Some? && !keepEmpty && ret.value == [] {
        ret := if final then Some(argIn) else None;
      } else if ret.None? && final {
        ret := Some(argIn);
      }
    }

    /** The tail code after the loops: the pair at the pointers, with all the rest of the rule text. */
    method Tail(e: Engine, rule: Text, rulePtr: nat, result: Text, resultPtr: nat, n: nat,
                final: bool, keepEmpty: bool) returns (ret: Option<Text>)
      requires rulePtr <= |rule| && resultPtr <= |result|
      modifies this`argRule, this`argResult
      ensures argRule == TailRule(old(argRule), rule, rulePtr, n)
      ensures argResult == TailResult(old(argResult), result, resultPtr, n)
      ensures ret.GetOr(argIn)
        == TailYield(e, (old(argRule), old(argResult)), rule, rulePtr, result, resultPtr, n, argIn, keepEmpty)
    {
      var resultToken := SearchSplitToken(result, resultPtr);
      if resultToken.Some? { argResult := result[resultPtr..resultToken.value]; }
      if n != 0 {
        argRule := rule[rulePtr..];
        if resultToken.None? { argResult := result[resultPtr..]; }
      }
      var matched;
      matched, ret := Apply(e, final, keepEmpty);
    }

    /** The part both loops begin an iteration with: cut the chunks at the pointers into the slots and
        attempt them. `final` is passed on only when the result text has no further token. */
    method AttemptPair(e: Engine, rule: Text, rulePtr: nat, result: Text, resultPtr: nat, n: nat,
                       final: bool, keepEmpty: bool) returns (step: Step)
      requires rulePtr <= |rule| && resultPtr <= |result|
      modifies this`argRule, this`argResult
      ensures var ruleToken, resultToken := IndexOfPair(rule, '|', '|', rulePtr), IndexOfPair(result, '|', '|', resultPtr);
        match ruleToken
        case None => step == NoRuleToken && argRule == old(argRule) && argResult == old(argResult)
        case Some(i) =>
          && argRule == rule[rulePtr..i]
          && argResult == TailResult(old(argResult), result, resultPtr, n)
          && (if resultToken.Some? && !e.Hits(argRule, argIn) then step == Missed(i, resultToken.value)
              else step.Decided? && step.ret.GetOr(argIn) == e.Yield(argRule, argResult, argIn, keepEmpty))
    {
      var ruleToken := SearchSplitToken(rule, rulePtr);
      if ruleToken.None? { return NoRuleToken; }
      argRule := rule[rulePtr..ruleToken.value];
      var resultToken := SearchSplitToken(result, resultPtr);
      var matched, ret;
      if resultToken.None? {
        if n > 0 { argResult := result[resultPtr..]; }
        matched, ret := Apply(e, final, keepEmpty);
        return Decided(ret);
      }
      argResult := result[resultPtr..resultToken.value];
      matched, ret := Apply(e, false, keepEmpty);
      return if matched then Decided(ret) else Missed(ruleToken.value, resultToken.value);
    }

    /** The rule/result walk of `regexp_replace_rand_noopt`; None stands for a copy of the input. */
    method RewriteScalar(e: Engine, keepEmpty: bool) returns (ret: Option<Text>)
      modifies this`argRule, this`argResult
      ensures ret.GetOr(argIn) == Rewrite(e, old(argRule), old(argResult), argIn, keepEmpty)
      ensures (argRule, argResult) == LastTried(e, Chunks(old(argRule)), Chunks(old(argResult)), argIn)
    {
      hide Chunks, IndexOfPair;
      var rule, result := argRule, argResult;
      var rulePtr: nat, resultPtr: nat, n: nat := 0, 0, 0;
      ghost var R, S := Chunks(rule), Chunks(result);
      while true
        invariant Live(R, S, n) && FirstHit(e, R, argIn, n).None?
        invariant rulePtr == ChunkStart(rule, n) && resultPtr == ChunkStart(result, n)
        invariant n == 0 ==> argRule == rule && argResult == result
        decreases |rule| - rulePtr
      {
        AtChunk(rule, n);
        AtChunk(result, n);
        Attempt(e, R, S, argIn, keepEmpty, n);
        var step := AttemptPair(e, rule, rulePtr, result, resultPtr, n, true, keepEmpty);
        match step
        case NoRuleToken =>
          LastRule(e, (argRule, argResult), rule, rulePtr, result, resultPtr, n, argIn, keepEmpty);
          break;
        case Decided(r) => return r;
        case Missed(ruleToken, resultToken) =>
          var more;
          more, rulePtr, resultPtr := Advance(rule, rulePtr, ruleToken, result, resultPtr, resultToken, n);
          if !more { return None; }
          n := n + 1;
      }
      ret := Tail(e, rule, rulePtr, result, resultPtr, n, true, keepEmpty);
    }

    /** A slot that no iteration overwrites still holds the whole text. */
    ghost predicate SlotsCurrent(rule: Text, result: Text)
      reads this
    {
      && (|Chunks(rule)| == 1 ==> argRule == rule)
      && (|Chunks(result)| == 1 ==> argResult == result)
    }

    /** One pass of the array loop, for the element in argIn; None stands for the element itself.
        The slots may hold chunks left by an earlier element; SlotsCurrent is what keeps those from
        being used. */
    method RewriteOne(e: Engine, rule: Text, result: Text, keepEmpty: bool) returns (ret: Option<Text>)
      requires SlotsCurrent(rule, result)
      modifies this`argRule, this`argResult
      ensures SlotsCurrent(rule, result)
      ensures ret.GetOr(argIn) == RewriteElement(e, rule, result, argIn, keepEmpty)
      ensures (argRule, argResult) == LastTriedElement(e, Chunks(rule), Chunks(result), argIn)
    {
      hide Chunks, IndexOfPair;
      var rulePtr: nat, resultPtr: nat, n: nat := 0, 0, 0;
      ghost var R, S := Chunks(rule), Chunks(result);
      while true
        invariant SlotsCurrent(rule, result)
        invariant Live(R, S, n) && FirstHit(e, R, argIn, n).None?
        invariant rulePtr == ChunkStart(rule, n) && resultPtr == ChunkStart(result, n)
        decreases |rule| - rulePtr
      {
        AttemptElement(e, R, S, argIn, keepEmpty, n);
        AtChunk(rule, n);
        AtChunk(result, n);
        var step := AttemptPair(e, rule, rulePtr, result, resultPtr, n, false, keepEmpty);
        match step
        case NoRuleToken =>
          LastRule(e, (argRule, argResult), rule, rulePtr, result, resultPtr, n, argIn, keepEmpty);
          break;
        case Decided(r) => return r;
        case Missed(ruleToken, resultToken) =>
          var more;
          more, rulePtr, resultPtr := Advance(rule, rulePtr, ruleToken, result, resultPtr, resultToken, n);
          n := n + 1;
          if !more {
            LatePair(e, (argRule, argResult), rule, rulePtr, result, resultPtr, n - 1, argIn, keepEmpty);
            break;
          }
      }
      ret := Tail(e, rule, rulePtr, result, resultPtr, n, false, keepEmpty);
    }

    /** The loop of `regexp_replace_rand_array_noopt`; NULL elements are kept. */
    method RewriteArray(e: Engine, inputs: seq<Option<Text>>, keepEmpty: bool)
      returns (out: seq<Option<Text>>)
      modifies this
      ensures argIn == old(argIn)
      ensures (argRule, argResult) == SlotsAfter(e, old(argRule), old(argResult), inputs)
      ensures |out| == |inputs|
      ensures forall i :: 0 <= i < |inputs| ==> (out[i] == None <==> inputs[i] == None)
      ensures forall i :: 0 <= i < |inputs| && inputs[i].Some? ==>
        out[i] == Some(RewriteElement(e, old(argRule), old(argResult), inputs[i].value, keepEmpty))
      ensures forall i :: 0 <= i < |inputs| ==>
        out[i] == RewriteNullable(e, old(argRule), old(argResult), inputs[i], keepEmpty)
    {
      var origIn, rule, result := argIn, argRule, argResult;
      out := [];
      for i := 0 to |inputs|
        invariant SlotsCurrent(rule, result)
        invariant (argRule, argResult) == SlotsAfter(e, rule, result, inputs[..i])
        invariant |out| == i
        invariant forall k :: 0 <= k < i ==> out[k] == RewriteNullable(e, rule, result, inputs[k], keepEmpty)
      {
        assert inputs[..i + 1][..i] == inputs[..i];
        if inputs[i].None? {
          out := out + [None];
        } else {
          argIn := inputs[i].value;
          var ret := RewriteOne(e, rule, result, keepEmpty);
          out := out + [Some(ret.GetOr(argIn))];
        }
      }
      argIn := origIn;
      assert inputs[..|inputs|] == inputs;
    }
  }
}
