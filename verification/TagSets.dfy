/** Tag arrays: `tag_compare` and `tag_action`. A NULL element is None; NULL in the first array of
    `tag_compare` means "any tag". Both functions work on arrays of distinct values. */
module TagSets {
  import opened Collections
  import opened Texts

  type Tags = seq<Option<int>>

  // ----- Reference definitions -----

  function Values(a: Tags): set<int> { set x | x in a && x.Some? :: x.value }

  predicate HasNull(a: Tags) { None in a }

  /** The values of a in order of first occurrence. */
  function Distinct(a: Tags): seq<int> {
    if a == [] then []
    else
      var d, x := Distinct(a[..|a| - 1]), a[|a| - 1];
      if x.None? || x.value in d then d else d + [x.value]
  }

  /** The elements of xs that are (inside), or are not, among ys. */
  function Select(xs: seq<int>, ys: seq<int>, inside: bool): seq<int> {
    if xs == [] then []
    else
      var x := xs[|xs| - 1];
      Select(xs[..|xs| - 1], ys, inside) + if (x in ys) == inside then [x] else []
  }

  function Removed(a: Tags, b: Tags): seq<int> { Select(Distinct(a), Distinct(b), false) }
  function Appended(a: Tags, b: Tags): seq<int> { Distinct(a + b) }
  function Intersected(a: Tags, b: Tags): seq<int> { Select(Distinct(b), Distinct(a), true) }

  datatype MatchMode = BInA | Mutual | Intersection

  const NOT_MATCHED := 0
  const MATCHED_WITH_NULL := 1
  const MATCHED_WITHOUT_NULL := 2
  const MATCHED_EXACTLY := 3

  /** How two arrays compare depends only on their values, on NULL in a, and on being empty. */
  function Compare(a: Tags, b: Tags, mode: MatchMode): int {
    if a == [] || b == [] then if a == b then MATCHED_EXACTLY else NOT_MATCHED
    else CompareSets(Values(a), HasNull(a), Values(b), mode)
  }

  function CompareSets(A: set<int>, anyTag: bool, B: set<int>, mode: MatchMode): int {
    match mode
    case BInA =>
      if A == B then MATCHED_EXACTLY
      else if B < A then MATCHED_WITHOUT_NULL
      else if anyTag then MATCHED_WITH_NULL
      else NOT_MATCHED
    case Mutual =>
      if A == B then MATCHED_EXACTLY
      else if anyTag && A < B then MATCHED_WITH_NULL
      else NOT_MATCHED
    case Intersection =>
      if A * B != {} || A == B == {} then MATCHED_EXACTLY
      else if B == {} then MATCHED_WITHOUT_NULL
      else if anyTag then MATCHED_WITH_NULL
      else NOT_MATCHED
  }

  // ----- Facts about distinct values -----

  lemma {:induction false} DistinctIsSet(a: Tags)
    ensures NoDuplicates(Distinct(a)) && Elements(Distinct(a)) == Values(a)
  {
    if a != [] {
      var n := |a| - 1;
      DistinctIsSet(a[..n]);
      assert a == a[..n] + [a[n]];
      assert Values(a) == Values(a[..n]) + if a[n].Some? then {a[n].value} else {};
      assert a[n].Some? && a[n].value !in Distinct(a[..n]) ==>
        Elements(Distinct(a)) == Elements(Distinct(a[..n])) + {a[n].value};
    }
  }

  lemma {:induction false} SelectIsSet(xs: seq<int>, ys: seq<int>, inside: bool)
    requires NoDuplicates(xs)
    ensures NoDuplicates(Select(xs, ys, inside))
    ensures forall x :: x in Select(xs, ys, inside) <==> x in xs && (x in ys) == inside
    decreases |xs|
  {
    if xs != [] {
      var n := |xs| - 1;
      SelectIsSet(xs[..n], ys, inside);
      assert xs == xs[..n] + [xs[n]];
    }
  }

  // ----- Laws -----

  /** All three results are free of duplicates and hold the set difference, union, intersection. */
  lemma ActionsAreSetOperations(a: Tags, b: Tags)
    ensures NoDuplicates(Removed(a, b)) && Elements(Removed(a, b)) == Values(a) - Values(b)
    ensures NoDuplicates(Appended(a, b)) && Elements(Appended(a, b)) == Values(a) + Values(b)
    ensures NoDuplicates(Intersected(a, b)) && Elements(Intersected(a, b)) == Values(a) * Values(b)
  {
    DistinctIsSet(a);
    DistinctIsSet(b);
    DistinctIsSet(a + b);
    SelectIsSet(Distinct(a), Distinct(b), false);
    SelectIsSet(Distinct(b), Distinct(a), true);
    forall x ensures x in Distinct(a) <==> x in Values(a) { assert x in Elements(Distinct(a)) <==> x in Distinct(a); }
    forall x ensures x in Distinct(b) <==> x in Values(b) { assert x in Elements(Distinct(b)) <==> x in Distinct(b); }
    assert Values(a + b) == Values(a) + Values(b);
  }

  /** Removing and intersecting split the first array. */
  lemma RemovedAndIntersectedCount(a: Tags, b: Tags)
    ensures |Removed(a, b)| + |Intersected(a, b)| == |Distinct(a)|
  {
    ActionsAreSetOperations(a, b);
    DistinctIsSet(a);
    SizeOfDistinct(Removed(a, b));
    SizeOfDistinct(Intersected(a, b));
    SizeOfDistinct(Distinct(a));
    var A, B := Values(a), Values(b);
    assert A == (A - B) + A * B;
    assert |A| == |A - B| + |A * B|;
  }

  lemma {:induction false} DistinctOfConcat(a: Tags, b: Tags)
    ensures Select(Distinct(a + b), Distinct(b), false) == Select(Distinct(a), Distinct(b), false)
  {
    DistinctOfConcatPart(a, b, |b|);
    assert b[..|b|] == b;
  }

  lemma {:induction false} DistinctOfConcatPart(a: Tags, b: Tags, n: nat)
    requires n <= |b|
    ensures Select(Distinct(a + b[..n]), Distinct(b), false) == Select(Distinct(a), Distinct(b), false)
    decreases n
  {
    hide Distinct, Select;
    if n == 0 {
      assert a + b[..0] == a;
    } else {
      DistinctOfConcatPart(a, b, n - 1);
      var before, x := a + b[..n - 1], b[n - 1];
      assert a + b[..n] == before + [x];
      DistinctAppend(before, x);
      if x.Some? {
        HoldsItsValues(b, x.value);
        SelectSkips(Distinct(before), x.value, Distinct(b));
      }
    }
  }

  lemma DistinctAppend(a: Tags, x: Option<int>)
    ensures Distinct(a + [x]) ==
      if x.None? || x.value in Distinct(a) then Distinct(a) else Distinct(a) + [x.value]
  {
    assert (a + [x])[..|a|] == a;
  }

  lemma HoldsItsValues(b: Tags, x: int)
    ensures x in Distinct(b) <==> Some(x) in b
  {
    DistinctIsSet(b);
    assert x in Elements(Distinct(b)) <==> x in Values(b);
  }

  lemma SelectSkips(xs: seq<int>, x: int, ys: seq<int>)
    requires x in ys
    ensures Select(xs + [x], ys, false) == Select(xs, ys, false)
  {
    assert (xs + [x])[..|xs|] == xs;
  }

  /** Removing b undoes appending b, element for element and in order. */
  lemma RemoveUndoesAppend(a: Tags, b: Tags)
    ensures Removed(Lifted(Appended(a, b)), b) == Removed(a, b)
  {
    DistinctIsSet(a + b);
    DistinctOfLifted(Appended(a, b));
    DistinctOfConcat(a, b);
  }

  function Lifted(xs: seq<int>): Tags { seq(|xs|, i requires 0 <= i < |xs| => Some(xs[i])) }

  lemma {:induction false} DistinctOfLifted(xs: seq<int>)
    requires NoDuplicates(xs)
    ensures Distinct(Lifted(xs)) == xs
  {
    if xs != [] {
      var n := |xs| - 1;
      DistinctOfLifted(xs[..n]);
      assert Lifted(xs)[..n] == Lifted(xs[..n]);
      assert xs == xs[..n] + [xs[n]];
    }
  }

  /** The two SQL functions agree about containment and overlap on arrays without NULL. */
  lemma CompareMeetsAction(a: Tags, b: Tags)
    requires a != [] && b != [] && !HasNull(a) && !HasNull(b)
    ensures Compare(a, b, BInA) != NOT_MATCHED <==> Removed(b, a) == []
    ensures Compare(a, b, Intersection) == MATCHED_EXACTLY <==> Intersected(a, b) != []
  {
    ActionsAreSetOperations(a, b);
    ActionsAreSetOperations(b, a);
    assert a[0] in a && b[0] in b && a[0].value in Values(a) && b[0].value in Values(b);
    EmptyIffNoElements(Removed(b, a));
    EmptyIffNoElements(Intersected(a, b));
    hide Values, Removed, Intersected, CompareSets;
    CompareSetsOfValues(Values(a), Values(b));
  }

  lemma CompareSetsOfValues(A: set<int>, B: set<int>)
    requires A != {} && B != {}
    ensures CompareSets(A, false, B, BInA) != NOT_MATCHED <==> B - A == {}
    ensures CompareSets(A, false, B, Intersection) == MATCHED_EXACTLY <==> A * B != {}
  {
    if B - A == {} {
      forall x | x in B ensures x in A { assert x in A || x in B - A; }
    }
  }

  lemma EmptyIffNoElements(xs: seq<int>)
    ensures xs == [] <==> Elements(xs) == {}
  {
    assert xs != [] ==> xs[0] in Elements(xs);
  }

  // ----- Order -----

  /** x stands in a before any y does. */
  ghost predicate Earlier(a: Tags, x: int, y: int) {
    exists p :: 0 <= p < |a| && a[p] == Some(x) && forall q :: 0 <= q <= p ==> a[q] != Some(y)
  }

  /** xs lists its values in the order in which they first stand in a. */
  ghost predicate InOrder(xs: seq<int>, a: Tags) {
    forall i, j :: 0 <= i < j < |xs| ==> Earlier(a, xs[i], xs[j])
  }

  lemma EarlierGrows(a: Tags, t: Option<int>, x: int, y: int)
    requires Earlier(a, x, y) || (Some(x) in a && Some(y) !in a)
    ensures Earlier(a + [t], x, y)
  {
    var p :| 0 <= p < |a| && a[p] == Some(x) && forall q :: 0 <= q <= p ==> a[q] != Some(y);
    assert (a + [t])[p] == Some(x) && forall q :: 0 <= q <= p ==> (a + [t])[q] == a[q];
  }

  lemma {:induction false} DistinctInOrder(a: Tags)
    ensures InOrder(Distinct(a), a)
  {
    if a != [] {
      var n := |a| - 1;
      var init, t := a[..n], a[n];
      DistinctInOrder(init);
      assert a == init + [t];
      var d := Distinct(a);
      assert d == Distinct(init) || (t.Some? && t.value !in Distinct(init) && d == Distinct(init) + [t.value]);
      forall i, j | 0 <= i < j < |d| ensures Earlier(a, d[i], d[j]) {
        HoldsItsValues(init, d[i]);
        HoldsItsValues(init, d[j]);
        EarlierGrows(init, t, d[i], d[j]);
      }
    }
  }

  lemma {:induction false} SelectInOrder(xs: seq<int>, ys: seq<int>, inside: bool, a: Tags)
    requires InOrder(xs, a)
    ensures InOrder(Select(xs, ys, inside), a)
    decreases |xs|
  {
    if xs != [] {
      var n := |xs| - 1;
      var part := Select(xs[..n], ys, inside);
      SelectInOrder(xs[..n], ys, inside, a);
      SelectFrom(xs[..n], ys, inside);
      forall i | 0 <= i < |part| ensures Earlier(a, part[i], xs[n]) {
        assert part[i] in part;
        var j :| 0 <= j < n && xs[..n][j] == part[i];
        assert xs[j] == part[i];
      }
    }
  }

  lemma {:induction false} SelectFrom(xs: seq<int>, ys: seq<int>, inside: bool)
    ensures forall x <- Select(xs, ys, inside) :: x in xs
    decreases |xs|
  {
    if xs != [] { SelectFrom(xs[..|xs| - 1], ys, inside); }
  }

  /** The result tags of an operation: each value of X once, nothing else, in the order of source. */
  ghost predicate Lists(tags: Tags, X: set<int>, source: Tags) {
    && (forall t <- tags :: t.Some?)
    && (forall x :: Some(x) in tags <==> x in X)
    && (forall i, j :: 0 <= i < j < |tags| ==> tags[i] != tags[j])
    && (forall i, j :: 0 <= i < j < |tags| && tags[i].Some? && tags[j].Some? ==> Earlier(source, tags[i].value, tags[j].value))
  }

  lemma LiftedLists(xs: seq<int>, X: set<int>, source: Tags)
    requires NoDuplicates(xs) && Elements(xs) == X && InOrder(xs, source)
    ensures Lists(Lifted(xs), X, source)
  {
    forall x ensures Some(x) in Lifted(xs) <==> x in X {
      assert x in xs <==> x in Elements(xs);
      if x in xs {
        var i :| 0 <= i < |xs| && xs[i] == x;
        assert Lifted(xs)[i] == Some(x);
      }
    }
  }

  // ----- The implementation -----

  /** `set_contains_value`: searches s[0..endPos], from the end. */
  method SetContainsValue(s: array<int>, endPos: int, value: int) returns (found: bool)
    requires -1 <= endPos < s.Length
    ensures found <==> value in s[..endPos + 1]
  {
    var i := endPos;
    while i >= 0
      invariant -1 <= i <= endPos
      invariant forall k :: i < k <= endPos ==> s[k] != value
    {
      if s[i] == value {
        assert s[..endPos + 1][i] == value;
        return true;
      }
      i := i - 1;
    }
    return false;
  }

  /** Appends the values of a that s does not hold yet, as every filling loop does. `before` is what
      the loop has gone through already. */
  method AddValues(a: Tags, s: array<int>, pos: int, ghost before: Tags) returns (pos': int, hasNull: bool)
    requires -1 <= pos && pos + 1 + |a| <= s.Length && s[..pos + 1] == Distinct(before)
    modifies s
    ensures -1 <= pos' < s.Length && s[..pos' + 1] == Distinct(before + a)
    ensures hasNull <==> HasNull(a)
  {
    hide Distinct;
    pos', hasNull := pos, false;
    assert before + a[..0] == before;
    for i := 0 to |a|
      invariant -1 <= pos' <= pos + i && s[..pos' + 1] == Distinct(before + a[..i])
      invariant hasNull <==> HasNull(a[..i])
    {
      DistinctAppend(before + a[..i], a[i]);
      assert before + a[..i + 1] == before + a[..i] + [a[i]];
      assert a[..i + 1] == a[..i] + [a[i]];
      if a[i].None? {
        hasNull := true;
        continue;
      }
      var found := SetContainsValue(s, pos', a[i].value);
      if found { continue; }
      ghost var filled := s[..pos' + 1];
      pos' := pos' + 1;
      s[pos'] := a[i].value;
      assert s[..pos' + 1] == filled + [a[i].value];
    }
    assert a[..|a|] == a;
  }

  /** The loop of OP_REMOVE: the first n of xs that are not in ys[0..ysEnd]. */
  method RemoveValues(xs: array<int>, n: nat, ys: array<int>, ysEnd: int, rs: array<int>) returns (pos: int)
    requires n <= xs.Length && -1 <= ysEnd < ys.Length && rs.Length >= n && rs != xs && rs != ys
    modifies rs
    ensures -1 <= pos < rs.Length && rs[..pos + 1] == Select(xs[..n], ys[..ysEnd + 1], false)
  {
    pos := -1;
    for i := 0 to n
      invariant -1 <= pos < i && rs[..pos + 1] == Select(xs[..i], ys[..ysEnd + 1], false)
    {
      assert xs[..i + 1][..i] == xs[..i];
      var found := SetContainsValue(ys, ysEnd, xs[i]);
      if found { continue; }
      ghost var filled := rs[..pos + 1];
      pos := pos + 1;
      rs[pos] := xs[i];
      assert rs[..pos + 1] == filled + [xs[i]];
    }
  }

  lemma SelectAppend(xs: seq<int>, x: int, ys: seq<int>)
    ensures Select(xs + [x], ys, true) == Select(xs, ys, true) + if x in ys then [x] else []
  {
    assert (xs + [x])[..|xs|] == xs;
  }

  /** The loop of OP_INTERSECTION: runs over b itself, repeated values included. */
  method IntersectValues(b: Tags, ys: array<int>, ysEnd: int, rs: array<int>) returns (pos: int)
    requires -1 <= ysEnd < ys.Length && rs != ys && NoDuplicates(ys[..ysEnd + 1]) && rs.Length >= ysEnd + 1
    modifies rs
    ensures -1 <= pos < rs.Length && rs[..pos + 1] == Select(Distinct(b), ys[..ysEnd + 1], true)
  {
    hide Distinct, Select;
    pos := -1;
    ghost var keep := ys[..ysEnd + 1];
    EmptyArrays(keep);
    assert b[..0] == [];
    for i := 0 to |b|
      invariant ys[..ysEnd + 1] == keep
      invariant -1 <= pos < rs.Length && rs[..pos + 1] == Select(Distinct(b[..i]), keep, true)
    {
      ghost var d := Distinct(b[..i]);
      assert b[..i + 1] == b[..i] + [b[i]];
      DistinctAppend(b[..i], b[i]);
      DistinctIsSet(b[..i]);
      SelectIsSet(d, keep, true);
      if b[i].None? { continue; }
      var v := b[i].value;
      SelectAppend(d, v, keep);
      var chosen := SetContainsValue(rs, pos, v);
      if chosen { continue; }
      var wanted := SetContainsValue(ys, ysEnd, v);
      if !wanted { continue; }
      FitsIn(rs[..pos + 1], keep, v);
      ghost var filled := rs[..pos + 1];
      pos := pos + 1;
      rs[pos] := v;
      assert rs[..pos + 1] == filled + [v];
    }
    assert b[..|b|] == b;
  }

  lemma EmptyArrays(keep: seq<int>)
    ensures Distinct([]) == [] && Select([], keep, true) == []
  {
  }

  /** Values chosen from keep, with one of keep still to come, leave room for it. */
  lemma FitsIn(chosen: seq<int>, keep: seq<int>, v: int)
    requires NoDuplicates(chosen) && NoDuplicates(keep) && v in keep && v !in chosen
    requires forall x <- chosen :: x in keep
    ensures |chosen| < |keep|
  {
    SizeOfDistinct(chosen);
    SizeOfDistinct(keep);
    assert Elements(chosen) <= Elements(keep);
    assert v in Elements(keep) && v !in Elements(chosen);
    SubsetSize(Elements(keep), Elements(chosen));
  }

  datatype ActionResult = NullResult | ArrayResult(tags: Tags) | UnknownOperation

  const OP_CLEAR := 1
  const OP_REMOVE := 2
  const OP_APPEND := 3
  const OP_INTERSECTION := 4
  const OP_REPLACE := 5

  /** What `tag_action` returns. */
  function Action(op: Option<int>, a: Option<Tags>, b: Option<Tags>): ActionResult {
    if a.None? || b.None? then NullResult
    else if op.None? then ArrayResult(a.value)
    else if op.value == OP_CLEAR then ArrayResult([])
    else if op.value == OP_REMOVE then ArrayResult(Lifted(Removed(a.value, b.value)))
    else if op.value == OP_APPEND then ArrayResult(Lifted(Appended(a.value, b.value)))
    else if op.value == OP_INTERSECTION then ArrayResult(Lifted(Intersected(a.value, b.value)))
    else if op.value == OP_REPLACE then ArrayResult(b.value)
    else UnknownOperation
  }

  /** The numeric operations on values A and B: 1 clears, 2 removes, 3 appends, 4 intersects, 5 replaces;
      a NULL operation returns a as it is, and so does a NULL array NULL. */
  lemma ActionCodes(a: Tags, b: Tags, A: set<int>, B: set<int>, op: Option<int>)
    requires forall x :: x in A <==> Some(x) in a
    requires forall x :: x in B <==> Some(x) in b
    ensures op == None ==> Action(op, Some(a), Some(b)) == ArrayResult(a)
    ensures op == Some(1) ==> Action(op, Some(a), Some(b)) == ArrayResult([])
    ensures op == Some(2) ==>
      var r := Action(op, Some(a), Some(b)); r.ArrayResult? && Lists(r.tags, A - B, a)
    ensures op == Some(3) ==>
      var r := Action(op, Some(a), Some(b)); r.ArrayResult? && Lists(r.tags, A + B, a + b)
    ensures op == Some(4) ==>
      var r := Action(op, Some(a), Some(b)); r.ArrayResult? && Lists(r.tags, A * B, b)
    ensures op == Some(5) ==> Action(op, Some(a), Some(b)) == ArrayResult(b)
    ensures op.Some? && !(1 <= op.value <= 5) ==> Action(op, Some(a), Some(b)) == UnknownOperation
    ensures Action(op, None, Some(b)) == Action(op, Some(a), None) == Action(op, None, None) == NullResult
  {
    HoldsSet(a, A);
    HoldsSet(b, B);
    ActionsAreSetOperations(a, b);
    DistinctInOrder(a);
    DistinctInOrder(b);
    DistinctInOrder(a + b);
    SelectInOrder(Distinct(a), Distinct(b), false, a);
    SelectInOrder(Distinct(b), Distinct(a), true, b);
    hide Values, Lists, Lifted, Distinct, Select, InOrder, NoDuplicates, Elements;
    LiftedLists(Removed(a, b), A - B, a);
    LiftedLists(Appended(a, b), A + B, a + b);
    LiftedLists(Intersected(a, b), A * B, b);
  }

  method TagAction(op: Option<int>, a: Option<Tags>, b: Option<Tags>) returns (r: ActionResult)
    ensures r == Action(op, a, b)
  {
    hide Distinct, Select, Lifted;
    if a.None? || b.None? { return NullResult; }
    if op.None? { return ArrayResult(a.value); }
    if op.value == OP_CLEAR { return ArrayResult([]); }
    if op.value == OP_REPLACE { return ArrayResult(b.value); }
    if op.value != OP_REMOVE && op.value != OP_APPEND && op.value != OP_INTERSECTION { return UnknownOperation; }
    var aLen, bLen := |a.value|, |b.value|;
    var aset := new int[aLen];
    NothingYet(a.value, b.value);
    var apos, _ := AddValues(a.value, aset, -1, []);
    DistinctIsSet(a.value);
    if op.value == OP_REMOVE {
      if apos < 0 { return ArrayResult([]); }
      var bset := new int[bLen];
      var bpos, _ := AddValues(b.value, bset, -1, []);
      if bpos < 0 {
        SelectAll(Distinct(a.value));
        return ArrayResult(Lifted(aset[..apos + 1]));
      }
      var rset := new int[apos + 1];
      var rpos := RemoveValues(aset, apos + 1, bset, bpos, rset);
      if rpos < 0 { return ArrayResult([]); }
      return ArrayResult(Lifted(rset[..rpos + 1]));
    } else if op.value == OP_APPEND {
      var grown := new int[apos + 1 + bLen](i reads aset => if 0 <= i < aset.Length then aset[i] else 0);
      assert grown[..apos + 1] == aset[..apos + 1];
      var pos, _ := AddValues(b.value, grown, apos, a.value);
      if pos < 0 { return ArrayResult([]); }
      return ArrayResult(Lifted(grown[..pos + 1]));
    } else {
      var rset := new int[apos + 1];
      var rpos := IntersectValues(b.value, aset, apos, rset);
      if rpos < 0 { return ArrayResult([]); }
      return ArrayResult(Lifted(rset[..rpos + 1]));
    }
  }

  lemma NothingYet(a: Tags, b: Tags)
    ensures Distinct([]) == [] && Values([]) == {} && Lifted([]) == [] && [] + a == a && [] + b == b
    ensures forall ys, inside :: Select([], ys, inside) == []
  {
  }

  lemma {:induction false} SelectAll(xs: seq<int>)
    ensures Select(xs, [], false) == xs
  {
    if xs != [] { SelectAll(xs[..|xs| - 1]); }
  }

  /** What is known about b's values against those in the a-set: contained, or not. */
  function Containment(A: set<int>, anyTag: bool, B: set<int>): int {
    if B <= A then MATCHED_WITHOUT_NULL else if anyTag then MATCHED_WITH_NULL else NOT_MATCHED
  }

  /** The loop of `tag_compare` over b. `overlap` stands for its early return. */
  method ScanB(b: Tags, aset: array<int>, apos: int, anyTag: bool, mode: MatchMode, bset: array<int>)
    returns (overlap: bool, ret: int, bpos: int)
    requires -1 <= apos < aset.Length && bset != aset && |b| <= bset.Length
    modifies bset
    ensures var A := Elements(aset[..apos + 1]);
      && (overlap <==> mode == Intersection && A * Values(b) != {})
      && (!overlap ==> -1 <= bpos < bset.Length && ret == Containment(A, anyTag, Values(b)))
      && (!overlap && (ret == MATCHED_WITHOUT_NULL || (mode == Mutual && ret != NOT_MATCHED)) ==>
            bset[..bpos + 1] == Distinct(b))
  {
    hide Distinct, Values;
    ghost var A := Elements(aset[..apos + 1]);
    overlap, ret, bpos := false, MATCHED_WITHOUT_NULL, -1;
    assert b[..0] == [] && Distinct([]) == [] && Values([]) == {} by { NothingYet([], []); }
    for i := 0 to |b|
      invariant -1 <= bpos < i && bset[..bpos + 1] == Distinct(b[..i])
      invariant Elements(aset[..apos + 1]) == A
      invariant ret == Containment(A, anyTag, Values(b[..i]))
      invariant mode == BInA ==> Values(b[..i]) <= A
      invariant mode == Mutual ==> ret != NOT_MATCHED
      invariant mode == Intersection ==> A * Values(b[..i]) == {}
    {
      OneMore(b, i);
      DistinctAppend(b[..i], b[i]);
      if b[i].None? { continue; }
      var v := b[i].value;
      var inA := SetContainsValue(aset, apos, v);
      assert inA <==> v in A;
      if !inA {
        if anyTag {
          ret := MATCHED_WITH_NULL;
          if mode == BInA { return; }
        } else {
          ret := NOT_MATCHED;
          if mode != Intersection { return; }
        }
      } else if mode == Intersection {
        assert v in A * Values(b);
        overlap := true;
        return;
      }
      var inB := SetContainsValue(bset, bpos, v);
      if !inB {
        ghost var filled := bset[..bpos + 1];
        bpos := bpos + 1;
        bset[bpos] := v;
        assert bset[..bpos + 1] == filled + [v];
      }
    }
    assert b[..|b|] == b;
  }

  lemma OneMore(b: Tags, i: nat)
    requires i < |b|
    ensures b[..i + 1] == b[..i] + [b[i]]
    ensures Values(b[..i + 1]) == Values(b[..i]) + if b[i].Some? then {b[i].value} else {}
    ensures Values(b[..i + 1]) <= Values(b)
  {
  }

  /** The check that every value of the a-set is in the b-set, from the last one down. */
  method AllInB(aset: array<int>, apos: int, bset: array<int>, bpos: int) returns (all: bool)
    requires -1 <= apos < aset.Length && -1 <= bpos < bset.Length
    ensures all <==> Elements(aset[..apos + 1]) <= Elements(bset[..bpos + 1])
  {
    var d := apos;
    while d >= 0
      invariant -1 <= d <= apos
      invariant forall k :: d < k <= apos ==> aset[k] in bset[..bpos + 1]
    {
      var found := SetContainsValue(bset, bpos, aset[d]);
      if !found {
        assert aset[..apos + 1][d] in Elements(aset[..apos + 1]);
        return false;
      }
      d := d - 1;
    }
    return true;
  }

  datatype CompareResult = Code(code: int) | UnknownMode

  function ModeOf(mode: Option<int>): Option<MatchMode> {
    if mode.None? || mode.value == 0 then Some(BInA)
    else if mode.value == 1 then Some(Mutual)
    else if mode.value == 2 then Some(Intersection)
    else None
  }

  /** What `tag_compare` returns. */
  function Comparison(a: Option<Tags>, b: Option<Tags>, mode: Option<int>): CompareResult {
    if a.None? || b.None? then Code(NOT_MATCHED)
    else if ModeOf(mode).None? then UnknownMode
    else Code(Compare(a.value, b.value, ModeOf(mode).value))
  }

  /** The numeric codes of the three numeric modes, by the sets A and B of the values that are not NULL;
      without a mode, or with a NULL one, it is mode 0. */
  lemma ComparisonCodes(a: Tags, b: Tags, A: set<int>, B: set<int>, mode: Option<int>)
    requires forall x :: x in A <==> Some(x) in a
    requires forall x :: x in B <==> Some(x) in b
    ensures a != [] && b != [] && (mode == None || mode == Some(0)) ==>
      Comparison(Some(a), Some(b), mode)
        == Code(if A == B then 3 else if B < A then 2 else if None in a then 1 else 0)
    ensures a != [] && b != [] && mode == Some(1) ==>
      Comparison(Some(a), Some(b), mode) == Code(if A == B then 3 else if None in a && A < B then 1 else 0)
    ensures a != [] && b != [] && mode == Some(2) ==>
      Comparison(Some(a), Some(b), mode)
        == Code(if A * B != {} || (A == {} && B == {}) then 3 else if B == {} then 2 else if None in a then 1 else 0)
    ensures (a == [] || b == []) && (mode == None || mode == Some(0) || mode == Some(1) || mode == Some(2)) ==>
      Comparison(Some(a), Some(b), mode) == Code(if a == [] && b == [] then 3 else 0)
    ensures mode.Some? && mode.value != 0 && mode.value != 1 && mode.value != 2 ==>
      Comparison(Some(a), Some(b), mode) == UnknownMode
    ensures Comparison(None, Some(b), mode) == Comparison(Some(a), None, mode) == Comparison(None, None, mode) == Code(0)
  {
    HoldsSet(a, A);
    HoldsSet(b, B);
    hide Values;
  }

  lemma HoldsSet(a: Tags, A: set<int>)
    requires forall x :: x in A <==> Some(x) in a
    ensures Values(a) == A
  {
    forall x ensures x in Values(a) <==> x in A {
      assert Some(x).value == x;
    }
  }

  method TagCompare(a: Option<Tags>, b: Option<Tags>, mode: Option<int>) returns (r: CompareResult)
    ensures r == Comparison(a, b, mode)
  {
    hide Distinct, Values, CompareSets, Containment;
    if a.None? || b.None? { return Code(NOT_MATCHED); }
    if ModeOf(mode).None? { return UnknownMode; }
    var m := ModeOf(mode).value;
    var aLen, bLen := |a.value|, |b.value|;
    if aLen == 0 { return Code(if bLen == 0 then MATCHED_EXACTLY else NOT_MATCHED); }
    if bLen == 0 { return Code(NOT_MATCHED); }
    var aset := new int[aLen];
    NothingYet(a.value, b.value);
    var apos, anyTag := AddValues(a.value, aset, -1, []);
    var bset := new int[bLen];
    var overlap, ret, bpos := ScanB(b.value, aset, apos, anyTag, m, bset);
    ghost var A, B := Values(a.value), Values(b.value);
    DistinctIsSet(a.value);
    DistinctIsSet(b.value);
    assert Elements(aset[..apos + 1]) == A;
    SizeOfDistinct(Distinct(a.value));
    SizeOfDistinct(Distinct(b.value));
    Verdict(A, anyTag, B, m, apos + 1, bpos + 1);
    if overlap { return Code(MATCHED_EXACTLY); }
    if ret == MATCHED_WITHOUT_NULL && apos == bpos { ret := MATCHED_EXACTLY; }
    if m == Mutual && apos > -1 {
      var all := AllInB(aset, apos, bset, bpos);
      if !all { ret := NOT_MATCHED; }
    }
    return Code(ret);
  }

  /** How the comparison follows from containment and the sizes of the sets. */
  lemma Verdict(A: set<int>, anyTag: bool, B: set<int>, mode: MatchMode, sizeA: int, sizeB: int)
    requires sizeA == |A|
    ensures mode == Intersection && A * B != {} ==> CompareSets(A, anyTag, B, mode) == MATCHED_EXACTLY
    ensures !(mode == Intersection && A * B != {}) && (Containment(A, anyTag, B) == MATCHED_WITHOUT_NULL ==> sizeB == |B|) ==>
      var ret := Containment(A, anyTag, B);
      var exact := if ret == MATCHED_WITHOUT_NULL && sizeA == sizeB then MATCHED_EXACTLY else ret;
      CompareSets(A, anyTag, B, mode) == if mode == Mutual && A != {} && !(A <= B) then NOT_MATCHED else exact
  {
    if B <= A { SubsetSize(A, B); }
  }
}
