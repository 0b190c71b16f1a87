/** `rank_dns_srv`: ranks the rows of a partition by repeated weighted draws, as RFC 2782 describes
    for SRV records of equal priority. The random generator is an arbitrary sequence of numbers. */
module SrvRank {
  import opened Collections
  import opened Texts

  type Weights = seq<nat>

  /** No running sum leaves the 32-bit range. */
  const MAX_TOTAL := 0x7fff_ffff

  // ----- The reference: one draw -----

  /** The weights of the rows below n that are not in `taken`. */
  function Sum(w: Weights, taken: seq<nat>, n: nat): nat
    requires n <= |w|
  {
    if n == 0 then 0
    else Sum(w, taken, n - 1) + if n - 1 in taken then 0 else w[n - 1]
  }

  /** The first row from i on that is free and whose running sum reaches r; |w| if there is none. */
  function Pick(w: Weights, taken: seq<nat>, r: nat, i: nat := 0): (row: nat)
    requires i <= |w|
    ensures i <= row <= |w|
    decreases |w| - i
  {
    if i == |w| then i
    else if i !in taken && Sum(w, taken, i + 1) >= r then i
    else Pick(w, taken, r, i + 1)
  }

  /** The rows in the order in which k draws take them. */
  function Order(w: Weights, draws: nat -> nat, k: nat): seq<nat> {
    if k == 0 then []
    else
      var taken := Order(w, draws, k - 1);
      taken + [Pick(w, taken, draws(k - 1) % (Sum(w, taken, |w|) + 1))]
  }

  /** The rank a row gets: its place in the order, counted from one; 0 before it is taken. */
  function Rank(order: seq<nat>, row: nat): nat {
    if order == [] then 0
    else if order[|order| - 1] == row then |order|
    else Rank(order[..|order| - 1], row)
  }

  // ----- The residues that select a row -----

  predicate FirstFree(taken: seq<nat>, row: nat) {
    row !in taken && forall i :: 0 <= i < row ==> i in taken
  }

  lemma {:induction false} SumGrows(w: Weights, taken: seq<nat>, m: nat, n: nat)
    requires m <= n <= |w|
    ensures Sum(w, taken, m) <= Sum(w, taken, n)
    decreases n - m
  {
    if m < n { SumGrows(w, taken, m, n - 1); }
  }

  lemma {:induction false} NothingFree(w: Weights, taken: seq<nat>, n: nat)
    requires n <= |w| && forall i :: 0 <= i < n ==> i in taken
    ensures Sum(w, taken, n) == 0
  {
    if n > 0 { NothingFree(w, taken, n - 1); }
  }

  /** A draw r selects exactly one row: the one whose stretch of the running sum r falls into. The
      first free row also takes r == 0. */
  lemma {:induction false} PickIs(w: Weights, taken: seq<nat>, r: nat, row: nat, i: nat)
    requires i <= row < |w| && row !in taken && (forall k :: 0 <= k < i && k !in taken ==> Sum(w, taken, k + 1) < r)
    ensures Pick(w, taken, r, i) == row <==>
      r <= Sum(w, taken, row) + w[row] && (Sum(w, taken, row) < r || FirstFree(taken, row))
    decreases |w| - i
  {
    assert Sum(w, taken, row + 1) == Sum(w, taken, row) + w[row];
    if i == row {
      EarlierMiss(w, taken, r, row);
    } else if i !in taken && Sum(w, taken, i + 1) >= r {
      SumGrows(w, taken, i + 1, row);
    } else {
      PickIs(w, taken, r, row, i + 1);
    }
  }

  lemma {:induction false} EarlierMiss(w: Weights, taken: seq<nat>, r: nat, row: nat)
    requires row <= |w| && (forall k :: 0 <= k < row && k !in taken ==> Sum(w, taken, k + 1) < r)
    ensures Sum(w, taken, row) < r || forall k :: 0 <= k < row ==> k in taken
  {
    if row > 0 {
      if row - 1 !in taken {
        assert Sum(w, taken, row - 1 + 1) < r;
      } else {
        EarlierMiss(w, taken, r, row - 1);
      }
    }
  }

  function Residues(w: Weights, taken: seq<nat>, row: nat): set<nat> {
    set r: nat | 0 <= r <= Sum(w, taken, |w|) && Pick(w, taken, r) == row
  }

  predicate Within(lo: nat, r: nat, hi: nat) { lo <= r < hi }

  function Range(lo: nat, hi: nat): set<nat> { set r: nat | r < hi && Within(lo, r, hi) }

  lemma {:induction false} RangeSize(lo: nat, hi: nat)
    requires lo <= hi
    ensures |Range(lo, hi)| == hi - lo
    decreases hi - lo
  {
    if lo < hi {
      RangeSize(lo, hi - 1);
      assert Range(lo, hi) == Range(lo, hi - 1) + {hi - 1};
    }
  }

  /** Each draw is fair up to the zero: a free row is selected by exactly as many residues as its
      weight, the first free row by one more. */
  lemma ResidueCount(w: Weights, taken: seq<nat>, row: nat)
    requires row < |w| && row !in taken
    ensures |Residues(w, taken, row)| == w[row] + if FirstFree(taken, row) then 1 else 0
  {
    var before := Sum(w, taken, row);
    assert Sum(w, taken, row + 1) == before + w[row];
    SumGrows(w, taken, row + 1, |w|);
    var lo := if FirstFree(taken, row) then 0 else before + 1;
    if FirstFree(taken, row) { NothingFree(w, taken, row); }
    forall r: nat ensures r in Residues(w, taken, row) <==> r in Range(lo, before + w[row] + 1) {
      PickIs(w, taken, r, row, 0);
    }
    assert Residues(w, taken, row) == Range(lo, before + w[row] + 1);
    RangeSize(lo, before + w[row] + 1);
  }

  // ----- The whole ranking -----

  ghost predicate Permutation(p: seq<nat>, n: nat) {
    |p| == n && NoDuplicates(p) && forall row <- p :: row < n
  }

  /** Fewer than n distinct rows below n leave one free; n of them leave none. */
  lemma FreeRow(p: seq<nat>, n: nat)
    requires NoDuplicates(p) && forall row <- p :: row < n
    ensures |p| < n ==> exists i :: 0 <= i < n && i !in p
    ensures |p| == n ==> forall i :: 0 <= i < n ==> i in p
  {
    SizeOfDistinct(p);
    RangeSize(0, n);
    assert Elements(p) <= Range(0, n);
    if forall i :: 0 <= i < n ==> i in p {
      assert Elements(p) == Range(0, n);
    }
    if |p| == n {
      SubsetSize(Range(0, n), Elements(p));
      forall i: nat | i < n ensures i in p {
        assert i in Range(0, n);
      }
    }
  }

  /** Every residue selects a free row while there is one. */
  lemma PickIsFree(w: Weights, taken: seq<nat>, r: nat, free: nat)
    requires r <= Sum(w, taken, |w|) && free < |w| && free !in taken
    ensures var row := Pick(w, taken, r); row < |w| && row !in taken
  {
    PickFound(w, taken, r, 0, free);
  }

  lemma {:induction false} PickFound(w: Weights, taken: seq<nat>, r: nat, i: nat, free: nat)
    requires r <= Sum(w, taken, |w|) && i <= |w|
    requires Sum(w, taken, i) < r || (i <= free < |w| && free !in taken)
    ensures var row := Pick(w, taken, r, i); row < |w| && row !in taken
    decreases |w| - i
  {
    if i < |w| && !(i !in taken && Sum(w, taken, i + 1) >= r) {
      PickFound(w, taken, r, i + 1, free);
    }
  }

  /** The draws take every row exactly once, whatever they are. */
  lemma {:induction false} OrderIsPermutation(w: Weights, draws: nat -> nat, k: nat)
    requires k <= |w|
    ensures var p := Order(w, draws, k); |p| == k && NoDuplicates(p) && forall row <- p :: row < |w|
  {
    if k > 0 {
      var taken := Order(w, draws, k - 1);
      OrderIsPermutation(w, draws, k - 1);
      FreeRow(taken, |w|);
      var free :| 0 <= free < |w| && free !in taken;
      PickIsFree(w, taken, draws(k - 1) % (Sum(w, taken, |w|) + 1), free);
    }
  }

  lemma {:induction false} RankOfPlace(p: seq<nat>, row: nat)
    requires NoDuplicates(p)
    ensures Rank(p, row) == 0 <==> row !in p
    ensures forall k :: 0 <= k < |p| && p[k] == row ==> Rank(p, row) == k + 1
    ensures Rank(p, row) <= |p|
  {
    if p != [] && p[|p| - 1] != row {
      RankOfPlace(p[..|p| - 1], row);
    }
  }

  /** The ranks are a bijection between the rows and 1..|w|. */
  lemma RanksAreBijective(w: Weights, draws: nat -> nat)
    ensures var p := Order(w, draws, |w|);
      && |p| == |w|
      && (forall row :: 0 <= row < |w| ==> 1 <= Rank(p, row) <= |w| && p[Rank(p, row) - 1] == row)
      && (forall k :: 0 <= k < |w| ==> p[k] < |w| && Rank(p, p[k]) == k + 1)
  {
    hide Order, Rank, Pick;
    OrderIsPermutation(w, draws, |w|);
    var p := Order(w, draws, |w|);
    FreeRow(p, |w|);
    forall row: nat | row < |w| ensures 1 <= Rank(p, row) <= |w| && p[Rank(p, row) - 1] == row {
      RankOfPlace(p, row);
      var k :| 0 <= k < |p| && p[k] == row;
    }
    forall k: nat | k < |w| ensures p[k] < |w| && Rank(p, p[k]) == k + 1 {
      assert p[k] in p;
      RankOfPlace(p, p[k]);
    }
  }

  // ----- Which rankings can come out -----

  /** A row of weight zero comes after every row that stands before it. */
  ghost predicate ZeroesWait(w: Weights, p: seq<nat>) {
    forall k :: 0 <= k < |p| && p[k] < |w| && w[p[k]] == 0 ==> forall i :: 0 <= i < p[k] ==> i in p[..k]
  }

  lemma {:induction false} OrderLetsZeroesWait(w: Weights, draws: nat -> nat, k: nat)
    requires k <= |w|
    ensures ZeroesWait(w, Order(w, draws, k))
  {
    if k > 0 {
      var taken := Order(w, draws, k - 1);
      OrderLetsZeroesWait(w, draws, k - 1);
      OrderIsPermutation(w, draws, k - 1);
      OrderIsPermutation(w, draws, k);
      var row := Pick(w, taken, draws(k - 1) % (Sum(w, taken, |w|) + 1));
      FreeRow(taken, |w|);
      var free :| 0 <= free < |w| && free !in taken;
      PickIsFree(w, taken, draws(k - 1) % (Sum(w, taken, |w|) + 1), free);
      PickIs(w, taken, draws(k - 1) % (Sum(w, taken, |w|) + 1), row, 0);
      WaitsAppend(w, taken, row);
    }
  }

  lemma WaitsAppend(w: Weights, taken: seq<nat>, row: nat)
    requires row < |w| && row !in taken
    ensures ZeroesWait(w, taken + [row]) <==> ZeroesWait(w, taken) && (w[row] == 0 ==> FirstFree(taken, row))
  {
    var p := taken + [row];
    assert forall k | 0 <= k < |taken| :: p[k] == taken[k] && p[..k] == taken[..k];
    assert p[|taken|] == row && p[..|taken|] == taken;
  }

  /** The draw that takes the k-th row of p next. */
  function DrawFor(w: Weights, p: seq<nat>, k: nat): nat {
    if k < |p| && p[k] < |w| then Sum(w, p[..k], p[k]) + (if w[p[k]] > 0 then 1 else 0) else 0
  }

  lemma DrawTakes(w: Weights, p: seq<nat>, k: nat)
    requires Permutation(p, |w|) && ZeroesWait(w, p) && k < |w|
    ensures var (taken, r) := (p[..k], DrawFor(w, p, k));
      r <= Sum(w, taken, |w|) <= Sum(w, [], |w|) && Pick(w, taken, r) == p[k]
  {
    var taken, row, r := p[..k], p[k], DrawFor(w, p, k);
    assert row in p && row !in taken;
    SumGrows(w, taken, row + 1, |w|);
    assert Sum(w, taken, row + 1) == Sum(w, taken, row) + w[row];
    if w[row] == 0 { NothingFree(w, taken, row); }
    SumShrinks(w, taken, |w|);
    PickIs(w, taken, r, row, 0);
  }

  /** Conversely every such permutation is the outcome of some draws, none of them above the total
      weight. Together: the possible rankings are exactly those in which no row of weight zero
      overtakes an earlier row; with positive weights, all of them. */
  lemma {:induction false} EveryWaitingOrderIsReached(w: Weights, p: seq<nat>, draws: nat -> nat, k: nat)
    requires Permutation(p, |w|) && ZeroesWait(w, p) && k <= |w|
    requires forall i :: 0 <= i < |w| ==> draws(i) == DrawFor(w, p, i)
    ensures Order(w, draws, k) == p[..k]
    ensures forall i :: 0 <= i < k ==> draws(i) <= Sum(w, [], |w|)
  {
    hide DrawFor, Sum, Pick, ZeroesWait;
    if k > 0 {
      EveryWaitingOrderIsReached(w, p, draws, k - 1);
      DrawTakes(w, p, k - 1);
      SmallResidue(draws(k - 1), Sum(w, p[..k - 1], |w|) + 1);
      assert p[..k] == p[..k - 1] + [p[k - 1]];
    } else {
      assert p[..0] == [];
    }
  }

  lemma SmallResidue(r: nat, m: nat)
    requires r < m
    ensures r % m == r
  {
  }

  ghost predicate DrawsWithin(draws: nat -> nat, n: nat, max: nat) {
    forall i :: 0 <= i < n ==> draws(i) <= max
  }

  lemma ReachableOrders(w: Weights, p: seq<nat>)
    requires Permutation(p, |w|)
    ensures (exists draws: nat -> nat :: DrawsWithin(draws, |w|, Sum(w, [], |w|)) && Order(w, draws, |w|) == p)
      <==> ZeroesWait(w, p)
  {
    hide Sum, Pick, Order, ZeroesWait, DrawFor;
    if ZeroesWait(w, p) {
      var draws := (k: nat) => DrawFor(w, p, k);
      EveryWaitingOrderIsReached(w, p, draws, |w|);
      assert |p| == |w| && p[..|w|] == p;
      assert DrawsWithin(draws, |w|, Sum(w, [], |w|)) && Order(w, draws, |w|) == p;
    }
    forall draws: nat -> nat | Order(w, draws, |w|) == p ensures ZeroesWait(w, p) {
      OrderLetsZeroesWait(w, draws, |w|);
    }
  }

  lemma {:induction false} SumShrinks(w: Weights, taken: seq<nat>, n: nat)
    requires n <= |w|
    ensures Sum(w, taken, n) <= Sum(w, [], n)
  {
    if n > 0 { SumShrinks(w, taken, n - 1); }
  }

  /** Any draw counts by its remainder modulo the free weight plus one. */
  lemma DrawCountsByRemainder(w: Weights, draws: nat -> nat, k: nat, q: nat, r: nat)
    requires r <= Sum(w, Order(w, draws, k), |w|) && draws(k) == q * (Sum(w, Order(w, draws, k), |w|) + 1) + r
    ensures Order(w, draws, k + 1) == Order(w, draws, k) + [Pick(w, Order(w, draws, k), r)]
  {
    hide Sum, Pick;
    RemainderIs(draws(k), q, Sum(w, Order(w, draws, k), |w|) + 1, r);
  }

  lemma RemainderIs(d: nat, q: nat, m: nat, r: nat)
    requires r < m && d == q * m + r
    ensures d % m == r
  {
    var c, x := d / m - q, d % m;
    assert d == m * (d / m) + x;
    assert m * c == m * (d / m) - m * q;
    MultipleBetween(m, c, r - x);
  }

  lemma MultipleBetween(m: int, c: int, x: int)
    requires m > 0 && m * c == x && -m < x < m
    ensures c == 0 && x == 0
  {
    assert c > 0 ==> m * c >= m;
    assert c < 0 ==> m * c <= -m;
  }

  // ----- How many draws give a ranking -----

  /** The residues of a tuple as draws. */
  function DrawsFrom(rs: seq<nat>): nat -> nat { (i: nat) => if i < |rs| then rs[i] else 0 }

  /** Every entry is a residue of the step it is used in. */
  ghost predicate Residual(w: Weights, rs: seq<nat>) {
    forall i :: 0 <= i < |rs| ==> rs[i] <= Sum(w, Order(w, DrawsFrom(rs), i), |w|)
  }

  ghost function Extended<T>(A: set<seq<T>>, R: set<T>): set<seq<T>> {
    set t, r | t in A && r in R :: t + [r]
  }

  /** The tuples that select the first k rows of p, one residue for each step. */
  ghost function Tuples(w: Weights, p: seq<nat>, k: nat): set<seq<nat>>
    requires k <= |p|
  {
    if k == 0 then {[]} else Extended(Tuples(w, p, k - 1), Residues(w, p[..k - 1], p[k - 1]))
  }

  /** The product of the residues of each step. */
  function Ways(w: Weights, p: seq<nat>, k: nat): nat
    requires k <= |p| && forall row <- p :: row < |w|
  {
    if k == 0 then 1
    else
      assert p[k - 1] in p;
      Ways(w, p, k - 1) * (w[p[k - 1]] + if FirstFree(p[..k - 1], p[k - 1]) then 1 else 0)
  }

  lemma {:induction false} OrderUsesDraws(w: Weights, d: nat -> nat, e: nat -> nat, k: nat)
    requires forall i: nat :: i < k ==> d(i) == e(i)
    ensures Order(w, d, k) == Order(w, e, k)
  {
    if k > 0 { OrderUsesDraws(w, d, e, k - 1); }
  }

  lemma OrderStep(w: Weights, d: nat -> nat, k: nat)
    requires d(k) <= Sum(w, Order(w, d, k), |w|)
    ensures Order(w, d, k + 1) == Order(w, d, k) + [Pick(w, Order(w, d, k), d(k))]
  {
    hide Sum, Pick;
    SmallResidue(d(k), Sum(w, Order(w, d, k), |w|) + 1);
  }

  /** One more residue. */
  lemma {:induction false} OneMoreResidue(w: Weights, t: seq<nat>, r: nat)
    ensures Residual(w, t + [r]) <==> Residual(w, t) && r <= Sum(w, Order(w, DrawsFrom(t), |t|), |w|)
    ensures r <= Sum(w, Order(w, DrawsFrom(t), |t|), |w|) ==>
      Order(w, DrawsFrom(t + [r]), |t| + 1)
        == Order(w, DrawsFrom(t), |t|) + [Pick(w, Order(w, DrawsFrom(t), |t|), r)]
  {
    hide Sum, Pick, Order;
    var rs := t + [r];
    forall i | 0 <= i <= |t| ensures Order(w, DrawsFrom(rs), i) == Order(w, DrawsFrom(t), i) {
      OrderUsesDraws(w, DrawsFrom(rs), DrawsFrom(t), i);
    }
    assert forall i | 0 <= i < |t| :: rs[i] == t[i];
    assert rs[|t|] == r == DrawsFrom(rs)(|t|);
    if r <= Sum(w, Order(w, DrawsFrom(t), |t|), |w|) { OrderStep(w, DrawsFrom(rs), |t|); }
  }

  /** Tuples is what its name says: exactly the tuples of residues that order the rows as p does. */
  lemma {:induction false} TuplesAreExact(w: Weights, p: seq<nat>, k: nat, rs: seq<nat>)
    requires k <= |p|
    ensures rs in Tuples(w, p, k) <==> |rs| == k && Residual(w, rs) && Order(w, DrawsFrom(rs), k) == p[..k]
    decreases k
  {
    hide Sum, Pick, Residual, Order;
    if k == 0 {
      EmptyTuple(w);
    } else if |rs| == 0 {
      assert forall t: seq<nat>, r: nat :: |t + [r]| > 0;
    } else {
      var t, r := rs[..|rs| - 1], rs[|rs| - 1];
      assert rs == t + [r];
      LastOf(rs, Tuples(w, p, k - 1), Residues(w, p[..k - 1], p[k - 1]));
      TuplesAreExact(w, p, k - 1, t);
      OneMoreResidue(w, t, r);
      if |rs| == k {
        var taken := Order(w, DrawsFrom(t), k - 1);
        assert p[..k] == p[..k - 1] + [p[k - 1]];
        OrderLength(w, DrawsFrom(t), k - 1);
        if r <= Sum(w, taken, |w|) {
          assert taken + [Pick(w, taken, r)] == p[..k] <==> taken == p[..k - 1] && Pick(w, taken, r) == p[k - 1] by {
            SameAppend(taken, Pick(w, taken, r), p[..k - 1], p[k - 1]);
          }
        }
      }
    }
  }

  lemma EmptyTuple(w: Weights)
    ensures Residual(w, []) && Order(w, DrawsFrom([]), 0) == []
  {
  }

  lemma {:induction false} OrderLength(w: Weights, d: nat -> nat, k: nat)
    ensures |Order(w, d, k)| == k
  {
    if k > 0 { OrderLength(w, d, k - 1); }
  }

  lemma SameAppend(s: seq<nat>, x: nat, t: seq<nat>, y: nat)
    requires |s| == |t|
    ensures s + [x] == t + [y] <==> s == t && x == y
  {
    assert (s + [x])[..|s|] == s && (t + [y])[..|t|] == t;
    assert (s + [x])[|s|] == x && (t + [y])[|t|] == y;
  }

  lemma LastOf<T>(rs: seq<T>, A: set<seq<T>>, R: set<T>)
    requires rs != []
    ensures rs in Extended(A, R) <==> rs[..|rs| - 1] in A && rs[|rs| - 1] in R
  {
    assert rs == rs[..|rs| - 1] + [rs[|rs| - 1]];
    forall t, r | t in A && r in R && rs == t + [r] ensures rs[..|rs| - 1] == t && rs[|rs| - 1] == r {
    }
  }

  lemma {:induction false} ExtendedByOne<T>(A: set<seq<T>>, r: T)
    ensures |Extended(A, {r})| == |A|
    decreases |A|
  {
    if A != {} {
      var t :| t in A;
      ExtendedByOne(A - {t}, r);
      forall rs ensures rs in Extended(A, {r}) <==> rs in Extended(A - {t}, {r}) + {t + [r]} {
        if rs != [] {
          LastOf(rs, A, {r});
          LastOf(rs, A - {t}, {r});
          assert rs == rs[..|rs| - 1] + [rs[|rs| - 1]];
        }
      }
      assert Extended(A, {r}) == Extended(A - {t}, {r}) + {t + [r]};
      LastOf(t + [r], A - {t}, {r});
      assert (t + [r])[..|t|] == t;
    } else {
      assert Extended(A, {r}) == {};
    }
  }

  lemma {:induction false} ExtendedSize<T>(A: set<seq<T>>, R: set<T>)
    ensures |Extended(A, R)| == |A| * |R|
    decreases |R|
  {
    if R != {} {
      var r :| r in R;
      ExtendedSize(A, R - {r});
      ExtendedByOne(A, r);
      SplitExtended(A, R, r);
      hide Extended;
      SizeOfParts(Extended(A, R - {r}), Extended(A, {r}), |A|, |R - {r}|, |R|);
    } else {
      assert Extended(A, R) == {};
      assert |A| * 0 == 0;
    }
  }

  lemma SizeOfParts<T>(X: set<T>, Y: set<T>, a: nat, b: nat, c: nat)
    requires X !! Y && |X| == a * b && |Y| == a && c == b + 1
    ensures |X + Y| == a * c
  {
    assert a * (b + 1) == a * b + a;
  }

  lemma SplitExtended<T>(A: set<seq<T>>, R: set<T>, r: T)
    requires r in R
    ensures Extended(A, R) == Extended(A, R - {r}) + Extended(A, {r})
    ensures Extended(A, R - {r}) !! Extended(A, {r})
  {
    forall rs ensures rs !in Extended(A, R - {r}) || rs !in Extended(A, {r}) {
      if rs != [] {
        LastOf(rs, A, R - {r});
        LastOf(rs, A, {r});
      }
    }
    forall rs ensures rs in Extended(A, R) <==> rs in Extended(A, R - {r}) + Extended(A, {r}) {
      if rs != [] {
        LastOf(rs, A, R);
        LastOf(rs, A, R - {r});
        LastOf(rs, A, {r});
      }
    }
  }

  /** A ranking is given by as many tuples of residues as the product over its steps says: at each the
      weight of the row taken, and one more for the first free row. */
  lemma {:induction false} TupleCount(w: Weights, p: seq<nat>, k: nat)
    requires Permutation(p, |w|) && k <= |w|
    ensures |Tuples(w, p, k)| == Ways(w, p, k)
  {
    if k > 0 {
      TupleCount(w, p, k - 1);
      assert p[k - 1] in p && p[k - 1] !in p[..k - 1];
      ResidueCount(w, p[..k - 1], p[k - 1]);
      ExtendedSize(Tuples(w, p, k - 1), Residues(w, p[..k - 1], p[k - 1]));
    }
  }

  /** In line with that, the product is zero exactly when a row of weight zero overtakes. */
  lemma {:induction false} WaysOfWaiting(w: Weights, p: seq<nat>, k: nat)
    requires Permutation(p, |w|) && k <= |w|
    ensures Ways(w, p, k) > 0 <==> ZeroesWait(w, p[..k])
  {
    if k > 0 {
      var taken, row := p[..k - 1], p[k - 1];
      WaysOfWaiting(w, p, k - 1);
      assert row in p && row !in taken;
      assert p[..k] == taken + [row];
      WaitsAppend(w, taken, row);
      var f := w[row] + if FirstFree(taken, row) then 1 else 0;
      ProductPositive(Ways(w, p, k - 1), f);
    }
  }

  lemma ProductPositive(a: nat, b: nat)
    ensures a * b > 0 <==> a > 0 && b > 0
  {
  }

  // ----- The implementation -----

  datatype RowStat = RowStat(rank: nat, w: int, wSum: int)

  /** The context holds the weights w, and the ranks of the rows taken so far. */
  ghost predicate Holds(ctx: array<RowStat>, w: Weights, taken: seq<nat>)
    reads ctx
  {
    |w| <= ctx.Length && forall i :: 0 <= i < |w| ==> ctx[i].w == w[i] && ctx[i].rank == Rank(taken, i)
  }

  /** `fill_weights`: a NULL weight counts as zero. */
  method FillWeights(weights: seq<Option<int>>, ctx: array<RowStat>)
    requires |weights| <= ctx.Length
    modifies ctx
    ensures forall i :: 0 <= i < ctx.Length ==>
      ctx[i] == if i < |weights| then old(ctx[i]).(w := weights[i].GetOr(0)) else old(ctx[i])
  {
    for row := 0 to |weights|
      invariant forall i :: 0 <= i < ctx.Length ==>
        ctx[i] == if i < row then old(ctx[i]).(w := weights[i].GetOr(0)) else old(ctx[i])
    {
      ctx[row] := ctx[row].(w := weights[row].GetOr(0));
    }
  }

  predicate Nonnegative(weights: seq<Option<int>>) {
    forall i :: 0 <= i < |weights| ==> weights[i].GetOr(0) >= 0
  }

  function WeightsOf(weights: seq<Option<int>>): (w: Weights)
    requires Nonnegative(weights)
    ensures |w| == |weights|
    ensures forall i :: 0 <= i < |w| ==> if weights[i] == None then w[i] == 0 else weights[i] == Some(w[i])
  {
    seq(|weights|, i requires 0 <= i < |weights| => weights[i].GetOr(0))
  }

  /** A row whose weight is NULL or zero ranks after every row before it, whatever is drawn. */
  lemma NullWeightsWait(weights: seq<Option<int>>, draws: nat -> nat, i: nat, j: nat)
    requires Nonnegative(weights) && i < j < |weights| && (weights[j] == None || weights[j] == Some(0))
    ensures var p := Order(WeightsOf(weights), draws, |weights|);
      1 <= Rank(p, i) < Rank(p, j) <= |weights|
  {
    hide Order, Rank, WeightsOf;
    var w := WeightsOf(weights);
    var p := Order(w, draws, |w|);
    OrderLetsZeroesWait(w, draws, |w|);
    OrderIsPermutation(w, draws, |w|);
    RanksAreBijective(w, draws);
    var k := Rank(p, j) - 1;
    assert p[k] == j && i in p[..k];
    var m :| 0 <= m < k && p[..k][m] == i;
    RankOfPlace(p, i);
  }

  /** `get_next_row`. */
  method GetNextRow(ctx: array<RowStat>, rows: nat, draw: nat, ghost w: Weights, ghost taken: seq<nat>)
    returns (row: nat)
    requires rows == |w| && Holds(ctx, w, taken) && NoDuplicates(taken) && Sum(w, [], |w|) <= MAX_TOTAL
    modifies ctx
    ensures Holds(ctx, w, taken)
    ensures row == Pick(w, taken, draw % (Sum(w, taken, |w|) + 1))
  {
    hide Rank, Sum, Pick;
    var sum: int := 0;
    row := 0;
    Unfold(w, taken, 0, 0);
    while row < rows
      invariant row <= rows && sum == Sum(w, taken, row)
      invariant Holds(ctx, w, taken)
      invariant forall i :: 0 <= i < row && i !in taken ==> ctx[i].wSum == Sum(w, taken, i + 1)
    {
      RankOfPlace(taken, row);
      Unfold(w, taken, 0, row);
      if ctx[row].rank == 0 {
        sum := sum + ctx[row].w;
        SumShrinks(w, taken, row + 1);
        SumGrows(w, [], row + 1, |w|);
        assert sum <= MAX_TOTAL;
        ctx[row] := ctx[row].(wSum := sum);
      }
      row := row + 1;
    }
    var r := draw % (sum + 1);
    row := 0;
    while row < rows
      invariant row <= rows && Pick(w, taken, r) == Pick(w, taken, r, row)
      invariant Holds(ctx, w, taken)
      invariant forall i :: 0 <= i < rows && i !in taken ==> ctx[i].wSum == Sum(w, taken, i + 1)
    {
      RankOfPlace(taken, row);
      Unfold(w, taken, r, row);
      if ctx[row].rank == 0 && ctx[row].wSum >= r { return; }
      row := row + 1;
    }
    Unfold(w, taken, r, row);
  }

  lemma Unfold(w: Weights, taken: seq<nat>, r: nat, i: nat)
    requires i <= |w|
    ensures Sum(w, taken, 0) == 0 && Pick(w, taken, r, |w|) == |w|
    ensures i < |w| ==>
      && Sum(w, taken, i + 1) == Sum(w, taken, i) + (if i in taken then 0 else w[i])
      && Pick(w, taken, r, i) == if i !in taken && Sum(w, taken, i + 1) >= r then i else Pick(w, taken, r, i + 1)
  {
  }

  lemma RankAppend(taken: seq<nat>, row: nat)
    ensures forall i :: Rank(taken + [row], i) == if i == row then |taken| + 1 else Rank(taken, i)
  {
    assert (taken + [row])[..|taken|] == taken;
  }

  lemma NothingRanked(w: Weights, draws: nat -> nat)
    ensures Order(w, draws, 0) == [] && forall row :: Rank([], row) == 0
  {
  }

  lemma NextOrder(w: Weights, draws: nat -> nat, k: nat)
    requires k < |w|
    ensures var taken := Order(w, draws, k);
      var row := Pick(w, taken, draws(k) % (Sum(w, taken, |w|) + 1));
      |taken| == k && NoDuplicates(taken) && row < |w| && Order(w, draws, k + 1) == taken + [row]
  {
    hide Sum, Pick;
    OrderIsPermutation(w, draws, k);
    OrderIsPermutation(w, draws, k + 1);
    var p := Order(w, draws, k + 1);
    assert p[k] in p;
  }

  /** `fill_distribution`, for a context with room for every row. */
  method FillDistribution(weights: seq<Option<int>>, ctx: array<RowStat>, draws: nat -> nat)
    requires |weights| <= ctx.Length && forall i :: 0 <= i < ctx.Length ==> ctx[i].rank == 0
    requires Nonnegative(weights) && Sum(WeightsOf(weights), [], |weights|) <= MAX_TOTAL
    modifies ctx
    ensures forall row :: 0 <= row < |weights| ==>
      ctx[row].rank == Rank(Order(WeightsOf(weights), draws, |weights|), row)
  {
    hide Sum, Pick, Order, Rank;
    var rows := |weights|;
    FillWeights(weights, ctx);
    ghost var w := WeightsOf(weights);
    NothingRanked(w, draws);
    assert Holds(ctx, w, Order(w, draws, 0));
    var rank := 0;
    while rank < rows
      invariant rank <= rows && Holds(ctx, w, Order(w, draws, rank))
    {
      ghost var taken := Order(w, draws, rank);
      NextOrder(w, draws, rank);
      var row := GetNextRow(ctx, rows, draws(rank), w, taken);
      rank := rank + 1;
      ctx[row] := ctx[row].(rank := rank);
      RankAppend(taken, row);
    }
  }
}
