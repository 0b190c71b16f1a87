/** What `replace` guarantees about its own output: when a second expansion finds nothing left to do. */
module ReplaceRandProperties {
  import opened Collections
  import opened Numerals
  import opened Texts
  import opened ReplaceRand

  function Shifted(x: Option<Placeholder>, n: nat): Option<Placeholder> {
    match x
    case None => None
    case Some(p) => Some(Placeholder(p.start + n, p.end + n, p.value))
  }

  lemma IndexOfShifts(a: Text, b: Text, c: char, q: nat)
    requires q <= |b|
    ensures IndexOf(a + b, c, |a| + q) ==
      match IndexOf(b, c, q) case None => None case Some(i) => Some(|a| + i)
  {
    var r, i := IndexOf(a + b, c, |a| + q), IndexOf(b, c, q);
    if r.Some? { assert b[r.value - |a|] == c; }
    if i.Some? { assert (a + b)[|a| + i.value] == c; }
  }

  lemma IndexOfPairShifts(a: Text, b: Text, c: char, d: char, q: nat)
    requires q <= |b|
    ensures IndexOfPair(a + b, c, d, |a| + q) ==
      match IndexOfPair(b, c, d, q) case None => None case Some(i) => Some(|a| + i)
  {
    assert forall k | 0 <= k < |b| :: PairAt(b, c, d, k) == PairAt(a + b, c, d, |a| + k);
    var r, i := IndexOfPair(a + b, c, d, |a| + q), IndexOfPair(b, c, d, q);
    if r.Some? { assert PairAt(b, c, d, r.value - |a|); }
    if i.Some? { assert PairAt(a + b, c, d, |a| + i.value); }
  }

  /** A search that starts in b does not depend on what stands before b. */
  lemma {:induction false} FirstShifts(a: Text, b: Text, q: nat)
    requires q <= |b|
    ensures First(a + b, |a| + q) == Shifted(First(b, q), |a|)
    decreases |b| - q, 1
  {
    hide FirstAt, IndexOf, ParseLong;
    IndexOfPairShifts(a, b, 'r', '(', q);
    match IndexOfPair(b, 'r', '(', q)
    case None =>
    case Some(open) => FirstAtShifts(a, b, open);
  }

  lemma {:induction false} FirstAtShifts(a: Text, b: Text, open: nat)
    requires PairAt(b, 'r', '(', open)
    ensures PairAt(a + b, 'r', '(', |a| + open)
    ensures FirstAt(a + b, |a| + open) == Shifted(FirstAt(b, open), |a|)
    decreases |b| - open, 0
  {
    hide First, IndexOfPair, IndexOf, ParseLong;
    var t, o := a + b, |a| + open;
    assert PairAt(t, 'r', '(', o);
    IndexOfShifts(a, b, ')', open + 2);
    var close := IndexOf(b, ')', open + 2);
    if close.Some? {
      var c := |a| + close.value;
      assert IndexOf(t, ')', o + 2) == Some(c);
      var arg := b[open + 2..close.value];
      assert t[o + 2..c] == arg;
      AtClose(t, o, c, arg);
      AtClose(b, open, close.value, arg);
      if ParseLong(arg).None? {
        FirstShifts(a, b, close.value);
      }
    }
  }

  /** Text y may follow the cut of t at i without completing an `r(` across the cut. */
  ghost predicate CleanCut(t: Text, p: nat, i: nat, y: Text)
    requires p <= i <= |t|
  {
    y == [] || y[0] != '(' || i == p || t[i - 1] != 'r'
  }

  /** The copy x of t's literal [p, i), followed by y. */
  ghost predicate Copies(x: Text, t: Text, p: nat, i: nat, y: Text) {
    p <= i <= |t| && x == t[p..i] + y
  }

  /** In the literal before a cut no further `r(` opens. */
  lemma SamePair(x: Text, t: Text, p: nat, i: nat, y: Text, from: nat, to: nat)
    requires Copies(x, t, p, i, y) && CleanCut(t, p, i, y)
    requires p <= from <= to <= i && to < |t| && t[to] == 'r' && NoPairIn(t, 'r', '(', from, to)
    ensures NoPairIn(x, 'r', '(', from - p, to - p)
  {
    forall k | from - p <= k < to - p ensures !PairAt(x, 'r', '(', k) {
      assert x[k] == t[p + k];
      if p + k + 1 < i {
        assert x[k + 1] == t[p + k + 1] && !PairAt(t, 'r', '(', p + k);
      }
    }
  }

  lemma SameClose(x: Text, t: Text, p: nat, i: nat, y: Text, from: nat, close: nat)
    requires Copies(x, t, p, i, y)
    requires p <= from <= close < i && IndexOf(t, ')', from) == Some(close)
    ensures IndexOf(x, ')', from - p) == Some(close - p)
  {
    var r := IndexOf(x, ')', from - p);
    assert x[close - p] == ')';
    assert r.Some? && r.value <= close - p;
    assert x[r.value] == t[p + r.value];
  }

  /** A copied part. */
  lemma SameSlice(x: Text, t: Text, p: nat, i: nat, y: Text, from: nat, to: nat)
    requires Copies(x, t, p, i, y) && p <= from <= to <= i
    ensures x[from - p..to - p] == t[from..to]
  {
    forall k | 0 <= k < to - from ensures x[from - p..to - p][k] == t[from..to][k] {
      assert x[from - p + k] == t[p..i][from - p + k] == t[from + k];
    }
  }

  /** A `r(` ... `)` before the cut that is no placeholder in t is none in the copy. */
  lemma {:induction false} StepOver(x: Text, t: Text, p: nat, i: nat, y: Text, open: nat, close: nat)
    requires Copies(x, t, p, i, y) && p <= open < close < i && PairAt(t, 'r', '(', open)
    requires IndexOf(t, ')', open + 2) == Some(close) && ParseLong(t[open + 2..close]).None?
    ensures First(x, open - p) == First(x, close - p)
  {
    hide FirstAt, ParseLong, IndexOf;
    var o, c, arg := open - p, close - p, t[open + 2..close];
    assert PairAt(x, 'r', '(', o);
    PairIsAt(x, 'r', '(', o, o);
    SameClose(x, t, p, i, y, open + 2, close);
    SameSlice(x, t, p, i, y, open + 2, close);
    hide Copies;
    AtClose(x, o, c, arg);
  }

  /** The first placeholder lies at the leftmost `r(`, or behind its `)`. */
  lemma {:induction false} FirstCases(t: Text, q: nat, x: Placeholder)
    requires q <= |t| && First(t, q) == Some(x)
    ensures var open := IndexOfPair(t, 'r', '(', q);
      && open.Some?
      && var close := IndexOf(t, ')', open.value + 2);
      && close.Some?
      && (open.value == x.start ||
          (ParseLong(t[open.value + 2..close.value]).None? && First(t, close.value) == Some(x) && close.value < x.start))
  {
    hide ParseLong, IndexOf, IndexOfPair;
    var open := IndexOfPair(t, 'r', '(', q).value;
    var close := IndexOf(t, ')', open + 2).value;
    AtClose(t, open, close, t[open + 2..close]);
  }

  /** Scanning a text that repeats t up to its first placeholder, or up to an `r` right before it, runs
      through to the cut. */
  lemma {:induction false} RunToCut(x: Text, t: Text, p: nat, ph: Placeholder, i: nat, y: Text, q: nat)
    requires p <= q <= i <= ph.start < |t| && First(t, q) == Some(ph)
    requires i == ph.start || (i + 1 == ph.start && t[i] == 'r')
    requires Copies(x, t, p, i, y) && CleanCut(t, p, i, y)
    ensures First(x, q - p) == First(x, i - p)
    decreases |t| - q
  {
    hide First, FirstAt, IndexOfPair, IndexOf, ParseLong;
    FirstCases(t, q, ph);
    var open := IndexOfPair(t, 'r', '(', q).value;
    var to := if open == ph.start then i else open;
    SamePair(x, t, p, i, y, q, to);
    SkipToOpen(x, q - p, to - p);
    if open != ph.start {
      var close := IndexOf(t, ')', open + 2).value;
      StepOver(x, t, p, i, y, open, close);
      RunToCut(x, t, p, ph, i, y, close);
    }
  }

  // ----- The expansion up to its first closing bracket -----

  /** What an expansion holds before its first `)`, and where in the source text that `)` stands. */
  datatype Cut = Cut(text: Text, close: nat)

  const ZEROS: Stream := (k: nat) => 0

  function FirstClose(t: Text, p: nat): (r: Option<Cut>)
    requires p <= |t|
    ensures r.Some? ==> p <= r.value.close < |t|
    decreases |t| - p
  {
    match IndexOf(t, ')', p)
    case None => None
    case Some(c) =>
      if First(t, p).None? || c < First(t, p).value.start then Some(Cut(t[p..c], c))
      else
        var x := First(t, p).value;
        match FirstClose(t, x.end + 1)
        case None => None
        case Some(cut) => Some(cut.(text := t[p..x.start] + Digits(ZEROS, 0, x.value) + cut.text))
  }

  /** The search may go on at a `)` that stands before the first placeholder. */
  lemma ResumeAtClose(t: Text, p: nat, c: nat)
    requires p <= |t| && IndexOf(t, ')', p) == Some(c) && (First(t, p).Some? ==> c < First(t, p).value.start)
    ensures First(t, c) == First(t, p)
  {
    hide FirstAt, IndexOfPair, IndexOf, ParseLong;
    var open := IndexOfPair(t, 'r', '(', p);
    if open.None? || c <= open.value {
      SkipToOpen(t, p, c);
    } else {
      assert open.value + 2 <= c;
      assert IndexOf(t, ')', open.value + 2) == Some(c);
      AtClose(t, open.value, c, t[open.value + 2..c]);
    }
  }

  /** Two texts that differ at most in which digit stands where a digit stands. */
  ghost predicate SameShape(u: Text, v: Text) {
    |u| == |v| && forall i :: 0 <= i < |u| ==> u[i] == v[i] || (IsDigit(u[i]) && IsDigit(v[i]))
  }

  lemma ShapeConcat(a: Text, b: Text, c: Text, a': Text, b': Text, c': Text)
    requires SameShape(a, a') && SameShape(b, b') && SameShape(c, c')
    ensures SameShape(a + b + c, a' + b' + c')
  {
  }

  lemma {:induction false} ShapeParses(a: Text, b: Text)
    requires SameShape(a, b)
    ensures SameShape(SkipSpace(a), SkipSpace(b)) && ParseLong(a).Some? == ParseLong(b).Some?
    decreases |a|
  {
    hide LeadingDigits;
    if a != [] && IsSpace(a[0]) { ShapeParses(a[1..], b[1..]); }
  }

  lemma NoneInConcat(a: Text, b: Text, c: Text, x: char)
    requires x !in a && x !in b && x !in c
    ensures x !in a + b + c
  {
  }

  /** The expansion of t[p..] is front and then the expansion from its first `)` on; front has the
      shape FirstClose tells. */
  ghost predicate ClosesAfter(t: Text, p: nat, ds: Stream, k: nat, front: Text, used: nat)
    requires p <= |t|
  {
    && ')' !in front
    && match FirstClose(t, p)
       case None => front == Expand(t, p, ds, k)
       case Some(cut) =>
         && SameShape(front, cut.text) && t[cut.close] == ')'
         && Expand(t, p, ds, k) == front + Expand(t, cut.close, ds, used)
  }

  /** FirstClose is exact for every digit stream. */
  lemma {:induction false} FirstCloseIsExact(t: Text, p: nat, ds: Stream, k: nat) returns (front: Text, used: nat)
    requires p <= |t|
    ensures ClosesAfter(t, p, ds, k, front, used)
    decreases |t| - p
  {
    hide First, FirstAt, IndexOfPair, IndexOf, ParseLong, Digits, DigitChar, Expand, ClosesAfter, FirstClose;
    var close := IndexOf(t, ')', p);
    if close.None? || First(t, p).None? || close.value < First(t, p).value.start {
      ClosesInLiteral(t, p, ds, k);
      front, used := if close.None? then t[p..] else t[p..close.value], k;
    } else {
      var x := First(t, p).value;
      var front', used' := FirstCloseIsExact(t, x.end + 1, ds, k + x.value);
      ClosesLater(t, p, x, ds, k, front', used');
      front, used := t[p..x.start] + Digits(ds, k, x.value) + front', used';
    }
  }

  lemma {:induction false} ClosesInLiteral(t: Text, p: nat, ds: Stream, k: nat)
    requires p <= |t|
    requires IndexOf(t, ')', p).Some? && First(t, p).Some? ==> IndexOf(t, ')', p).value < First(t, p).value.start
    ensures var close := IndexOf(t, ')', p);
      ClosesAfter(t, p, ds, k, if close.None? then t[p..] else t[p..close.value], k)
  {
    hide First, FirstAt, IndexOfPair, IndexOf, ParseLong, Digits, Expand;
    ExpandAt(t, p, ds, k);
    if IndexOf(t, ')', p).Some? {
      var c := IndexOf(t, ')', p).value;
      ResumeAtClose(t, p, c);
      SplitAt(t, p, c, ds, k);
    }
  }

  lemma {:induction false} ClosesLater(t: Text, p: nat, x: Placeholder, ds: Stream, k: nat, front: Text, used: nat)
    requires p <= |t| && First(t, p) == Some(x) && IndexOf(t, ')', p).Some? && x.start <= IndexOf(t, ')', p).value
    requires ClosesAfter(t, x.end + 1, ds, k + x.value, front, used)
    ensures ClosesAfter(t, p, ds, k, t[p..x.start] + Digits(ds, k, x.value) + front, used)
  {
    hide First, FirstAt, IndexOfPair, IndexOf, ParseLong, Digits, DigitChar, Expand, IsDigit, SameShape;
    var head, digits := t[p..x.start], Digits(ds, k, x.value);
    ExpandAt(t, p, ds, k);
    NoCloseIn(t, p, IndexOf(t, ')', p).value, x);
    DigitsOnly(ds, k, x.value);
    DigitsOnly(ZEROS, 0, x.value);
    NoneInConcat(head, digits, front, ')');
    if FirstClose(t, x.end + 1).Some? {
      var cut := FirstClose(t, x.end + 1).value;
      Regroup(head + digits, front, Expand(t, cut.close, ds, used));
      ShapeOfPieces(head, digits, Digits(ZEROS, 0, x.value), front, cut.text);
    }
  }

  lemma NoCloseIn(t: Text, p: nat, c: nat, x: Placeholder)
    requires p <= |t| && First(t, p) == Some(x) && IndexOf(t, ')', p) == Some(c) && x.start <= c
    ensures ')' !in t[p..x.start]
  {
  }

  lemma DigitsOnly(ds: Stream, k: nat, n: nat)
    ensures |Digits(ds, k, n)| == n && ')' !in Digits(ds, k, n) && forall d <- Digits(ds, k, n) :: IsDigit(d)
  {
  }

  lemma {:induction false} ShapeOfPieces(head: Text, digits: Text, zeros: Text, front: Text, text: Text)
    requires |digits| == |zeros| && (forall d <- digits :: IsDigit(d)) && (forall d <- zeros :: IsDigit(d))
    requires SameShape(front, text)
    ensures SameShape(head + digits + front, head + zeros + text)
  {
    assert forall i | 0 <= i < |digits| :: digits[i] in digits && zeros[i] in zeros;
    ShapeConcat(head, digits, front, head, zeros, text);
  }

  lemma {:induction false} SplitAt(t: Text, p: nat, c: nat, ds: Stream, k: nat)
    requires p <= c <= |t| && First(t, c) == First(t, p)
    ensures Expand(t, p, ds, k) == t[p..c] + Expand(t, c, ds, k)
  {
    hide First, Digits, Expand;
    if First(t, p).Some? {
      var x := First(t, p).value;
      ExpandFrom(t, p, x, ds, k);
      ExpandFrom(t, c, x, ds, k);
      SplitSlice(t, p, c, x.start, Digits(ds, k, x.value), Expand(t, x.end + 1, ds, k + x.value));
    } else {
      ExpandRest(t, p, ds, k);
      ExpandRest(t, c, ds, k);
      SliceToEnd(t, p, c);
    }
  }

  lemma {:induction false} ExpandRest(t: Text, p: nat, ds: Stream, k: nat)
    requires p <= |t| && First(t, p) == None
    ensures Expand(t, p, ds, k) == t[p..]
  {
    hide First;
  }

  lemma SliceToEnd(t: Text, p: nat, c: nat)
    requires p <= c <= |t|
    ensures t[p..] == t[p..c] + t[c..]
  {
  }

  lemma SplitSlice(t: Text, p: nat, c: nat, e: nat, digits: Text, rest: Text)
    requires p <= c <= e <= |t|
    ensures t[p..e] + digits + rest == t[p..c] + (t[c..e] + digits + rest)
  {
    assert t[p..e] == t[p..c] + t[c..e];
    RegroupThree(t[p..c], t[c..e], digits, rest);
  }

  // ----- When a second expansion finds something -----

  predicate Bracketed(y: Text) { y != [] && y[0] == '(' }

  /** Some placeholder of length zero leaves an `r` and a `(` as neighbours, with a number from there
      to the next `)` that is left. When what stands there is no number, that `)` ends the search for
      it, as in the first expansion. */
  predicate Rejoins(t: Text, p: nat)
    requires p <= |t|
    decreases |t| - p
  {
    match First(t, p)
    case None => false
    case Some(x) =>
      match FirstClose(t, x.end + 1)
      case None => false
      case Some(cut) =>
        if x.value == 0 && p < x.start && t[x.start - 1] == 'r' && Bracketed(cut.text)
        then ParseLong(cut.text[1..]).Some? || Rejoins(t, cut.close)
        else Rejoins(t, x.end + 1)
  }

  lemma NothingWithoutClose(t: Text, p: nat)
    requires p <= |t| && forall j :: p <= j < |t| ==> t[j] != ')'
    ensures First(t, p).None?
  {
    hide First;
  }

  /** Digits open nothing: the search runs through them. */
  lemma RunThroughDigits(x: Text, head: Text, digits: Text, rest: Text)
    requires x == head + digits + rest && forall d <- digits :: IsDigit(d)
    ensures First(x, |head|) == Shifted(First(rest, 0), |head| + |digits|)
  {
    hide First, FirstAt, IndexOfPair, IndexOf, ParseLong;
    forall j | |head| <= j < |head| + |digits| ensures !PairAt(x, 'r', '(', j) {
      assert x[j] == digits[j - |head|] && digits[j - |head|] in digits;
    }
    SkipToOpen(x, |head|, |head| + |digits|);
    FirstShifts(head + digits, rest, 0);
  }

  lemma NothingInTail(t: Text, p: nat)
    requires p <= |t| && First(t, p).None?
    ensures First(t[p..], 0).None?
  {
    hide First, FirstAt;
    FirstShifts(t[..p], t[p..], 0);
    assert t[..p] + t[p..] == t;
  }

  /** At a clean cut the search of the output goes on behind the digits. */
  lemma CleanStep(t: Text, p: nat, ph: Placeholder, digits: Text, rest: Text, out: Text)
    requires p <= |t| && First(t, p) == Some(ph) && (forall d <- digits :: IsDigit(d))
    requires out == t[p..ph.start] + digits + rest
    requires !(digits == [] && Bracketed(rest) && p < ph.start && t[ph.start - 1] == 'r')
    ensures First(out, 0).Some? <==> First(rest, 0).Some?
  {
    hide First, FirstAt, IndexOfPair, IndexOf, ParseLong;
    var head, y := t[p..ph.start], digits + rest;
    assert out == head + y;
    assert digits != [] ==> y[0] == digits[0] && digits[0] in digits;
    assert digits == [] ==> y == rest;
    RunToCut(out, t, p, ph, ph.start, y, p);
    RunThroughDigits(out, head, digits, rest);
  }

  /** At a joined `r` and `(` the search reads on to the next `)`. */
  lemma JoinStep(t: Text, p: nat, ph: Placeholder, front: Text, tail: Text, out: Text)
    requires p < ph.start < |t| && First(t, p) == Some(ph) && t[ph.start - 1] == 'r'
    requires out == t[p..ph.start] + (front + tail)
    requires Bracketed(front) && ')' !in front && tail != [] && tail[0] == ')'
    ensures First(out, 0).Some? <==> ParseLong(front[1..]).Some? || First(tail, 0).Some?
  {
    hide First, FirstAt, IndexOfPair, IndexOf, ParseLong;
    var i := ph.start - 1;
    var y := "r" + front + tail;
    assert t[p..ph.start] == t[p..i] + "r";
    assert out == t[p..i] + y;
    RunToCut(out, t, p, ph, i, y, p);
    FirstShifts(t[p..i], y, 0);
    assert PairAt(y, 'r', '(', 0);
    FirstOpens(y, 0);
    JoinedArgument(y, front, tail);
  }

  lemma {:induction false} JoinedArgument(y: Text, front: Text, tail: Text)
    requires y == "r" + front + tail
    requires Bracketed(front) && ')' !in front && tail != [] && tail[0] == ')'
    ensures PairAt(y, 'r', '(', 0)
    ensures FirstAt(y, 0).Some? <==> ParseLong(front[1..]).Some? || First(tail, 0).Some?
  {
    hide First, FirstAt, IndexOf, ParseLong;
    var close := 1 + |front|;
    assert forall j | 2 <= j < close :: y[j] == front[j - 1] && front[j - 1] in front;
    assert y[close] == tail[0];
    assert IndexOf(y, ')', 2) == Some(close);
    assert y[2..close] == front[1..];
    AtClose(y, 0, close, front[1..]);
    FirstShifts("r" + front, tail, 0);
  }

  /** The output of an expansion holds a placeholder exactly when the text rejoins one, whatever digits
      were drawn. */
  lemma {:induction false} RescanExact(t: Text, p: nat, ds: Stream, k: nat)
    requires p <= |t|
    ensures First(Expand(t, p, ds, k), 0).Some? <==> Rejoins(t, p)
    decreases |t| - p
  {
    hide First, FirstAt, IndexOfPair, IndexOf, ParseLong, Digits, DigitChar, Expand, FirstClose, IsDigit, SameShape;
    if First(t, p).None? {
      ExpandRest(t, p, ds, k);
      NothingInTail(t, p);
      return;
    }
    var ph := First(t, p).value;
    var next, used := ph.end + 1, k + ph.value;
    var digits, rest, out := Digits(ds, k, ph.value), Expand(t, next, ds, used), Expand(t, p, ds, k);
    ExpandFrom(t, p, ph, ds, k);
    DigitsOnly(ds, k, ph.value);
    var front, used' := FirstCloseIsExact(t, next, ds, used);
    if FirstClose(t, next).None? {
      JoinNothing(t, p, ph, digits, rest, out);
      return;
    }
    var cut := FirstClose(t, next).value;
    var tail := Expand(t, cut.close, ds, used');
    StartsAtClose(t, cut.close, ds, used');
    RescanStep(t, p, ph, digits, front, tail, cut.text, out);
    if ph.value == 0 && p < ph.start && t[ph.start - 1] == 'r' && Bracketed(cut.text) {
      RescanExact(t, cut.close, ds, used');
    } else {
      RescanExact(t, next, ds, used);
    }
  }

  /** The search of the output, behind the digits or from the next `)` that is left. */
  lemma RescanStep(t: Text, p: nat, ph: Placeholder, digits: Text, front: Text, tail: Text, shape: Text, out: Text)
    requires p <= |t| && First(t, p) == Some(ph) && |digits| == ph.value && forall d <- digits :: IsDigit(d)
    requires out == t[p..ph.start] + digits + (front + tail)
    requires SameShape(front, shape) && ')' !in front && tail != [] && tail[0] == ')'
    ensures First(out, 0).Some? <==>
      if ph.value == 0 && p < ph.start && t[ph.start - 1] == 'r' && Bracketed(shape)
      then ParseLong(shape[1..]).Some? || First(tail, 0).Some?
      else First(front + tail, 0).Some?
  {
    hide First, FirstAt, IndexOfPair, IndexOf, ParseLong, IsDigit;
    BracketedShape(front, shape);
    BracketedFront(front, tail, shape);
    hide SameShape;
    if ph.value == 0 && p < ph.start && t[ph.start - 1] == 'r' && Bracketed(shape) {
      assert t[p..ph.start] + digits == t[p..ph.start];
      JoinStep(t, p, ph, front, tail, out);
    } else {
      CleanStep(t, p, ph, digits, front + tail, out);
    }
  }

  /** No `)` is left behind the placeholder: nothing can close. */
  lemma JoinNothing(t: Text, p: nat, ph: Placeholder, digits: Text, rest: Text, out: Text)
    requires p <= |t| && First(t, p) == Some(ph) && (forall d <- digits :: IsDigit(d))
    requires out == t[p..ph.start] + digits + rest && ')' !in rest
    ensures First(out, 0).None?
  {
    hide First, FirstAt, IndexOfPair, IndexOf, ParseLong;
    var head := t[p..ph.start];
    if digits == [] && Bracketed(rest) && p < ph.start && t[ph.start - 1] == 'r' {
      var y := "r" + rest;
      assert head == t[p..ph.start - 1] + "r";
      assert out == t[p..ph.start - 1] + y;
      RunToCut(out, t, p, ph, ph.start - 1, y, p);
      assert forall j | ph.start - 1 - p < j < |out| :: out[j] == rest[j - (ph.start - p)];
      NothingWithoutClose(out, ph.start - 1 - p);
    } else {
      CleanStep(t, p, ph, digits, rest, out);
      NothingWithoutClose(rest, 0);
    }
  }

  lemma StartsAtClose(t: Text, c: nat, ds: Stream, k: nat)
    requires c < |t| && t[c] == ')'
    ensures Expand(t, c, ds, k) != [] && Expand(t, c, ds, k)[0] == ')'
  {
  }

  lemma BracketedShape(u: Text, v: Text)
    requires SameShape(u, v)
    ensures Bracketed(u) == Bracketed(v)
    ensures Bracketed(u) ==> ParseLong(u[1..]).Some? == ParseLong(v[1..]).Some?
  {
    if Bracketed(u) { ShapeParses(u[1..], v[1..]); }
  }

  lemma BracketedFront(front: Text, tail: Text, shape: Text)
    requires SameShape(front, shape) && tail != [] && tail[0] == ')'
    ensures Bracketed(front + tail) == Bracketed(shape)
  {
  }

  /** Each placeholder takes an `r` out of the text, and digits bring none in. */
  lemma {:induction false} FewerR(t: Text, p: nat, ds: Stream, k: nat)
    requires p <= |t|
    ensures multiset(Expand(t, p, ds, k))['r'] <= multiset(t[p..])['r']
    ensures First(t, p).Some? ==> multiset(Expand(t, p, ds, k))['r'] < multiset(t[p..])['r']
    decreases |t| - p
  {
    hide First, Digits, Expand;
    if First(t, p).Some? {
      var x := First(t, p).value;
      FewerR(t, x.end + 1, ds, k + x.value);
      FewerRAt(t, p, x, ds, k);
    } else {
      ExpandAt(t, p, ds, k);
    }
  }

  lemma {:induction false} FewerRAt(t: Text, p: nat, x: Placeholder, ds: Stream, k: nat)
    requires p <= |t| && First(t, p) == Some(x)
    requires multiset(Expand(t, x.end + 1, ds, k + x.value))['r'] <= multiset(t[x.end + 1..])['r']
    ensures multiset(Expand(t, p, ds, k))['r'] < multiset(t[p..])['r']
  {
    hide First, Digits, Expand, IsDigit;
    ExpandFrom(t, p, x, ds, k);
    DigitsOnly(ds, k, x.value);
    FewerRInPieces(t, p, x.start, x.end + 1, Digits(ds, k, x.value), Expand(t, x.end + 1, ds, k + x.value));
  }

  lemma {:induction false} ExpandFrom(t: Text, p: nat, x: Placeholder, ds: Stream, k: nat)
    requires p <= |t| && First(t, p) == Some(x)
    ensures Expand(t, p, ds, k) == t[p..x.start] + Digits(ds, k, x.value) + Expand(t, x.end + 1, ds, k + x.value)
  {
    hide First, Digits;
  }

  lemma FewerRInPieces(t: Text, p: nat, start: nat, next: nat, digits: Text, rest: Text)
    requires p <= start < next <= |t| && t[start] == 'r' && forall d <- digits :: IsDigit(d)
    requires multiset(rest)['r'] <= multiset(t[next..])['r']
    ensures multiset(t[p..start] + digits + rest)['r'] < multiset(t[p..])['r']
  {
    var mid := t[start..next];
    assert t[p..] == t[p..start] + mid + t[next..];
    assert mid[0] == 'r';
    assert 'r' !in digits;
  }

  /** Only a text without placeholders is its own expansion. */
  lemma FixedIffNothingFound(t: Text, ds: Stream)
    ensures Expand(t, 0, ds, 0) == t <==> First(t, 0).None?
  {
    hide First;
    FewerR(t, 0, ds, 0);
    assert t[0..] == t;
  }

  /** Expansion is idempotent exactly when nothing rejoins; the second time may use other digits. */
  lemma ExpandIsIdempotent(t: Text, ds: Stream, ds': Stream)
    ensures Expand(Expand(t, 0, ds, 0), 0, ds', 0) == Expand(t, 0, ds, 0) <==> !Rejoins(t, 0)
  {
    hide First, Expand, Rejoins;
    RescanExact(t, 0, ds, 0);
    FixedIffNothingFound(Expand(t, 0, ds, 0), ds');
  }

  const ONES: Stream := (k: nat) => 1

  /** Where z and o agree w does too; elsewhere z has the digit 0, o the digit 1, and w some digit. */
  ghost predicate Mixed(w: Text, z: Text, o: Text) {
    && |w| == |z| == |o|
    && forall i :: 0 <= i < |w| ==> w[i] == z[i] == o[i] || (z[i] == '0' && o[i] == '1' && IsDigit(w[i]))
  }

  lemma MixedConcat(a: Text, w: Text, z: Text, o: Text, w': Text, z': Text, o': Text)
    requires Mixed(w, z, o) && Mixed(w', z', o')
    ensures Mixed(a + w + w', a + z + z', a + o + o')
  {
  }

  /** Two digit streams tell for every character of the expansion whether it is drawn: the expansion
      with any other stream is the same but for the drawn ones. */
  lemma {:induction false} TwoStreamsTellAll(t: Text, p: nat, ds: Stream, k: nat)
    requires p <= |t|
    ensures Mixed(Expand(t, p, ds, k), Expand(t, p, ZEROS, k), Expand(t, p, ONES, k))
    decreases |t| - p
  {
    hide First, Expand, Digits, DigitChar;
    ExpandAt(t, p, ds, k);
    ExpandAt(t, p, ZEROS, k);
    ExpandAt(t, p, ONES, k);
    if First(t, p).Some? {
      var x := First(t, p).value;
      TwoStreamsTellAll(t, x.end + 1, ds, k + x.value);
      MixedDigits(ds, k, x.value);
      hide Mixed;
      MixedConcat(t[p..x.start], Digits(ds, k, x.value), Digits(ZEROS, k, x.value), Digits(ONES, k, x.value),
        Expand(t, x.end + 1, ds, k + x.value), Expand(t, x.end + 1, ZEROS, k + x.value), Expand(t, x.end + 1, ONES, k + x.value));
    }
  }

  lemma MixedDigits(ds: Stream, k: nat, n: nat)
    ensures Mixed(Digits(ds, k, n), Digits(ZEROS, k, n), Digits(ONES, k, n))
  {
  }

  /** In particular when every placeholder asks for at least one digit. */
  lemma {:induction false} PositiveNeverRejoins(t: Text, p: nat)
    requires p <= |t| && forall x <- Placeholders(t, p) :: x.value >= 1
    ensures !Rejoins(t, p)
    decreases |t| - p
  {
    match First(t, p)
    case None =>
    case Some(x) =>
      assert Placeholders(t, p) == [x] + Placeholders(t, x.end);
      SkipToOpen(t, x.end, x.end + 1);
      PositiveNeverRejoins(t, x.end + 1);
  }

  // ----- The notation -----

  lemma ExpandAt(t: Text, p: nat, ds: Stream, k: nat)
    requires p <= |t|
    ensures Expand(t, p, ds, k) ==
      match First(t, p)
      case None => t[p..]
      case Some(x) => t[p..x.start] + Digits(ds, k, x.value) + Expand(t, x.end + 1, ds, k + x.value)
  {
  }

  lemma SliceShifts(a: Text, b: Text, i: nat, j: nat)
    requires i <= j <= |b|
    ensures (a + b)[|a| + i..|a| + j] == b[i..j] && (a + b)[|a| + i..] == b[i..]
  {
  }

  lemma {:induction false} ExpandShifts(a: Text, b: Text, q: nat, ds: Stream, k: nat)
    requires q <= |b|
    ensures Expand(a + b, |a| + q, ds, k) == Expand(b, q, ds, k)
    decreases |b| - q
  {
    hide First, Digits, Expand;
    FirstShifts(a, b, q);
    if First(b, q).Some? {
      var x := First(b, q).value;
      ExpandShifts(a, b, x.end + 1, ds, k + x.value);
      assert |a| + (x.end + 1) == |a| + x.end + 1;
    }
    ExpandShiftsOnce(a, b, q, ds, k);
  }

  lemma {:induction false} ExpandShiftsOnce(a: Text, b: Text, q: nat, ds: Stream, k: nat)
    requires q <= |b| && First(a + b, |a| + q) == Shifted(First(b, q), |a|)
    requires First(b, q).Some? ==>
      var x := First(b, q).value;
      Expand(a + b, |a| + x.end + 1, ds, k + x.value) == Expand(b, x.end + 1, ds, k + x.value)
    ensures Expand(a + b, |a| + q, ds, k) == Expand(b, q, ds, k)
  {
    hide First, Digits, Expand;
    ExpandAt(a + b, |a| + q, ds, k);
    ExpandAt(b, q, ds, k);
    var x := First(b, q);
    var start := if x.Some? then x.value.start else |b|;
    SliceShifts(a, b, q, start);
    if x.Some? {
      assert First(a + b, |a| + q).value == Placeholder(|a| + start, |a| + x.value.end, x.value.value);
      assert (a + b)[|a| + q..|a| + start] == b[q..start];
    } else {
      assert First(a + b, |a| + q).None?;
      assert (a + b)[|a| + q..] == b[q..];
    }
  }

  /** `r(` arg `)` behind a literal without `r(`, where arg reads as a number v: the literal, then min(v, 64)
      digits as drawn, none for a negative v, then whatever the rest expands to with the digits that
      follow. */
  lemma NumberPlaceholder(lit: Text, arg: Text, v: int, rest: Text, ds: Stream, k: nat) returns (digits: Text)
    requires FreeOf(lit, 'r', '(') && ')' !in arg && ParseLong(arg) == Some(v)
    ensures |digits| == if v <= 0 then 0 else if v <= 64 then v else 64
    ensures forall i :: 0 <= i < |digits| ==> digits[i] as int == 0x30 + ds(k + i)
    ensures Expand(lit + "r(" + arg + ")" + rest, 0, ds, k) == lit + digits + Expand(rest, 0, ds, k + |digits|)
  {
    hide First, Expand, ParseLong;
    var head := lit + "r(" + arg + ")";
    var t := head + rest;
    digits := Digits(ds, k, Clamp(v));
    FirstNumber(t, lit, arg, v, rest);
    ExpandAt(t, 0, ds, k);
    ExpandShifts(head, rest, 0, ds, k + Clamp(v));
    assert t[0..|lit|] == lit;
  }

  /** In particular a printed number, after blanks and a sign and before anything but a digit. */
  lemma DecimalPlaceholder(lit: Text, sp: Text, sign: Text, n: nat, junk: Text, rest: Text, ds: Stream, k: nat)
    returns (digits: Text)
    requires FreeOf(lit, 'r', '(') && Blank(sp) && Sign(sign)
    requires EndsNumber(junk) && ')' !in junk
    ensures |digits| == if sign == "-" then 0 else if n <= 64 then n else 64
    ensures forall i :: 0 <= i < |digits| ==> digits[i] as int == 0x30 + ds(k + i)
    ensures Expand(lit + "r(" + (sp + sign + Decimal(n) + junk) + ")" + rest, 0, ds, k)
      == lit + digits + Expand(rest, 0, ds, k + |digits|)
  {
    hide Expand, ParseLong, Decimal;
    ParseSigned(sp, sign, n, junk);
    var arg := sp + sign + Decimal(n) + junk;
    forall i | 0 <= i < |arg| ensures arg[i] != ')' {
      assert arg[i] in sp || arg[i] in sign || arg[i] in Decimal(n) || arg[i] in junk;
    }
    digits := NumberPlaceholder(lit, arg, Signed(sign, n), rest, ds, k);
  }

  /** Where arg reads as no number the text stays, and the search goes on from its `)`. */
  lemma NoNumberStays(lit: Text, arg: Text, rest: Text, ds: Stream, k: nat)
    requires FreeOf(lit, 'r', '(') && ')' !in arg && ParseLong(arg) == None
    ensures Expand(lit + "r(" + arg + ")" + rest, 0, ds, k) == lit + "r(" + arg + Expand(")" + rest, 0, ds, k)
  {
    hide First, FirstAt, Expand, ParseLong, IndexOf, IndexOfPair;
    var head, tail := lit + "r(" + arg, ")" + rest;
    var t := head + tail;
    assert t == lit + "r(" + arg + ")" + rest;
    OpensAt(t, lit, arg, rest);
    AtClose(t, |lit|, |head|, arg);
    SplitAt(t, 0, |head|, ds, k);
    assert t[0..|head|] == head;
    ExpandShifts(head, tail, 0, ds, k);
  }

  /** A text without `r(` stays, and so does one without `)` behind its first `r(`. */
  lemma UnclosedStays(lit: Text, tail: Text, ds: Stream, k: nat)
    requires FreeOf(lit, 'r', '(') && ')' !in tail
    ensures Expand(lit, 0, ds, k) == lit
    ensures Expand(lit + "r(" + tail, 0, ds, k) == lit + "r(" + tail
  {
    hide First, FirstAt, Expand, IndexOf, IndexOfPair;
    SkipToOpen(lit, 0, |lit|);
    NothingFoundAtEnd(lit);
    ExpandAt(lit, 0, ds, k);
    var t := lit + "r(" + tail;
    forall i | 0 <= i < |lit| ensures !PairAt(t, 'r', '(', i) {
      assert !PairAt(lit, 'r', '(', i) && t[i] == lit[i];
    }
    SkipToOpen(t, 0, |lit|);
    forall j | |lit| <= j < |t| ensures t[j] != ')' {
      assert j >= |lit| + 2 ==> t[j] == tail[j - |lit| - 2];
    }
    NothingWithoutClose(t, |lit|);
    ExpandAt(t, 0, ds, k);
    assert lit[0..] == lit && t[0..] == t;
  }

  lemma NothingFoundAtEnd(t: Text)
    ensures First(t, |t|).None?
  {
  }

  /** The first `r(` and its `)`. */
  lemma OpensAt(t: Text, lit: Text, arg: Text, rest: Text)
    requires FreeOf(lit, 'r', '(') && ')' !in arg && t == lit + "r(" + arg + ")" + rest
    ensures var (open, close) := (|lit|, |lit| + 2 + |arg|);
      && PairAt(t, 'r', '(', open) && IndexOf(t, ')', open + 2) == Some(close) && t[open + 2..close] == arg
      && First(t, 0) == FirstAt(t, open)
  {
    hide IndexOfPair, IndexOf, First, FirstAt;
    var open, close := |lit|, |lit| + 2 + |arg|;
    forall i | 0 <= i < open ensures !PairAt(t, 'r', '(', i) {
      assert !PairAt(lit, 'r', '(', i) && t[i] == lit[i];
    }
    assert PairAt(t, 'r', '(', open);
    SkipToOpen(t, 0, open);
    FirstOpens(t, open);
    forall i | open + 2 <= i < close ensures t[i] != ')' {
      assert t[i] == arg[i - open - 2] && arg[i - open - 2] in arg;
    }
    assert t[close] == ')';
    assert t[open + 2..close] == arg;
  }

  lemma FirstNumber(t: Text, lit: Text, arg: Text, v: int, rest: Text)
    requires FreeOf(lit, 'r', '(') && ')' !in arg && ParseLong(arg) == Some(v) && t == lit + "r(" + arg + ")" + rest
    ensures First(t, 0) == Some(Placeholder(|lit|, |lit| + 2 + |arg|, Clamp(v)))
  {
    hide IndexOfPair, IndexOf, First, FirstAt, ParseLong;
    OpensAt(t, lit, arg, rest);
    AtClose(t, |lit|, |lit| + 2 + |arg|, arg);
  }

  lemma FirstOpens(t: Text, open: nat)
    requires PairAt(t, 'r', '(', open)
    ensures First(t, open) == FirstAt(t, open)
  {
    PairIsAt(t, 'r', '(', open, open);
  }

  /** The smallest kind of text that rejoins: `rr(0)(5)` expands to the placeholder `r(5)`. */
  lemma ZeroLengthJoins(ds: Stream)
    ensures Rejoins("rr(0)(5)", 0)
    ensures Expand("rr(0)(5)", 0, ds, 0) == "r(5)" && First("r(5)", 0) == Some(Placeholder(0, 3, 5))
  {
    hide First, FirstAt, IndexOf, IndexOfPair, ParseLong, Rejoins, Expand;
    JoinedPieces();
    ExpandAt("rr(0)(5)", 0, ds, 0);
    ExpandAt("rr(0)(5)", 5, ds, 0);
    assert Expand("rr(0)(5)", 5, ds, 0) == "(5)";
    assert Expand("rr(0)(5)", 0, ds, 0) == "r(5)";
    RescanExact("rr(0)(5)", 0, ds, 0);
  }

  lemma JoinedPieces()
    ensures First("rr(0)(5)", 0) == Some(Placeholder(1, 4, 0)) && First("rr(0)(5)", 5).None?
    ensures First("r(5)", 0) == Some(Placeholder(0, 3, 5))
  {
    var t := "rr(0)(5)";
    PairIsAt(t, 'r', '(', 0, 1);
    AtClose(t, 1, 4, "0");
    SkipToOpen(t, 5, |t|);
    AtClose("r(5)", 0, 3, "5");
  }
}
