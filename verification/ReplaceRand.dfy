/** `replace`: expansion of `r(N)` placeholders into N random digits. The random generator is an
    arbitrary stream of digits; the expansion consumes a prefix of it, in order. */
module ReplaceRand {
  import opened Collections
  import opened Numerals
  import opened Texts

  const MIN_LEN := 0
  const MAX_LEN := 64
  const COMPLETED_MIN_LEN := 4
  const CACHE_INC_START := 4
  const CACHE_INC_SCALE := 2
  const CACHE_INC_MAX := 64

  type Stream = nat -> Digit

  function Clamp(v: int): (n: nat)
    ensures MIN_LEN <= n <= MAX_LEN
  {
    if v < MIN_LEN then MIN_LEN else if v > MAX_LEN then MAX_LEN else v
  }

  // ----- The reference definition -----

  datatype Placeholder = Placeholder(start: nat, end: nat, value: nat)

  /** The first placeholder of t[p..]. */
  function First(t: Text, p: nat): (r: Option<Placeholder>)
    requires p <= |t|
    ensures r.Some? ==> p <= r.value.start && r.value.start + 3 <= r.value.end < |t|
    ensures r.Some? ==> PairAt(t, 'r', '(', r.value.start) && t[r.value.end] == ')' && r.value.value <= MAX_LEN
    decreases |t| - p, 1
  {
    match IndexOfPair(t, 'r', '(', p)
    case None => None
    case Some(open) => FirstAt(t, open)
  }

  /** A `r(` at open extends to the next `)`; when what stands between is not a number, the search
      goes on from that `)`. */
  function FirstAt(t: Text, open: nat): (r: Option<Placeholder>)
    requires PairAt(t, 'r', '(', open)
    ensures r.Some? ==> open <= r.value.start && r.value.start + 3 <= r.value.end < |t|
    ensures r.Some? ==> PairAt(t, 'r', '(', r.value.start) && t[r.value.end] == ')' && r.value.value <= MAX_LEN
    decreases |t| - open, 0
  {
    match IndexOf(t, ')', open + 2)
    case None => None
    case Some(close) =>
      match ParseLong(t[open + 2..close])
      case Some(v) => Some(Placeholder(open, close, Clamp(v)))
      case None => First(t, close)
  }

  /** All placeholders of t[p..], in order. */
  function Placeholders(t: Text, p: nat): seq<Placeholder>
    requires p <= |t|
    decreases |t| - p
  {
    match First(t, p)
    case None => []
    case Some(x) => [x] + Placeholders(t, x.end)
  }

  function Digits(ds: Stream, k: nat, n: nat): (r: Text)
    ensures |r| == n && forall i :: 0 <= i < n ==> r[i] == DigitChar(ds(k + i))
  {
    seq(n, i requires 0 <= i => DigitChar(ds(k + i)))
  }

  /** The expansion of t[p..] when k digits of the stream are already used: literals as they stand,
      each placeholder as its clamped number of fresh digits. */
  function Expand(t: Text, p: nat, ds: Stream, k: nat): Text
    requires p <= |t|
    decreases |t| - p
  {
    match First(t, p)
    case None => t[p..]
    case Some(x) => t[p..x.start] + Digits(ds, k, x.value) + Expand(t, x.end + 1, ds, k + x.value)
  }

  // ----- Facts about the search -----

  lemma NothingFound(t: Text, ds: Stream)
    requires First(t, 0).None?
    ensures Expand(t, 0, ds, 0) == t
  {
    assert t[0..] == t;
  }

  lemma AtClose(t: Text, open: nat, close: nat, arg: Text)
    requires PairAt(t, 'r', '(', open) && IndexOf(t, ')', open + 2) == Some(close) && t[open + 2..close] == arg
    ensures FirstAt(t, open) ==
      match ParseLong(arg)
      case Some(v) => Some(Placeholder(open, close, Clamp(v)))
      case None => First(t, close)
  {
  }

  /** The search may start anywhere in a stretch in which no `r(` opens. */
  lemma SkipToOpen(t: Text, p: nat, q: nat)
    requires p <= q <= |t| && NoPairIn(t, 'r', '(', p, q)
    ensures First(t, p) == First(t, q) && Placeholders(t, p) == Placeholders(t, q)
  {
    SkipToPair(t, 'r', '(', p, q);
  }

  /** A placeholder takes at least four characters. */
  lemma TooShort(t: Text, p: nat)
    requires p <= |t| < p + COMPLETED_MIN_LEN
    ensures First(t, p).None? && Placeholders(t, p) == []
  {
  }

  /** The `r` found at q opens a placeholder only if a `(` follows. */
  lemma FoundR(t: Text, p: nat, q: nat)
    requires p <= |t| && IndexOf(t, 'r', p) == Some(q) && q + 1 < |t|
    ensures t[q + 1] == '(' ==> IndexOfPair(t, 'r', '(', p) == Some(q)
    ensures t[q + 1] != '(' ==> Placeholders(t, p) == Placeholders(t, q + 1)
  {
    if t[q + 1] == '(' {
      PairIsAt(t, 'r', '(', p, q);
    } else {
      SkipToOpen(t, p, q + 1);
    }
  }

  lemma NoR(t: Text, p: nat)
    requires p <= |t| && IndexOf(t, 'r', p).None?
    ensures Placeholders(t, p) == []
  {
    SkipToOpen(t, p, |t|);
  }

  lemma NothingAtEnd(t: Text, p: nat, q: nat)
    requires p <= |t| && IndexOf(t, 'r', p) == Some(q) && q + COMPLETED_MIN_LEN > |t|
    ensures Placeholders(t, p) == []
  {
    SkipToOpen(t, p, q);
    TooShort(t, q);
  }

  /** No `)` after the leftmost `r(`: nothing further can be complete. */
  lemma NoClose(t: Text, p: nat, open: nat)
    requires p <= |t| && IndexOfPair(t, 'r', '(', p) == Some(open) && IndexOf(t, ')', open + 2).None?
    ensures Placeholders(t, p) == Placeholders(t, open + 2) == []
  {
    assert First(t, open + 2).None?;
  }

  /** The leftmost `r(` with its `)`: a placeholder when a number stands between them, else text. */
  lemma Closed(t: Text, p: nat, open: nat, close: nat)
    requires p <= |t| && IndexOfPair(t, 'r', '(', p) == Some(open) && IndexOf(t, ')', open + 2) == Some(close)
    ensures match ParseLong(t[open + 2..close])
      case Some(v) => Placeholders(t, p) == [Placeholder(open, close, Clamp(v))] + Placeholders(t, close)
      case None => Placeholders(t, p) == Placeholders(t, close)
  {
    match ParseLong(t[open + 2..close])
    case Some(v) =>
      assert First(t, p) == Some(Placeholder(open, close, Clamp(v)));
    case None =>
      assert First(t, p) == First(t, close);
  }

  // ----- Pass 1: the growing cache -----

  /** The realloc'ed cache of placeholders. */
  class Cache {
    var items: array<Placeholder>
    var n: nat
    var inc: nat

    ghost predicate Valid()
      reads this, items
    {
      n <= items.Length && CACHE_INC_START <= inc <= CACHE_INC_MAX
    }

    ghost function Contents(): seq<Placeholder>
      requires Valid()
      reads this, items
    {
      items[..n]
    }

    constructor ()
      ensures Valid() && fresh(this) && fresh(items) && Contents() == []
    {
      items := new Placeholder[0];
      n, inc := 0, CACHE_INC_START;
    }

    /** Appends x; a full cache is first reallocated with the scaled increment. */
    method Push(x: Placeholder)
      requires Valid()
      modifies this, items
      ensures Valid() && (items == old(items) || fresh(items))
      ensures Contents() == old(Contents()) + [x]
    {
      n := n + 1;
      if items.Length < n {
        var grown := new Placeholder[items.Length + inc](i reads this, items =>
          if 0 <= i < items.Length then items[i] else x);
        items := grown;
        inc := inc * CACHE_INC_SCALE;
        if inc > CACHE_INC_MAX { inc := CACHE_INC_MAX; }
      }
      items[n - 1] := x;
    }
  }

  method FindPlaceholders(t: Text) returns (c: Cache)
    ensures fresh(c) && fresh(c.items) && c.Valid() && c.Contents() == Placeholders(t, 0)
  {
    hide First, FirstAt, IndexOfPair, IndexOf, Placeholders;
    c := new Cache();
    var p: nat := 0;
    ghost var done: seq<Placeholder>, rest := [], Placeholders(t, 0);
    while true
      invariant fresh(c) && fresh(c.items) && c.Valid()
      invariant c.Contents() == done
      invariant p <= |t| && rest == Placeholders(t, p)
      invariant Placeholders(t, 0) == done + rest
      decreases |t| - p
    {
      var p2 := IndexOf(t, 'r', p);
      if p2.None? {
        NoR(t, p);
        return;
      }
      if p2.value + COMPLETED_MIN_LEN > |t| {
        NothingAtEnd(t, p, p2.value);
        return;
      }
      FoundR(t, p, p2.value);
      if t[p2.value + 1] != '(' {
        p := p2.value + 1;
        if p + COMPLETED_MIN_LEN > |t| {
          TooShort(t, p);
          return;
        }
        continue;
      }
      var p3 := IndexOf(t, ')', p2.value + 2);
      if p3.None? {
        NoClose(t, p, p2.value);
        p := p2.value + 2;
        if p + COMPLETED_MIN_LEN > |t| { return; }
        continue;
      }
      Closed(t, p, p2.value, p3.value);
      var value := ParseLong(t[p2.value + 2..p3.value]);
      p := p3.value;
      if value.None? { continue; }
      var x := Placeholder(p2.value, p3.value, Clamp(value.value));
      Regroup(done, [x], Placeholders(t, p));
      done, rest := done + [x], Placeholders(t, p);
      c.Push(x);
    }
  }

  // ----- Passes 2 and 3: exact size, then the output -----

  /** Where the copying stands, and how many digits are used, after i placeholders of ps. */
  ghost function Pos(ps: seq<Placeholder>, i: nat): nat
    requires i <= |ps|
  {
    if i == 0 then 0 else ps[i - 1].end + 1
  }

  ghost function Used(ps: seq<Placeholder>, i: nat): nat
    requires i <= |ps|
  {
    if i == 0 then 0 else Used(ps, i - 1) + ps[i - 1].value
  }

  /** The search that starts behind placeholder i - 1 finds placeholder i. */
  lemma {:induction false} AtPos(t: Text, ps: seq<Placeholder>, i: nat)
    requires ps == Placeholders(t, 0) && i <= |ps|
    ensures Pos(ps, i) <= |t| && Placeholders(t, Pos(ps, i)) == ps[i..]
    ensures First(t, Pos(ps, i)) == if i < |ps| then Some(ps[i]) else None
    decreases i
  {
    hide First, FirstAt, IndexOfPair, IndexOf, ParseLong;
    if i > 0 {
      AtPos(t, ps, i - 1);
      var p, x := Pos(ps, i - 1), ps[i - 1];
      assert Placeholders(t, p) == [x] + Placeholders(t, x.end);
      assert ps[i..] == ps[i - 1..][1..];
      SkipToOpen(t, x.end, x.end + 1);
    }
    assert i < |ps| ==> ps[i..][0] == ps[i];
  }

  /** What is left of the expansion after i placeholders. */
  ghost function Rest(t: Text, ps: seq<Placeholder>, i: nat, ds: Stream): Text
    requires i <= |ps| && Pos(ps, i) <= |t|
  {
    Expand(t, Pos(ps, i), ds, Used(ps, i))
  }

  /** The recorded placeholders are exactly what the reference definition meets on its way: they lie
      in order, without overlap, and the expansion goes from one to the next. */
  lemma AtPlaceholder(t: Text, ps: seq<Placeholder>, i: nat, ds: Stream)
    requires ps == Placeholders(t, 0) && i < |ps|
    ensures Pos(ps, i) <= ps[i].start && ps[i].start + 3 <= ps[i].end < |t|
    ensures Rest(t, ps, i, ds) ==
      t[Pos(ps, i)..ps[i].start] + Digits(ds, Used(ps, i), ps[i].value) + Rest(t, ps, i + 1, ds)
  {
    hide First, FirstAt, IndexOfPair, IndexOf, ParseLong, Placeholders;
    AtPos(t, ps, i);
  }

  lemma AtTail(t: Text, ps: seq<Placeholder>, ds: Stream)
    requires ps == Placeholders(t, 0)
    ensures Pos(ps, |ps|) <= |t| && Rest(t, ps, |ps|, ds) == t[Pos(ps, |ps|)..]
  {
    AtPos(t, ps, |ps|);
  }

  method OutputSize(t: Text, c: Cache, ghost ds: Stream) returns (size: nat)
    requires c.Valid() && c.Contents() == Placeholders(t, 0)
    ensures size == |Expand(t, 0, ds, 0)|
  {
    hide First, FirstAt, Placeholders, Expand;
    size := |t|;
    ghost var ps, rest := c.Contents(), |Expand(t, 0, ds, 0)|;
    for i := 0 to c.n
      invariant Pos(ps, i) <= |t| && rest == |Rest(t, ps, i, ds)|
      invariant size == |Expand(t, 0, ds, 0)| - rest + (|t| - Pos(ps, i))
      invariant rest <= |Expand(t, 0, ds, 0)|
    {
      AtPlaceholder(t, ps, i, ds);
      var x := c.items[i];
      assert x == ps[i];
      rest := |Rest(t, ps, i + 1, ds)|;
      size := size - ((x.end - x.start) + 1);
      size := size + x.value;
    }
    AtTail(t, ps, ds);
  }

  /** `memcpy` to the write pointer. */
  method Append(out: array<char>, w: nat, s: Text) returns (w': nat)
    requires w + |s| <= out.Length
    modifies out
    ensures w' == w + |s| && out[..w'] == old(out[..w]) + s
  {
    forall i | 0 <= i < |s| { out[w + i] := s[i]; }
    w' := w + |s|;
  }

  method AppendDigits(out: array<char>, w: nat, ds: Stream, k: nat, n: nat) returns (w': nat)
    requires w + n <= out.Length
    modifies out
    ensures w' == w + n && out[..w'] == old(out[..w]) + Digits(ds, k, n)
  {
    w' := w;
    for i := 0 to n
      invariant w' == w + i && out[..w'] == old(out[..w]) + Digits(ds, k, i)
    {
      ghost var written := out[..w'];
      out[w'] := DigitChar(ds(k + i));
      w' := w' + 1;
      assert out[..w'] == written + [DigitChar(ds(k + i))];
      assert Digits(ds, k, i + 1) == Digits(ds, k, i) + [DigitChar(ds(k + i))];
    }
  }

  method WriteOutput(t: Text, c: Cache, ds: Stream, out: array<char>)
    requires c.Valid() && c.Contents() == Placeholders(t, 0)
    requires out.Length == |Expand(t, 0, ds, 0)|
    modifies out
    ensures out[..] == Expand(t, 0, ds, 0)
  {
    hide First, FirstAt, Placeholders, Expand;
    var w: nat, p: nat, k: nat := 0, 0, 0;
    ghost var ps, whole := c.Contents(), Expand(t, 0, ds, 0);
    ghost var rest := whole;
    for i := 0 to c.n
      invariant p == Pos(ps, i) <= |t| && k == Used(ps, i) && rest == Rest(t, ps, i, ds)
      invariant w + |rest| == out.Length && out[..w] + rest == whole
    {
      AtPlaceholder(t, ps, i, ds);
      var x := c.items[i];
      assert x == ps[i];
      ghost var written, head, digits := out[..w], t[p..x.start], Digits(ds, k, x.value);
      rest := Rest(t, ps, i + 1, ds);
      RegroupThree(written, head, digits, rest);
      w := Append(out, w, t[p..x.start]);
      w := AppendDigits(out, w, ds, k, x.value);
      assert out[..w] == written + head + digits;
      k := k + x.value;
      p := x.end + 1;
    }
    AtTail(t, ps, ds);
    w := Append(out, w, t[p..]);
    assert out[..w] == out[..];
  }

  /** `replace`: the three passes. */
  method Replace(t: Text, ds: Stream) returns (out: Text, replaced: bool)
    ensures out == Expand(t, 0, ds, 0)
    ensures replaced <==> First(t, 0).Some?
  {
    var c := FindPlaceholders(t);
    if c.n == 0 { return t, false; }
    var size := OutputSize(t, c, ds);
    var buffer := new char[size];
    WriteOutput(t, c, ds, buffer);
    return buffer[..], true;
  }
}
