/** Text values and the two byte searches every scanner of the extension is built on.
    A text is a sequence of characters, one for each byte. */
module Texts {

  type Text = seq<char>

  datatype Option<+T> = None | Some(value: T) {
    function GetOr(default: T): (v: T)
      ensures Some? ==> v == value
      ensures None? ==> v == default
    {
      match this
      case Some(v) => v
      case None => default
    }
  }

  /** `memchr` over t[from..]: the least position that holds c. */
  function IndexOf(t: Text, c: char, from: nat): (r: Option<nat>)
    requires from <= |t|
    ensures r.Some? ==> from <= r.value < |t| && t[r.value] == c
    ensures r.Some? ==> forall k :: from <= k < r.value ==> t[k] != c
    ensures r.None? ==> forall k :: from <= k < |t| ==> t[k] != c
    decreases |t| - from
  {
    if from == |t| then None
    else if t[from] == c then Some(from)
    else IndexOf(t, c, from + 1)
  }

  /** Characters a, b stand next to each other at position i of t. */
  predicate PairAt(t: Text, a: char, b: char, i: nat) {
    i + 1 < |t| && t[i] == a && t[i + 1] == b
  }

  /** No pair a, b starts in t at a position in [lo, hi). */
  ghost predicate NoPairIn(t: Text, a: char, b: char, lo: nat, hi: nat) {
    forall k :: lo <= k < hi ==> !PairAt(t, a, b, k)
  }

  /** The text holds the pair a, b nowhere. */
  ghost predicate FreeOf(t: Text, a: char, b: char) {
    NoPairIn(t, a, b, 0, |t|)
  }

  /** `memmem` with the two-byte needle a, b over t[from..]: the least position. */
  function IndexOfPair(t: Text, a: char, b: char, from: nat): (r: Option<nat>)
    requires from <= |t|
    ensures r.Some? ==> from <= r.value && PairAt(t, a, b, r.value) && NoPairIn(t, a, b, from, r.value)
    ensures r.None? ==> NoPairIn(t, a, b, from, |t|)
    decreases |t| - from
  {
    if from == |t| then None
    else if PairAt(t, a, b, from) then Some(from)
    else IndexOfPair(t, a, b, from + 1)
  }

  /** A search may start anywhere in a stretch that holds no pair. */
  lemma SkipToPair(t: Text, a: char, b: char, from: nat, to: nat)
    requires from <= to <= |t| && NoPairIn(t, a, b, from, to)
    ensures IndexOfPair(t, a, b, from) == IndexOfPair(t, a, b, to)
  {
    var p, q := IndexOfPair(t, a, b, from), IndexOfPair(t, a, b, to);
    if p.Some? {
      assert !(from <= p.value < to);
      assert q.Some? && p.value == q.value;
    } else {
      assert q.None?;
    }
  }

  /** The least pair is the only position with no pair before it. */
  lemma PairIsAt(t: Text, a: char, b: char, from: nat, i: nat)
    requires from <= i <= |t| && PairAt(t, a, b, i) && NoPairIn(t, a, b, from, i)
    ensures IndexOfPair(t, a, b, from) == Some(i)
  {
    SkipToPair(t, a, b, from, i);
  }
}
