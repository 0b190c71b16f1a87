/** The `||` notation of multi-rule texts: `search_split_token` and the splitting it performs. */
module SplitRules {
  import opened Collections
  import opened Texts

  /** The chunks of t[p..], split at each leftmost `||`. */
  function Chunks(t: Text, p: nat := 0): (r: seq<Text>)
    requires p <= |t|
    ensures |r| >= 1
    decreases |t| - p
  {
    match IndexOfPair(t, '|', '|', p)
    case None => [t[p..]]
    case Some(i) => [t[p..i]] + Chunks(t, i + 2)
  }

  /** Where chunk n starts. */
  ghost function ChunkStart(t: Text, n: nat): (p: nat)
    requires n < |Chunks(t)|
    ensures p <= |t| && Chunks(t, p) == Chunks(t)[n..]
    decreases n
  {
    if n == 0 then 0
    else
      var p := ChunkStart(t, n - 1);
      assert Chunks(t)[n - 1..][1..] == Chunks(t)[n..];
      IndexOfPair(t, '|', '|', p).value + 2
  }

  lemma {:induction false} EmptyTail(t: Text, p: nat)
    requires p <= |t|
    ensures p == |t| <==> Chunks(t, p) == [[]]
  {
    match IndexOfPair(t, '|', '|', p)
    case None =>
      assert Chunks(t, p) == [t[p..]];
      assert |t[p..]| == |t| - p;
    case Some(i) =>
      assert |Chunks(t, p)| >= 2;
  }

  /** What the token search from the start of chunk n tells about the chunks. */
  lemma AtChunk(t: Text, n: nat)
    requires n < |Chunks(t)|
    ensures var C, p := Chunks(t), ChunkStart(t, n);
      match IndexOfPair(t, '|', '|', p)
      case None => |C| == n + 1 && C[n] == t[p..]
      case Some(i) =>
        && n + 1 < |C| && C[n] == t[p..i] && ChunkStart(t, n + 1) == i + 2
        && (i + 2 >= |t| <==> |C| == n + 2 && C[n + 1] == [])
  {
    var C, p := Chunks(t), ChunkStart(t, n);
    assert C[n] == C[n..][0];
    match IndexOfPair(t, '|', '|', p)
    case None =>
    case Some(i) =>
      EmptyTail(t, i + 2);
      assert |C| == n + 2 ==> C[n + 1..] == [C[n + 1]];
  }

  /** Chunks written back to back with `||` between them. */
  function Join(chunks: seq<Text>): Text
    requires |chunks| >= 1
  {
    if |chunks| == 1 then chunks[0] else chunks[0] + "||" + Join(chunks[1..])
  }

  /** What a splitting looks like: no chunk holds `||`, and no chunk but the last ends in a bar. */
  ghost predicate WellSplit(chunks: seq<Text>) {
    && |chunks| >= 1
    && FreeOf(chunks[0], '|', '|')
    && (|chunks| > 1 ==> (chunks[0] == [] || chunks[0][|chunks[0]| - 1] != '|') && WellSplit(chunks[1..]))
  }

  lemma {:induction false} JoinChunks(t: Text, p: nat)
    requires p <= |t|
    ensures Join(Chunks(t, p)) == t[p..]
    decreases |t| - p
  {
    match IndexOfPair(t, '|', '|', p)
    case None =>
    case Some(i) =>
      JoinChunks(t, i + 2);
      assert Chunks(t, p)[1..] == Chunks(t, i + 2);
      assert t[p..] == t[p..i] + "||" + t[i + 2..];
  }

  lemma JoinFrom(t: Text, n: nat)
    requires n < |Chunks(t)|
    ensures t[ChunkStart(t, n)..] == Join(Chunks(t)[n..])
  {
    JoinChunks(t, ChunkStart(t, n));
  }

  lemma FreePiece(t: Text, p: nat, i: nat)
    requires p <= i <= |t| && NoPairIn(t, '|', '|', p, i)
    ensures FreeOf(t[p..i], '|', '|')
    ensures i < |t| && t[i] == '|' && t[p..i] != [] ==> t[i - 1] != '|'
  {
    forall k | 0 <= k < i - p ensures !PairAt(t[p..i], '|', '|', k) {
      assert !PairAt(t, '|', '|', p + k);
    }
    assert p < i ==> !PairAt(t, '|', '|', i - 1);
  }

  lemma {:induction false} ChunksWellSplit(t: Text, p: nat)
    requires p <= |t|
    ensures WellSplit(Chunks(t, p))
    decreases |t| - p
  {
    match IndexOfPair(t, '|', '|', p)
    case None =>
      FreePiece(t, p, |t|);
      assert t[p..|t|] == t[p..];
    case Some(i) =>
      FreePiece(t, p, i);
      ChunksWellSplit(t, i + 2);
      assert ([t[p..i]] + Chunks(t, i + 2))[1..] == Chunks(t, i + 2);
  }

  /** A chunk without `||` that does not end in a bar starts no `||` where it stands. */
  lemma NoPairInChunk(before: Text, c: Text, after: Text)
    requires FreeOf(c, '|', '|')
    requires c != [] && after != [] ==> c[|c| - 1] != '|'
    ensures NoPairIn(before + c + after, '|', '|', |before|, |before| + |c|)
  {
    var t := before + c + after;
    forall k | |before| <= k < |before| + |c| ensures !PairAt(t, '|', '|', k) {
      assert t[k] == c[k - |before|];
      assert !PairAt(c, '|', '|', k - |before|);
      if k + 1 < |before| + |c| {
        assert t[k + 1] == c[k + 1 - |before|];
      }
    }
  }

  /** The first chunk of a text that starts with chunk c followed by the token. */
  lemma {:induction false} FirstChunk(before: Text, c: Text, rest: Text)
    requires FreeOf(c, '|', '|')
    requires c != [] ==> c[|c| - 1] != '|'
    ensures var t := before + c + "||" + rest;
      Chunks(t, |before|) == [c] + Chunks(t, |before + c + "||"|)
  {
    var t, p := before + c + "||" + rest, |before|;
    hide FreeOf, NoPairIn, IndexOfPair;
    NoPairInChunk(before, c, "||" + rest);
    AtSeam(before, c, "||" + rest);
    assert t == before + c + ("||" + rest);
    PairIsAt(t, '|', '|', p, p + |c|);
  }

  lemma AtSeam(before: Text, c: Text, after: Text)
    requires |after| >= 2 && after[0] == '|' && after[1] == '|'
    ensures PairAt(before + c + after, '|', '|', |before| + |c|)
    ensures (before + c + after)[|before|..|before| + |c|] == c
  {
  }

  lemma LastChunk(before: Text, c: Text)
    requires FreeOf(c, '|', '|')
    ensures Chunks(before + c, |before|) == [c]
  {
    NoPairInChunk(before, c, []);
    assert before + c + [] == before + c;
    assert (before + c)[|before|..] == c;
  }

  /** Splitting undoes joining on every well-split list; with JoinChunks and ChunksWellSplit,
      splitting is a bijection between texts and well-split lists. */
  lemma {:induction false} ChunksJoin(chunks: seq<Text>, before: Text)
    requires WellSplit(chunks)
    ensures Chunks(before + Join(chunks), |before|) == chunks
    decreases |chunks|
  {
    var c := chunks[0];
    if |chunks| == 1 {
      LastChunk(before, c);
    } else {
      var rest := Join(chunks[1..]);
      ChunksJoin(chunks[1..], before + c + "||");
      FirstChunk(before, c, rest);
      RegroupThree(before, c, "||", rest);
    }
  }

  /** `search_split_token`: steps over a lone bar together with the character after it. */
  method SearchSplitToken(t: Text, s: nat) returns (r: Option<nat>)
    requires s <= |t|
    ensures r == IndexOfPair(t, '|', '|', s)
  {
    var p := s;
    while true
      invariant s <= p <= |t|
      invariant NoPairIn(t, '|', '|', s, p)
      decreases |t| - p
    {
      var bar := IndexOf(t, '|', p);
      if bar.None? { return None; }
      assert NoPairIn(t, '|', '|', s, bar.value);
      if bar.value + 2 > |t| { return None; }
      if t[bar.value + 1] == '|' {
        PairIsAt(t, '|', '|', s, bar.value);
        return Some(bar.value);
      }
      p := bar.value + 2;
      if p >= |t| { return None; }
    }
  }
}
