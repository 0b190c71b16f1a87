/** `tbf_rate_check`: a shared table of token buckets, one critical section per call. Time and rates
    are exact reals; tokens are whole. */
module TokenBucket {
  import opened Collections
  import opened Texts

  datatype Key = Key(namespaceId: int, bucketId: int)
  datatype Entry = Entry(updatedAt: real, tokens: nat)
  type Table = map<Key, Entry>

  /** One call that reaches the critical section, in the order the lock is granted. */
  datatype Call = Call(key: Key, rate: real, now: real)

  /** The whole tokens of two seconds, but at least one. */
  function Capacity(rate: real): (m: nat)
    requires rate >= 0.0
    ensures m >= 1 && 2.0 * rate < m as real + 1.0 && (m > 1 ==> m as real <= 2.0 * rate)
  {
    var m := (rate * 2.0).Floor;
    if m < 1 then 1 else m
  }

  // ----- The reference: what one call does to its bucket -----

  /** A call comes no earlier than the last update it meets; otherwise the source would convert a
      negative number to an unsigned one. */
  ghost predicate Timely(e: Option<Entry>, c: Call) {
    c.rate >= 0.0 && (e.Some? ==> e.value.updatedAt <= c.now)
  }

  /** What a bucket earns at the given rate between two times. */
  function Earned(rate: real, a: real, b: real): real { rate * (b - a) }

  lemma EarnedIsNonnegative(rate: real, a: real, b: real)
    requires rate >= 0.0 && a <= b
    ensures Earned(rate, a, b) >= 0.0
  {
    var d := b - a;
    assert rate * d >= 0.0;
  }

  lemma WholePart(tokens: nat, earned: real)
    requires earned >= 0.0
    ensures var n := (tokens as real + earned).Floor;
      n >= tokens && n as real <= tokens as real + earned < n as real + 1.0
  {
  }

  /** The whole tokens after refilling; the fraction of a token earned last is lost. */
  function Refilled(e: Entry, c: Call): (tokens: nat)
    requires Timely(Some(e), c)
    ensures tokens as real <= e.tokens as real + Earned(c.rate, e.updatedAt, c.now) < tokens as real + 1.0
    ensures e.tokens <= tokens
  {
    hide Earned;
    EarnedIsNonnegative(c.rate, e.updatedAt, c.now);
    WholePart(e.tokens, Earned(c.rate, e.updatedAt, c.now));
    (e.tokens as real + Earned(c.rate, e.updatedAt, c.now)).Floor
  }

  function StepEntry(e: Option<Entry>, c: Call): (Option<Entry>, bool)
    requires Timely(e, c)
  {
    if c.rate == 0.0 then (e, false)
    else if e.None? then (Some(Entry(c.now, Capacity(c.rate) - 1)), true)
    else
      var tokens := Refilled(e.value, c);
      if tokens > 0 then (Some(Entry(c.now, Min(tokens, Capacity(c.rate)) - 1)), true)
      else (e, false)
  }

  function Lookup(t: Table, k: Key): Option<Entry> { if k in t then Some(t[k]) else None }

  function Step(t: Table, c: Call): (Table, bool)
    requires Timely(Lookup(t, c.key), c)
  {
    var (e, admitted) := StepEntry(Lookup(t, c.key), c);
    (if e.None? then t else t[c.key := e.value], admitted)
  }

  // ----- The implementation -----

  class RateLimiter {
    var table: Table

    constructor ()
      ensures table == map[]
    {
      table := map[];
    }

    /** `tbf_rate_check`. Missing arguments pass, a zero rate never does; neither touches a bucket. */
    method RateCheck(namespaceId: Option<int>, bucketId: Option<int>, rate: Option<real>, now: real)
      returns (admitted: bool)
      requires namespaceId.Some? && bucketId.Some? && rate.Some? ==>
        Timely(Lookup(table, Key(namespaceId.value, bucketId.value)), Call(Key(namespaceId.value, bucketId.value), rate.value, now))
      modifies this
      ensures namespaceId.None? || bucketId.None? || rate.None? ==> admitted && table == old(table)
      ensures namespaceId.Some? && bucketId.Some? && rate.Some? ==>
        (table, admitted) == Step(old(table), Call(Key(namespaceId.value, bucketId.value), rate.value, now))
    {
      if namespaceId.None? || bucketId.None? || rate.None? { return true; }
      var r := rate.value;
      var key := Key(namespaceId.value, bucketId.value);
      if r == 0.0 {
        assert key in table ==> table[key := table[key]] == table;
        return false;
      }
      var maxSize := (r * 2.0).Floor;
      if maxSize < 1 { maxSize := 1; }
      if key !in table {
        table := table[key := Entry(now, maxSize - 1)];
        admitted := true;
      } else {
        var entry := table[key];
        var diff := now - entry.updatedAt;
        ghost var refilled := Refilled(entry, Call(key, r, now));
        assert refilled == (entry.tokens as real + r * diff).Floor;
        entry := entry.(tokens := (entry.tokens as real + r * diff).Floor);
        if entry.tokens > 0 {
          entry := entry.(updatedAt := now);
          if entry.tokens > maxSize { entry := entry.(tokens := maxSize); }
          entry := entry.(tokens := entry.tokens - 1);
          admitted := true;
        } else {
          admitted := false;
        }
        table := table[key := entry];
      }
    }
  }

  // ----- Runs -----

  /** A run: the calls in lock order, whose clock readings agree with that order. */
  ghost predicate Ordered(calls: seq<Call>) {
    && (forall i :: 0 <= i < |calls| ==> calls[i].rate >= 0.0)
    && (forall i, j :: 0 <= i <= j < |calls| ==> calls[i].now <= calls[j].now)
  }

  /** The table after a run from an empty one. */
  ghost function After(calls: seq<Call>): (t: Table)
    requires Ordered(calls)
    ensures forall k :: k in t ==> calls != [] && t[k].updatedAt <= calls[|calls| - 1].now
  {
    if calls == [] then map[]
    else
      var n := |calls| - 1;
      assert n > 0 ==> calls[..n][n - 1] == calls[n - 1] && calls[n - 1].now <= calls[n].now;
      Step(After(calls[..n]), calls[n]).0
  }

  /** Whether call i of the run is let through. */
  ghost predicate Admits(calls: seq<Call>, i: nat)
    requires Ordered(calls) && i < |calls|
  {
    assert i > 0 ==> calls[..i][i - 1] == calls[i - 1] && calls[i - 1].now <= calls[i].now;
    Step(After(calls[..i]), calls[i]).1
  }

  /** The bucket of key k after a run. */
  ghost function Bucket(calls: seq<Call>, k: Key): Option<Entry>
    requires Ordered(calls)
  {
    Lookup(After(calls), k)
  }

  /** One more call: only its own bucket moves, by StepEntry. */
  lemma {:induction false} Extend(calls: seq<Call>, c: Call)
    requires Ordered(calls + [c])
    ensures Ordered(calls) && Timely(Bucket(calls, c.key), c)
    ensures (Bucket(calls + [c], c.key), Admits(calls + [c], |calls|)) == StepEntry(Bucket(calls, c.key), c)
    ensures forall k :: k != c.key ==> Bucket(calls + [c], k) == Bucket(calls, k)
    ensures After(calls + [c]) == Step(After(calls), c).0
  {
    var all := calls + [c];
    assert all[..|calls|] == calls;
    assert forall i | 0 <= i < |calls| :: calls[i] == all[i];
    assert calls != [] ==> all[|calls| - 1].now <= all[|calls|].now;
  }
}
