/** What the token bucket guarantees over whole runs. */
module TokenBucketProperties {
  import opened Collections
  import opened Texts
  import opened TokenBucket

  /** When the calls on k that the run let through were made. */
  ghost function AdmittedTimes(calls: seq<Call>, k: Key): seq<real>
    requires Ordered(calls)
  {
    if calls == [] then []
    else
      var n := |calls| - 1;
      AdmittedTimes(calls[..n], k) + (if calls[n].key == k && Admits(calls, n) then [calls[n].now] else [])
  }

  lemma SplitLast(calls: seq<Call>)
    requires calls != [] && Ordered(calls)
    ensures var (n, c) := (|calls| - 1, calls[|calls| - 1]);
      && calls == calls[..n] + [c] && Ordered(calls[..n]) && Timely(Bucket(calls[..n], c.key), c)
      && (Bucket(calls, c.key), Admits(calls, n)) == StepEntry(Bucket(calls[..n], c.key), c)
      && (forall k :: k != c.key ==> Bucket(calls, k) == Bucket(calls[..n], k))
      && (n > 0 ==> calls[n - 1] == calls[..n][n - 1] && calls[n - 1].now <= c.now)
  {
    var n := |calls| - 1;
    assert calls == calls[..n] + [calls[n]];
    Extend(calls[..n], calls[n]);
  }

  /** An admitted call stamps its bucket with its time, a refused one leaves it alone. */
  lemma AdmissionStamps(b: Option<Entry>, c: Call)
    requires Timely(b, c)
    ensures var (b', admitted) := StepEntry(b, c);
      if admitted then b'.Some? && b'.value.updatedAt == c.now else b' == b
  {
  }

  /** A bucket exists once a call was admitted, and remembers when the last one was. */
  lemma {:induction false} BucketTime(calls: seq<Call>, k: Key)
    requires Ordered(calls)
    ensures var (b, ts) := (Bucket(calls, k), AdmittedTimes(calls, k));
      && (b.None? <==> ts == [])
      && (b.Some? ==> b.value.updatedAt == ts[|ts| - 1])
    decreases |calls|
  {
    if calls != [] {
      hide After, Step, StepEntry, Bucket, Admits;
      var n := |calls| - 1;
      SplitLast(calls);
      BucketTime(calls[..n], k);
      AdmissionStamps(Bucket(calls[..n], calls[n].key), calls[n]);
    }
  }

  // ----- No needless refusal -----

  /** A call is refused only when less than one token's time has passed since the last admitted
      call on its key; the rates of other calls do not matter. */
  lemma RefusedOnlyTooSoon(calls: seq<Call>, i: nat)
    requires Ordered(calls) && i < |calls| && calls[i].rate > 0.0 && !Admits(calls, i)
    ensures Ordered(calls[..i])
    ensures var ts := AdmittedTimes(calls[..i], calls[i].key);
      ts != [] && Earned(calls[i].rate, ts[|ts| - 1], calls[i].now) < 1.0
  {
    hide After, Step, AdmittedTimes;
    var c := calls[i];
    assert calls[..i + 1][..i] == calls[..i];
    SplitLast(calls[..i + 1]);
    BucketTime(calls[..i], c.key);
    assert Admits(calls, i) == Admits(calls[..i + 1], i);
  }

  lemma {:induction false} TimesAreCalls(calls: seq<Call>, k: Key)
    requires Ordered(calls)
    ensures forall t <- AdmittedTimes(calls, k) :: exists j :: 0 <= j < |calls| && calls[j].key == k && calls[j].now == t
    decreases |calls|
  {
    hide After, Step, Admits, Bucket;
    if calls != [] {
      var n := |calls| - 1;
      SplitLast(calls);
      TimesAreCalls(calls[..n], k);
      forall t <- AdmittedTimes(calls, k) ensures exists j :: 0 <= j < |calls| && calls[j].key == k && calls[j].now == t {
        if t in AdmittedTimes(calls[..n], k) {
          var j :| 0 <= j < n && calls[..n][j].key == k && calls[..n][j].now == t;
          assert calls[j].key == k && calls[j].now == t;
        } else {
          assert calls[n].key == k && calls[n].now == t;
        }
      }
    }
  }

  lemma OneToken(rate: real, a: real, b: real)
    requires rate > 0.0 && b - a >= 1.0 / rate
    ensures Earned(rate, a, b) >= 1.0
  {
    assert rate * (1.0 / rate) == 1.0;
    assert rate * (b - a - 1.0 / rate) >= 0.0;
  }

  /** Calls at least 1/rate after every earlier call on their key are never refused. */
  lemma SpacedCallsPass(calls: seq<Call>, i: nat)
    requires Ordered(calls) && i < |calls| && calls[i].rate > 0.0
    requires forall j :: 0 <= j < i && calls[j].key == calls[i].key ==> calls[i].now - calls[j].now >= 1.0 / calls[i].rate
    ensures Admits(calls, i)
  {
    hide After, Step, AdmittedTimes, Admits, Bucket;
    if !Admits(calls, i) {
      RefusedOnlyTooSoon(calls, i);
      TimesAreCalls(calls[..i], calls[i].key);
      var ts := AdmittedTimes(calls[..i], calls[i].key);
      var t := ts[|ts| - 1];
      assert t in ts;
      var j :| 0 <= j < i && calls[..i][j].key == calls[i].key && calls[..i][j].now == t;
      assert calls[j] == calls[..i][j];
      OneToken(calls[i].rate, t, calls[i].now);
    }
  }

  /** All calls on k carry the rate r. */
  ghost predicate ConstantRate(calls: seq<Call>, k: Key, r: real) {
    forall i :: 0 <= i < |calls| && calls[i].key == k ==> calls[i].rate == r
  }

  ghost function CallsOn(calls: seq<Call>, k: Key): nat {
    if calls == [] then 0 else CallsOn(calls[..|calls| - 1], k) + if calls[|calls| - 1].key == k then 1 else 0
  }

  /** A fresh bucket after m calls at time t. */
  function BurstBucket(m: nat, rate: real, t: real): Option<Entry>
    requires rate >= 0.0
  {
    if m == 0 then None else Some(Entry(t, Capacity(rate) - Min(m, Capacity(rate))))
  }

  /** All calls on k are made at time t. */
  ghost predicate Burst(calls: seq<Call>, k: Key, t: real) {
    forall i :: 0 <= i < |calls| && calls[i].key == k ==> calls[i].now == t
  }

  /** A burst at one instant on a fresh bucket: exactly the first Capacity(r) calls pass. */
  lemma {:induction false} BurstFillsCapacity(calls: seq<Call>, k: Key, r: real, t: real)
    requires Ordered(calls) && r > 0.0 && ConstantRate(calls, k, r) && Burst(calls, k, t)
    ensures |AdmittedTimes(calls, k)| == Min(CallsOn(calls, k), Capacity(r))
    ensures Bucket(calls, k) == BurstBucket(CallsOn(calls, k), r, t)
    decreases |calls|
  {
    hide After, Step, StepEntry, Capacity, Bucket, Admits, BurstBucket, AdmittedTimes;
    if calls == [] {
      NoCalls(k, r, t);
    } else {
      var n := |calls| - 1;
      assert ConstantRate(calls[..n], k, r) && Burst(calls[..n], k, t);
      SplitLast(calls);
      LastAdmission(calls, k);
      BurstFillsCapacity(calls[..n], k, r, t);
      hide Ordered;
      if calls[n].key == k { BurstStep(CallsOn(calls[..n], k), calls[n]); }
    }
  }

  lemma NoCalls(k: Key, r: real, t: real)
    requires r > 0.0
    ensures Ordered([]) && AdmittedTimes([], k) == [] && Bucket([], k) == BurstBucket(0, r, t)
  {
  }

  lemma BurstStep(m: nat, c: Call)
    requires c.rate > 0.0
    ensures Timely(BurstBucket(m, c.rate, c.now), c)
    ensures StepEntry(BurstBucket(m, c.rate, c.now), c) == (BurstBucket(m + 1, c.rate, c.now), m < Capacity(c.rate))
  {
    hide Capacity, Refilled;
    assert Earned(c.rate, c.now, c.now) == 0.0;
  }

  // ----- Tokens earned in a pause -----

  /** The tokens a bucket that holds b of them has after the pause: what it held and earned, in whole
      tokens, but no more than two seconds' worth, and at least one of that. */
  function Regained(b: nat, r: real, pause: real): nat
    requires r > 0.0 && pause >= 0.0
  {
    EarnedInPause(r, pause);
    var whole: nat := (b as real + r * pause).Floor;
    Min(whole, Capacity(r))
  }

  lemma EarnedInPause(r: real, pause: real)
    requires r > 0.0 && pause >= 0.0
    ensures r * pause >= 0.0
  {
  }

  /** The bucket after m calls at time u, when it then had g tokens. */
  function Drained(e: Entry, g: nat, m: nat, u: real): Entry {
    if g == 0 || m == 0 then e else Entry(u, g - Min(m, g))
  }

  lemma DrainStep(e: Entry, m: nat, c: Call)
    requires c.rate > 0.0 && e.updatedAt <= c.now
    ensures var g := Regained(e.tokens, c.rate, c.now - e.updatedAt);
      var d := Drained(e, g, m, c.now);
      Timely(Some(d), c) && StepEntry(Some(d), c) == (Some(Drained(e, g, m + 1, c.now)), m < g)
  {
    hide Capacity, Refilled, Earned;
    var g := Regained(e.tokens, c.rate, c.now - e.updatedAt);
    RefilledAfter(e, c);
    hide Regained;
    if g == 0 || m == 0 {
      assert Drained(e, g, m, c.now) == e;
    } else {
      RefilledNow(Drained(e, g, m, c.now), c);
    }
  }

  lemma RefilledAfter(e: Entry, c: Call)
    requires Timely(Some(e), c)
    requires c.rate > 0.0
    ensures Regained(e.tokens, c.rate, c.now - e.updatedAt) == Min(Refilled(e, c), Capacity(c.rate))
  {
    hide Capacity;
    EarnedInPause(c.rate, c.now - e.updatedAt);
  }

  lemma RefilledNow(e: Entry, c: Call)
    requires Timely(Some(e), c) && e.updatedAt == c.now
    ensures Refilled(e, c) == e.tokens
  {
    assert Earned(c.rate, c.now, c.now) == 0.0;
  }

  /** Tokens earned are kept: a run that leaves k's bucket with b tokens since t is followed by calls, of
      which those on k all come at one later time u at rate r. Exactly as many of these pass as the bucket
      has regained by then, as far as there are so many. */
  lemma {:induction false} PauseThenBurst(calls: seq<Call>, burst: seq<Call>, k: Key, r: real, u: real)
    requires Ordered(calls + burst) && Ordered(calls) && r > 0.0 && ConstantRate(burst, k, r) && Burst(burst, k, u)
    requires Bucket(calls, k).Some? && Bucket(calls, k).value.updatedAt <= u
    ensures var e := Bucket(calls, k).value;
      var g := Regained(e.tokens, r, u - e.updatedAt);
      && |AdmittedTimes(calls + burst, k)| == |AdmittedTimes(calls, k)| + Min(CallsOn(burst, k), g)
      && Bucket(calls + burst, k) == Some(Drained(e, g, CallsOn(burst, k), u))
    decreases |burst|
  {
    hide After, Step, StepEntry, Bucket, Admits, AdmittedTimes, Regained, Drained, Capacity;
    var e := Bucket(calls, k).value;
    var g := Regained(e.tokens, r, u - e.updatedAt);
    if burst == [] {
      assert calls + burst == calls;
      NothingDrained(e, g, u);
    } else {
      var all, n := calls + burst, |burst| - 1;
      assert all[..|all| - 1] == calls + burst[..n] && all[|all| - 1] == burst[n];
      assert ConstantRate(burst[..n], k, r) && Burst(burst[..n], k, u);
      SplitLast(all);
      LastAdmission(all, k);
      PauseThenBurst(calls, burst[..n], k, r, u);
      hide Ordered, ConstantRate, Burst;
      if burst[n].key == k { DrainStep(e, CallsOn(burst[..n], k), burst[n]); }
    }
  }

  lemma NothingDrained(e: Entry, g: nat, u: real)
    ensures Drained(e, g, 0, u) == e
  {
  }

  /** After a pause of at least Capacity(r) / r since the last admitted call the bucket is full again: of m
      calls at one instant exactly min(m, Capacity(r)) pass. For a shorter pause it is
      min(m, Capacity(r), floor(b + r * pause)). */
  lemma PauseRefills(calls: seq<Call>, burst: seq<Call>, k: Key, r: real, u: real)
    requires Ordered(calls + burst) && Ordered(calls) && r > 0.0 && ConstantRate(burst, k, r) && Burst(burst, k, u)
    requires AdmittedTimes(calls, k) != [] && AdmittedTimes(calls, k)[|AdmittedTimes(calls, k)| - 1] <= u
    ensures Bucket(calls, k).Some?
    ensures var (t, b, m) := (AdmittedTimes(calls, k)[|AdmittedTimes(calls, k)| - 1], Bucket(calls, k).value.tokens, CallsOn(burst, k));
      var passed := |AdmittedTimes(calls + burst, k)| - |AdmittedTimes(calls, k)|;
      && (u - t >= Capacity(r) as real / r ==> passed == if m <= Capacity(r) then m else Capacity(r))
      && passed <= m && passed <= Capacity(r) && passed as real <= b as real + r * (u - t)
      && (passed < m && passed < Capacity(r) ==> b as real + r * (u - t) < passed as real + 1.0)
  {
    hide After, Bucket, AdmittedTimes, CallsOn, Capacity, Regained, Drained, Ordered;
    BucketTime(calls, k);
    PauseThenBurst(calls, burst, k, r, u);
    var e := Bucket(calls, k).value;
    RegainedBounds(e.tokens, r, u - e.updatedAt);
    if u - e.updatedAt >= Capacity(r) as real / r { FullAgain(e.tokens, r, u - e.updatedAt); }
  }

  lemma RegainedBounds(b: nat, r: real, pause: real)
    requires r > 0.0 && pause >= 0.0
    ensures var g := Regained(b, r, pause);
      && g <= Capacity(r) && g as real <= b as real + r * pause
      && (g < Capacity(r) ==> b as real + r * pause < g as real + 1.0)
  {
    hide Capacity;
    EarnedInPause(r, pause);
  }

  lemma FullAgain(b: nat, r: real, pause: real)
    requires r > 0.0 && pause >= Capacity(r) as real / r
    ensures pause >= 0.0 && Regained(b, r, pause) == Capacity(r)
  {
    hide Capacity;
    var full := Capacity(r) as real;
    assert r * (full / r) == full;
    assert full / r >= 0.0;
    assert r * (pause - full / r) >= 0.0;
    assert r * pause >= full;
    FloorAtLeast(b, r * pause, Capacity(r));
  }

  lemma FloorAtLeast(b: nat, x: real, n: nat)
    requires x >= n as real
    ensures (b as real + x).Floor >= n
  {
  }

  // ----- Rate zero -----

  /** A call with rate zero is refused, and leaves every bucket as it was. */
  lemma ZeroRateRefuses(calls: seq<Call>, c: Call)
    requires Ordered(calls + [c]) && c.rate == 0.0
    ensures Ordered(calls) && !Admits(calls + [c], |calls|)
    ensures forall k :: Bucket(calls + [c], k) == Bucket(calls, k)
  {
    Extend(calls, c);
    hide After, Step;
  }

  // ----- The rate bound -----

  /** A bucket of real-valued level: full at depth, refilled at the given rate, emptied by one for
      each accepted call. The level after accepting calls at the times ts. */
  ghost function FluidLevel(ts: seq<real>, depth: real, rate: real): real {
    if ts == [] then depth
    else
      var n := |ts| - 1;
      var refilled := FluidLevel(ts[..n], depth, rate) + if n == 0 then 0.0 else Earned(rate, ts[n - 1], ts[n]);
      (if refilled < depth then refilled else depth) - 1.0
  }

  /** The fluid bucket never has to go below empty. */
  ghost predicate FluidAccepts(ts: seq<real>, depth: real, rate: real) {
    ts == [] || (FluidAccepts(ts[..|ts| - 1], depth, rate) && FluidLevel(ts, depth, rate) >= 0.0)
  }

  /** The fluid bucket accepts calls at the times ts, after which its level covers the tokens of b;
      b was last stamped by the last of them. */
  ghost predicate FluidCovers(ts: seq<real>, b: Option<Entry>, rate: real)
    requires rate >= 0.0
  {
    var depth := Capacity(rate) as real;
    && FluidAccepts(ts, depth, rate)
    && (b.None? <==> ts == [])
    && (b.Some? ==> b.value.updatedAt == ts[|ts| - 1] && b.value.tokens as real <= FluidLevel(ts, depth, rate))
  }

  ghost predicate Rising(ts: seq<real>) {
    forall i, j :: 0 <= i <= j < |ts| ==> ts[i] <= ts[j]
  }

  lemma FluidAppend(ts: seq<real>, t: real, depth: real, rate: real)
    ensures var refilled := FluidLevel(ts, depth, rate) + if ts == [] then 0.0 else Earned(rate, ts[|ts| - 1], t);
      FluidLevel(ts + [t], depth, rate) == (if refilled < depth then refilled else depth) - 1.0
    ensures FluidAccepts(ts + [t], depth, rate) == (FluidAccepts(ts, depth, rate) && FluidLevel(ts + [t], depth, rate) >= 0.0)
  {
    assert (ts + [t])[..|ts|] == ts;
  }

  /** One admitted call keeps the fluid level at or above the token count. */
  lemma FluidAdmit(ts: seq<real>, b: Option<Entry>, c: Call)
    requires Timely(b, c) && c.rate > 0.0 && StepEntry(b, c).1
    requires FluidCovers(ts, b, c.rate)
    ensures FluidCovers(ts + [c.now], StepEntry(b, c).0, c.rate)
  {
    hide FluidAccepts, FluidLevel, Capacity, Refilled, Earned;
    var depth := Capacity(c.rate) as real;
    FluidAppend(ts, c.now, depth, c.rate);
    NothingAccepted(depth, c.rate);
  }

  lemma NothingAccepted(depth: real, rate: real)
    ensures FluidAccepts([], depth, rate) && FluidLevel([], depth, rate) == depth
  {
  }

  lemma {:induction false} TimesRise(calls: seq<Call>, k: Key)
    requires Ordered(calls)
    ensures var ts := AdmittedTimes(calls, k);
      Rising(ts) && (ts != [] ==> ts[|ts| - 1] <= calls[|calls| - 1].now)
    decreases |calls|
  {
    hide After, Step, Admits;
    if calls != [] {
      SplitLast(calls);
      TimesRise(calls[..|calls| - 1], k);
    }
  }

  /** Simulation: what the whole-token bucket admits, a fluid bucket of its capacity accepts too; the
      fluid level is never below the token count. */
  lemma {:induction false} FluidSimulates(calls: seq<Call>, k: Key, r: real)
    requires Ordered(calls) && r > 0.0 && ConstantRate(calls, k, r)
    ensures FluidCovers(AdmittedTimes(calls, k), Bucket(calls, k), r)
    decreases |calls|
  {
    hide After, Step, StepEntry, Admits, Bucket, AdmittedTimes, FluidCovers;
    if calls == [] {
      EmptyRunCovered(k, r);
    } else {
      PrefixRate(calls, k, r);
      SplitLast(calls);
      FluidSimulates(calls[..|calls| - 1], k, r);
      FluidStep(calls, k, r);
    }
  }

  /** The last call of a run adds its time exactly when it is on k and admitted. */
  lemma {:induction false} LastAdmission(calls: seq<Call>, k: Key)
    requires calls != [] && Ordered(calls) && Ordered(calls[..|calls| - 1])
    ensures var (n, c) := (|calls| - 1, calls[|calls| - 1]);
      AdmittedTimes(calls, k) == AdmittedTimes(calls[..n], k) + (if c.key == k && Admits(calls, n) then [c.now] else [])
  {
    hide Admits;
  }

  lemma {:induction false} FluidStep(calls: seq<Call>, k: Key, r: real)
    requires calls != [] && Ordered(calls) && Ordered(calls[..|calls| - 1]) && r > 0.0
    requires calls[|calls| - 1].key == k ==> calls[|calls| - 1].rate == r
    requires FluidCovers(AdmittedTimes(calls[..|calls| - 1], k), Bucket(calls[..|calls| - 1], k), r)
    ensures FluidCovers(AdmittedTimes(calls, k), Bucket(calls, k), r)
  {
    hide After, Step, StepEntry, Admits, Bucket, AdmittedTimes, FluidCovers;
    var n := |calls| - 1;
    var c, before, b := calls[n], AdmittedTimes(calls[..n], k), Bucket(calls[..n], k);
    SplitLast(calls);
    LastAdmission(calls, k);
    AdmissionStamps(Bucket(calls[..n], c.key), c);
    hide Ordered;
    if c.key == k && Admits(calls, n) {
      FluidAdmit(before, b, c);
    } else {
      assert before + [] == before;
    }
  }

  lemma EmptyRunCovered(k: Key, r: real)
    requires r > 0.0
    ensures Ordered([]) && FluidCovers(AdmittedTimes([], k), Bucket([], k), r)
  {
    hide FluidAccepts, FluidLevel, Capacity;
    NothingAccepted(Capacity(r) as real, r);
    assert Bucket([], k).None?;
  }

  lemma PrefixRate(calls: seq<Call>, k: Key, r: real)
    requires calls != [] && ConstantRate(calls, k, r)
    ensures ConstantRate(calls[..|calls| - 1], k, r)
    ensures calls[|calls| - 1].key == k ==> calls[|calls| - 1].rate == r
  {
  }

  ghost function InWindow(ts: seq<real>, s: real, e: real): nat {
    if ts == [] then 0
    else InWindow(ts[..|ts| - 1], s, e) + if s <= ts[|ts| - 1] <= e then 1 else 0
  }

  lemma {:induction false} NoneBefore(ts: seq<real>, s: real, e: real)
    requires Rising(ts) && (ts != [] ==> ts[|ts| - 1] < s)
    ensures InWindow(ts, s, e) == 0
  {
    if ts != [] {
      NoneBefore(ts[..|ts| - 1], s, e);
    }
  }

  lemma EarnedAdds(rate: real, a: real, b: real, c: real)
    requires rate >= 0.0 && a <= b <= c
    ensures Earned(rate, a, c) == Earned(rate, a, b) + Earned(rate, b, c)
    ensures Earned(rate, a, b) >= 0.0 && Earned(rate, b, c) >= 0.0
  {
  }

  lemma {:induction false} FluidWindow(ts: seq<real>, depth: real, rate: real, s: real, e: real)
    requires Rising(ts) && depth >= 0.0 && rate >= 0.0 && s <= e && FluidAccepts(ts, depth, rate)
    ensures InWindow(ts, s, e) as real <= depth + Earned(rate, s, e)
    ensures ts != [] && s <= ts[|ts| - 1] <= e ==>
      InWindow(ts, s, e) as real + FluidLevel(ts, depth, rate) <= depth + Earned(rate, s, ts[|ts| - 1])
  {
    hide Earned;
    EarnedAdds(rate, s, s, e);
    if ts != [] {
      var n := |ts| - 1;
      var init, t := ts[..n], ts[n];
      FluidWindow(init, depth, rate, s, e);
      if s <= t <= e {
        if n == 0 || ts[n - 1] < s {
          NoneBefore(init, s, e);
        } else {
          assert init[n - 1] == ts[n - 1];
          EarnedAdds(rate, s, ts[n - 1], t);
        }
        EarnedAdds(rate, s, t, e);
      }
    }
  }

  /** The rate limit: in any window [s, e] at most Capacity(r) + r * (e - s) calls pass. */
  lemma RateBound(calls: seq<Call>, k: Key, r: real, s: real, e: real)
    requires Ordered(calls) && r > 0.0 && ConstantRate(calls, k, r) && s <= e
    ensures InWindow(AdmittedTimes(calls, k), s, e) as real <= Capacity(r) as real + r * (e - s)
  {
    FluidSimulates(calls, k, r);
    TimesRise(calls, k);
    FluidWindow(AdmittedTimes(calls, k), Capacity(r) as real, r, s, e);
  }

  // ----- Independence -----

  /** The calls of a run that keep selects, in order. */
  ghost function Filter(calls: seq<Call>, keep: (nat, Call) -> bool): seq<Call> {
    if calls == [] then []
    else
      var n := |calls| - 1;
      Filter(calls[..n], keep) + if keep(n, calls[n]) then [calls[n]] else []
  }

  lemma OrderedAppend(calls: seq<Call>, c: Call)
    requires Ordered(calls) && c.rate >= 0.0 && forall x <- calls :: x.now <= c.now
    ensures Ordered(calls + [c])
  {
  }

  lemma {:induction false} FilterOrdered(calls: seq<Call>, keep: (nat, Call) -> bool)
    requires Ordered(calls)
    ensures Ordered(Filter(calls, keep))
    ensures forall c <- Filter(calls, keep) :: c in calls && c.now <= calls[|calls| - 1].now
    decreases |calls|
  {
    if calls != [] {
      var n := |calls| - 1;
      assert forall i | 0 <= i < n :: calls[..n][i] == calls[i];
      FilterOrdered(calls[..n], keep);
      assert n > 0 ==> calls[n - 1].now <= calls[n].now;
      OrderedAppend(Filter(calls[..n], keep), calls[n]);
    }
  }

  lemma {:induction false} FilterPrefix(calls: seq<Call>, keep: (nat, Call) -> bool, i: nat)
    requires i < |calls|
    ensures Filter(calls[..i], keep) <= Filter(calls[..i + 1], keep) <= Filter(calls, keep)
    ensures keep(i, calls[i]) ==> Filter(calls[..i + 1], keep) == Filter(calls[..i], keep) + [calls[i]]
    decreases |calls|
  {
    assert calls[..i + 1][..i] == calls[..i];
    var n := |calls| - 1;
    if i < n {
      FilterPrefix(calls[..n], keep, i);
      assert calls[..n][..i] == calls[..i] && calls[..n][..i + 1] == calls[..i + 1];
    } else {
      assert calls[..i + 1] == calls;
    }
  }

  /** A filtered run decides a kept call as the full run does, once the buckets agree before it. */
  lemma SameDecision(calls: seq<Call>, keep: (nat, Call) -> bool, i: nat)
    requires Ordered(calls) && i < |calls| && keep(i, calls[i])
    requires Ordered(calls[..i]) && Ordered(Filter(calls[..i], keep))
    requires Bucket(Filter(calls[..i], keep), calls[i].key) == Bucket(calls[..i], calls[i].key)
    ensures var (f, m) := (Filter(calls, keep), |Filter(calls[..i], keep)|);
      Ordered(f) && m < |f| && f[m] == calls[i] && Admits(f, m) == Admits(calls, i)
  {
    FilterOrdered(calls, keep);
    FilterPrefix(calls, keep, i);
    var f, g := Filter(calls, keep), Filter(calls[..i], keep);
    assert f[..|g|] == g && f[|g|] == calls[i];
  }

  ghost function OnKey(k: Key): (nat, Call) -> bool { (i: nat, c: Call) => c.key == k }

  lemma {:induction false} ProjectedBucket(calls: seq<Call>, k: Key)
    requires Ordered(calls)
    ensures Ordered(Filter(calls, OnKey(k))) && Bucket(Filter(calls, OnKey(k)), k) == Bucket(calls, k)
    decreases |calls|
  {
    hide After, Step, StepEntry;
    FilterOrdered(calls, OnKey(k));
    if calls != [] {
      var n := |calls| - 1;
      SplitLast(calls);
      ProjectedBucket(calls[..n], k);
      if calls[n].key == k {
        Extend(Filter(calls[..n], OnKey(k)), calls[n]);
      } else {
        assert Filter(calls, OnKey(k)) == Filter(calls[..n], OnKey(k));
      }
    }
  }

  /** Buckets do not interfere: each call is decided as in the run of its own key alone. */
  lemma KeysAreIndependent(calls: seq<Call>, i: nat)
    requires Ordered(calls) && i < |calls|
    ensures Ordered(calls[..i])
    ensures var (own, m) := (Filter(calls, OnKey(calls[i].key)), |Filter(calls[..i], OnKey(calls[i].key))|);
      Ordered(own) && m < |own| && own[m] == calls[i] && Admits(own, m) == Admits(calls, i)
  {
    assert Ordered(calls[..i]);
    ProjectedBucket(calls[..i], calls[i].key);
    SameDecision(calls, OnKey(calls[i].key), i);
  }

  /** Only refused calls are left out. */
  ghost predicate DropsRefused(calls: seq<Call>, keep: (nat, Call) -> bool)
    requires Ordered(calls)
  {
    forall i :: 0 <= i < |calls| && !keep(i, calls[i]) ==> !Admits(calls, i)
  }

  lemma {:induction false} RefusalsLeaveNoTrace(calls: seq<Call>, keep: (nat, Call) -> bool)
    requires Ordered(calls) && DropsRefused(calls, keep)
    ensures Ordered(Filter(calls, keep))
    ensures forall k :: Bucket(Filter(calls, keep), k) == Bucket(calls, k)
    decreases |calls|
  {
    hide After, Step, StepEntry, Bucket, Admits, Filter;
    FilterOrdered(calls, keep);
    if calls == [] {
      assert Filter(calls, keep) == calls by { FilterEmpty(keep); }
    } else {
      var n := |calls| - 1;
      SplitLast(calls);
      FilterLast(calls, keep);
      DropsRefusedPrefix(calls, keep, n);
      RefusalsLeaveNoTrace(calls[..n], keep);
      if keep(n, calls[n]) {
        Extend(Filter(calls[..n], keep), calls[n]);
      } else {
        AdmissionStamps(Bucket(calls[..n], calls[n].key), calls[n]);
      }
    }
  }

  lemma FilterEmpty(keep: (nat, Call) -> bool)
    ensures Filter([], keep) == []
  {
  }

  lemma {:induction false} FilterLast(calls: seq<Call>, keep: (nat, Call) -> bool)
    requires calls != []
    ensures var n := |calls| - 1;
      Filter(calls, keep) == if keep(n, calls[n]) then Filter(calls[..n], keep) + [calls[n]] else Filter(calls[..n], keep)
  {
  }

  lemma DropsRefusedPrefix(calls: seq<Call>, keep: (nat, Call) -> bool, n: nat)
    requires Ordered(calls) && DropsRefused(calls, keep) && n <= |calls|
    ensures Ordered(calls[..n]) && DropsRefused(calls[..n], keep)
  {
    forall i | 0 <= i < n && !keep(i, calls[i]) ensures !Admits(calls[..n], i) {
      assert calls[..n][..i] == calls[..i];
      assert !Admits(calls, i);
    }
  }

  /** Refused calls change nothing for anyone: leave out any of them, and every remaining call, on
      whatever key, is decided as before. */
  lemma RefusalsAreInvisible(calls: seq<Call>, keep: (nat, Call) -> bool, i: nat)
    requires Ordered(calls) && DropsRefused(calls, keep) && i < |calls| && keep(i, calls[i])
    ensures Ordered(calls[..i])
    ensures var (f, m) := (Filter(calls, keep), |Filter(calls[..i], keep)|);
      Ordered(f) && m < |f| && f[m] == calls[i] && Admits(f, m) == Admits(calls, i)
  {
    DropsRefusedPrefix(calls, keep, i);
    RefusalsLeaveNoTrace(calls[..i], keep);
    SameDecision(calls, keep, i);
  }
}
