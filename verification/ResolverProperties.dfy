/** What the resolver guarantees whatever the network does. */
module ResolverProperties {
  import opened Texts
  import opened Pdu
  import opened Resolver

  // ----- The receive loop -----

  /** A data response to the request with this id. */
  predicate Answers(kind: Byte, id: Word, a: Arrival, resp: Response) {
    a.Received? && Parse(kind, a.datagram) == Ok(resp) && !resp.isConfirm && resp.id == id
  }

  /** inbox[n] is the first arrival from i on that is not passed over. */
  ghost predicate DecidedBy(kind: Byte, id: Word, inbox: seq<Arrival>, i: nat, n: nat) {
    i <= n < |inbox| && !Skipped(kind, id, inbox[n]) && forall j :: i <= j < n ==> Skipped(kind, id, inbox[j])
  }

  lemma {:induction false} DecidingArrival(kind: Byte, id: Word, inbox: seq<Arrival>, i: nat, n: nat)
    requires DecidedBy(kind, id, inbox, i, n)
    ensures Receive(kind, id, inbox, i) == Receive(kind, id, inbox, n)
    decreases n - i
  {
    if i < n { DecidingArrival(kind, id, inbox, i + 1, n); }
  }

  /** The loop answers with resp exactly when some arrival answers the request with resp and all
      before it are confirmations or answers to other requests. */
  lemma {:induction false} ReceiveExact(kind: Byte, id: Word, inbox: seq<Arrival>, i: nat, resp: Response)
    requires i <= |inbox|
    ensures Receive(kind, id, inbox, i).0 == Answered(resp) <==>
      exists n: nat :: DecidedBy(kind, id, inbox, i, n) && Answers(kind, id, inbox[n], resp)
    decreases |inbox| - i
  {
    if i < |inbox| {
      if Skipped(kind, id, inbox[i]) {
        ReceiveExact(kind, id, inbox, i + 1, resp);
        forall n: nat ensures DecidedBy(kind, id, inbox, i, n) <==> DecidedBy(kind, id, inbox, i + 1, n) {
        }
      } else {
        assert DecidedBy(kind, id, inbox, i, i);
        forall n: nat | DecidedBy(kind, id, inbox, i, n) ensures n == i {
        }
      }
    }
  }

  lemma AnswerCarriesId(kind: Byte, id: Word, inbox: seq<Arrival>, resp: Response)
    requires Receive(kind, id, inbox, 0).0 == Answered(resp)
    ensures resp.id == id && !resp.isConfirm
  {
    ReceiveExact(kind, id, inbox, 0, resp);
  }

  /** It stops right behind the answer: later datagrams stay unread. */
  lemma StopsBehindAnswer(kind: Byte, id: Word, inbox: seq<Arrival>, n: nat, resp: Response)
    requires DecidedBy(kind, id, inbox, 0, n) && Answers(kind, id, inbox[n], resp)
    ensures Receive(kind, id, inbox, 0) == (Answered(resp), n + 1)
  {
    DecidingArrival(kind, id, inbox, 0, n);
  }

  /** All arrivals are passed over. */
  predicate AllSkipped(kind: Byte, id: Word, inbox: seq<Arrival>) {
    forall j :: 0 <= j < |inbox| ==> Skipped(kind, id, inbox[j])
  }

  lemma {:induction false} ReceiveShifts(kind: Byte, id: Word, x: seq<Arrival>, y: seq<Arrival>, k: nat)
    requires k <= |y|
    ensures Receive(kind, id, x + y, |x| + k).0 == Receive(kind, id, y, k).0
    decreases |y| - k
  {
    if k < |y| {
      assert (x + y)[|x| + k] == y[k];
      ReceiveShifts(kind, id, x, y, k + 1);
    }
  }

  /** What comes later counts exactly if all that comes first is passed over. */
  lemma {:induction false} ReceiveConcat(kind: Byte, id: Word, x: seq<Arrival>, y: seq<Arrival>, i: nat)
    requires i <= |x|
    ensures Receive(kind, id, x + y, i).0
      == if forall j :: i <= j < |x| ==> Skipped(kind, id, x[j]) then Receive(kind, id, y, 0).0 else Receive(kind, id, x, i).0
    decreases |x| - i
  {
    if i == |x| {
      ReceiveShifts(kind, id, x, y, 0);
    } else {
      assert (x + y)[i] == x[i];
      ReceiveConcat(kind, id, x, y, i + 1);
    }
  }

  /** An additional arrival, in front of rest and behind first, leaves the outcome as it is exactly when
      the loop ends before it, passes it over, or decides the same by it. */
  lemma AdditionalArrival(kind: Byte, id: Word, first: seq<Arrival>, a: Arrival, rest: seq<Arrival>)
    ensures Receive(kind, id, first + [a] + rest, 0).0 == Receive(kind, id, first + rest, 0).0 <==>
      || !AllSkipped(kind, id, first)
      || Skipped(kind, id, a)
      || Decision(kind, id, a) == Receive(kind, id, first + rest, 0).0
  {
    hide Receive, Skipped, Decision;
    ReceiveConcat(kind, id, first, rest, 0);
    ReceiveConcat(kind, id, first, [a] + rest, 0);
    ReceiveConcat(kind, id, [a], rest, 0);
    assert first + [a] + rest == first + ([a] + rest);
    ReceiveOne(kind, id, a);
    assert (forall j :: 0 <= j < |[a]| ==> Skipped(kind, id, [a][j])) <==> Skipped(kind, id, a) by {
      assert [a][0] == a;
    }
  }

  lemma ReceiveOne(kind: Byte, id: Word, a: Arrival)
    ensures !Skipped(kind, id, a) ==> Receive(kind, id, [a], 0).0 == Decision(kind, id, a)
  {
  }

  /** So what may arrive in front of the answer, or of what else would have decided, without doing harm:
      a datagram that parses, with another id or as a confirmation, or an equal answer. An error reply to
      whatever request, or a datagram that does not parse, is no such thing. */
  lemma HarmlessBeforeAnswer(kind: Byte, id: Word, inbox: seq<Arrival>, n: nat, resp: Response, a: Arrival, i: nat)
    requires DecidedBy(kind, id, inbox, 0, n) && Answers(kind, id, inbox[n], resp) && i <= n
    ensures Receive(kind, id, inbox[..i] + [a] + inbox[i..], 0).0 == Answered(resp)
      <==> Skipped(kind, id, a) || Answers(kind, id, a, resp)
  {
    hide Receive;
    assert inbox[..i] + inbox[i..] == inbox;
    StopsBehindAnswer(kind, id, inbox, n, resp);
    AdditionalArrival(kind, id, inbox[..i], a, inbox[i..]);
  }

  /** A confirmation makes no difference wherever it arrives, to a request of either type: whatever its
      four bytes are, outcome and error are those without it. */
  lemma ConfirmationsDoNotMatter(kind: Byte, id: Word, first: seq<Arrival>, d: Datagram, rest: seq<Arrival>)
    requires (kind == 0 || kind == 1) && |d| == 4
    ensures Receive(kind, id, first + [Received(d)] + rest, 0).0 == Receive(kind, id, first + rest, 0).0
  {
    hide Receive, Parse;
    FourBytesConfirm(kind, d);
    AdditionalArrival(kind, id, first, Received(d), rest);
  }

  /** Nor do data replies to other requests, of the layouts of either type. */
  lemma OtherRepliesDoNotMatter(id: Word, other: Word, first: seq<Arrival>, lrn: Bytes, tag: Bytes, json: Bytes, rest: seq<Arrival>)
    requires id != other && |lrn| + |tag| < 256 && 0 < |json| < 2040
    ensures Receive(0, id, first + [Received(TaggedResponseBytes(other, lrn, tag))] + rest, 0).0 == Receive(0, id, first + rest, 0).0
    ensures Receive(1, id, first + [Received(JsonResponseBytes(other, json))] + rest, 0).0 == Receive(1, id, first + rest, 0).0
  {
    hide Receive, Parse;
    var t, j := TaggedResponseBytes(other, lrn, tag), JsonResponseBytes(other, json);
    TaggedResponseRoundTrip(other, lrn, tag, []);
    JsonResponseRoundTrip(other, json, []);
    assert t + [] == t && j + [] == j;
    AdditionalArrival(0, id, first, Received(t), rest);
    AdditionalArrival(1, id, first, Received(j), rest);
  }

  /** What ends the loop, and how: the answer to this request, an error reply, a datagram that does not
      parse, an error of the transport with its text or without, or that nothing more arrives. */
  lemma FirstArrivalDecides(kind: Byte, id: Word, rest: seq<Arrival>, d: Datagram, text: Option<Error>)
    ensures forall resp :: Parse(kind, d) == Ok(resp) && !resp.isConfirm && resp.id == id ==>
      Receive(kind, id, [Received(d)] + rest, 0) == (Answered(resp), 1)
    ensures forall code, e :: Parse(kind, d) == Bad(code, e) ==> Receive(kind, id, [Received(d)] + rest, 0) == (Failed(e), 1)
    ensures Receive(kind, id, [RecvError(text)] + rest, 0)
      == (Failed(if text == None then Some(ReceiveFailed(id)) else text), 1)
    ensures Receive(kind, id, [], 0) == (Failed(Some(TransportError)), 0)
  {
    hide Parse;
    assert ([Received(d)] + rest)[0] == Received(d);
    assert ([RecvError(text)] + rest)[0] == RecvError(text);
  }

  // ----- Failover -----

  /** The i-th position from curr on around the ring, for at most one full turn. */
  function Position(curr: nat, i: nat, count: nat): nat {
    if curr + i < count then curr + i else if curr + i >= 2 * count then 0 else curr + i - count
  }

  lemma NextPosition(curr: nat, count: nat)
    requires curr < count
    ensures (curr + 1) % count == Position(curr, 1, count)
  {
    if curr + 1 < count {
      assert (curr + 1) % count == curr + 1;
    } else {
      assert count % count == 0;
    }
  }

  /** Attempt j of a run starting with attempt k waits in vain. */
  predicate InVain(net: Network, j: nat) { net.sent(j) && !net.polls(j).Ready? }

  /** The requests of a run go to consecutive endpoints, as encoded; each but the last waits in vain;
      an answer comes from the loop of the last. */
  ghost predicate FailsOver(r: Run, req: Request, net: Network, count: nat, curr: nat, k: nat, left: nat)
    requires count > 0
  {
    && |r.probes| <= left
    && (forall i :: 0 <= i < |r.probes| ==>
         && r.probes[i].endpoint == Position(curr, i, count)
         && Encode(req.(id := r.probes[i].id)).0 == Some(r.probes[i].packet))
    && (forall j :: k <= j < k + |r.probes| - 1 ==> InVain(net, j))
    && (r.outcome.Answered? ==>
         && |r.probes| > 0
         && var last := r.probes[|r.probes| - 1];
         && r.curr == last.endpoint && r.lastId == last.id
         && net.sent(k + |r.probes| - 1) && net.polls(k + |r.probes| - 1).Ready?
         && Receive(req.kind, last.id, net.inbox, 0).0 == r.outcome)
  }

  lemma {:induction false} AttemptsFailOver(req: Request, net: Network, count: nat, curr: nat, lastId: Word, k: nat, left: nat, error: Option<Error>)
    requires curr < count && left <= count
    ensures FailsOver(Attempts(req, net, count, curr, lastId, k, left, error), req, net, count, curr, k, left)
    decreases left
  {
    hide Receive, Encode;
    NextPosition(curr, count);
    var id := NextId(lastId, net.random(k));
    if left > 0 && Encode(req.(id := id)).0.Some? && InVain(net, k) {
      var e := WaitError(net.polls(k), id);
      var rest := Attempts(req, net, count, (curr + 1) % count, id, k + 1, left - 1, Some(e));
      AttemptsFailOver(req, net, count, (curr + 1) % count, id, k + 1, left - 1, Some(e));
      PrependFailsOver(Probe(curr, id, Encode(req.(id := id)).0.value), rest, req, net, count, curr, k, left);
    }
  }

  lemma PrependFailsOver(p: Probe, rest: Run, req: Request, net: Network, count: nat, curr: nat, k: nat, left: nat)
    requires curr < count && 0 < left <= count && InVain(net, k)
    requires FailsOver(rest, req, net, count, Position(curr, 1, count), k + 1, left - 1)
    requires p.endpoint == curr && Encode(req.(id := p.id)).0 == Some(p.packet)
    ensures FailsOver(Prepend(p, rest), req, net, count, curr, k, left)
  {
    hide Receive, Encode;
    var r := Prepend(p, rest);
    forall i | 0 <= i < |r.probes|
      ensures r.probes[i].endpoint == Position(curr, i, count) && Encode(req.(id := r.probes[i].id)).0 == Some(r.probes[i].packet)
    {
      if i > 0 {
        assert r.probes[i] == rest.probes[i - 1];
      }
    }
  }

  /** One call sends at most one request to each endpoint. */
  lemma NoEndpointTwice(req: Request, net: Network, count: nat, curr: nat, lastId: Word, error: Option<Error>)
    requires curr < count
    ensures var r := Resolve(req, net, count, curr, lastId, error);
      && FailsOver(r, req, net, count, curr, 0, count)
      && forall i, j :: 0 <= i < j < |r.probes| ==> r.probes[i].endpoint != r.probes[j].endpoint
  {
    AttemptsFailOver(req, net, count, curr, lastId, 0, count, error);
  }

  /** The counter after n further ids. */
  function IdAfter(last: Word, random: nat -> Word, n: nat): Word {
    if n == 0 then last else NextId(IdAfter(last, random, n - 1), random(n - 1))
  }

  /** A counter that is not zero counts up to the wrap, through zero, and only then draws again. */
  lemma {:induction false} IdsUntilWrap(last: Word, random: nat -> Word, n: nat)
    requires 0 < last && last + n <= 0x1_0000_0001
    ensures IdAfter(last, random, n) ==
      if last + n < 0x1_0000_0000 then last + n
      else if last + n == 0x1_0000_0000 then 0
      else random(n - 1)
  {
    if n > 0 { IdsUntilWrap(last, random, n - 1); }
  }

  ghost function From(random: nat -> Word, k: nat): nat -> Word { (i: nat) => random(k + i) }

  lemma {:induction false} IdAfterShifts(last: Word, random: nat -> Word, k: nat, n: nat)
    ensures IdAfter(last, From(random, k), n + 1) == IdAfter(NextId(last, random(k)), From(random, k + 1), n)
  {
    if n > 0 { IdAfterShifts(last, random, k, n - 1); }
  }

  /** A run whose first j attempts wait in vain is their j requests, and then the run that starts j
      endpoints on with the counter j ids on: nothing else of them is left. */
  lemma {:induction false} AbandonedAttempts(req: Request, net: Network, count: nat, curr: nat, lastId: Word, k: nat, left: nat,
                                             error: Option<Error>, j: nat)
    requires curr < count && 0 < j <= left <= count && Encode(req).0.Some?
    requires forall i :: k <= i < k + j ==> InVain(net, i)
    ensures Position(curr, j, count) < count
    ensures var id := IdAfter(lastId, From(net.random, k), j);
      var r := Attempts(req, net, count, curr, lastId, k, left, error);
      var rest := Attempts(req, net, count, Position(curr, j, count), id, k + j, left - j, Some(WaitError(net.polls(k + j - 1), id)));
      |r.probes| >= j && r == rest.(probes := r.probes[..j] + rest.probes)
    decreases j
  {
    hide Attempts, Encode, NextId, Receive, IdAfter;
    var id, next := NextId(lastId, net.random(k)), Position(curr, 1, count);
    var e := Some(WaitError(net.polls(k), id));
    var p, tail := Probe(curr, id, Encode(req.(id := id)).0.GetOr([])), Attempts(req, net, count, next, id, k + 1, left - 1, e);
    AttemptInVain(req, net, count, curr, lastId, k, left, error);
    EncodesAnyId(req, id);
    IdAfterShifts(lastId, net.random, k, j - 1);
    if j > 1 {
      AbandonedAttempts(req, net, count, next, id, k + 1, left - 1, e, j - 1);
      assert Prepend(p, tail).probes[..j] == [p] + tail.probes[..j - 1];
    } else {
      FirstIdAfter(id, From(net.random, k + 1));
      assert Prepend(p, tail).probes[..1] == [p];
    }
  }

  lemma FirstIdAfter(last: Word, random: nat -> Word)
    ensures IdAfter(last, random, 0) == last
  {
  }

  /** A request that waits in vain is sent, and the run goes on at the next endpoint. */
  lemma AttemptInVain(req: Request, net: Network, count: nat, curr: nat, lastId: Word, k: nat, left: nat, error: Option<Error>)
    requires curr < count && left > 0 && Encode(req).0.Some? && InVain(net, k)
    ensures Position(curr, 1, count) < count
    ensures var id := NextId(lastId, net.random(k));
      var p := Probe(curr, id, Encode(req.(id := id)).0.GetOr([]));
      Attempts(req, net, count, curr, lastId, k, left, error)
        == Prepend(p, Attempts(req, net, count, Position(curr, 1, count), id, k + 1, left - 1, Some(WaitError(net.polls(k), id))))
  {
    hide NextId, Receive, Encode;
    NextPosition(curr, count);
    EncodesAnyId(req, NextId(lastId, net.random(k)));
  }

  lemma EncodesAnyId(req: Request, id: Word)
    ensures Encode(req.(id := id)).0.Some? <==> Encode(req).0.Some?
  {
  }

  /** If every wait is in vain, every endpoint is tried and the position comes back to its start. */
  lemma {:induction false} AllInVain(req: Request, net: Network, count: nat, curr: nat, lastId: Word, k: nat, left: nat, error: Option<Error>)
    requires curr < count && left <= count && Encode(req).0.Some?
    requires forall j :: k <= j < k + left ==> InVain(net, j)
    ensures var r := Attempts(req, net, count, curr, lastId, k, left, error);
      && |r.probes| == left && r.curr == Position(curr, left, count) && r.outcome.Failed?
      && (left > 0 ==> match net.polls(k + left - 1)
           case PollError(errno) => r.outcome.error == Some(PollFailed(errno, r.lastId))
           case _ => r.outcome.error == Some(RttExpired(r.lastId)))
  {
    hide Attempts, Encode;
    if left > 0 {
      AbandonedAttempts(req, net, count, curr, lastId, k, left, error, left);
      var id := IdAfter(lastId, From(net.random, k), left);
      OutOfAttempts(req, net, count, Position(curr, left, count), id, k + left, Some(WaitError(net.polls(k + left - 1), id)));
    } else {
      OutOfAttempts(req, net, count, curr, lastId, k, error);
    }
  }

  lemma RingComesRound(req: Request, net: Network, count: nat, curr: nat, lastId: Word, error: Option<Error>)
    requires curr < count && Encode(req).0.Some? && forall j :: 0 <= j < count ==> InVain(net, j)
    ensures var r := Resolve(req, net, count, curr, lastId, error);
      && |r.probes| == count && r.curr == curr
      && match net.polls(count - 1)
         case PollError(errno) => r.outcome == Failed(Some(PollFailed(errno, r.lastId)))
         case _ => r.outcome == Failed(Some(RttExpired(r.lastId)))
  {
    AllInVain(req, net, count, curr, lastId, 0, count, error);
  }

  /** The first attempt that gets through decides the call, whatever its receive loop ends with: the
      position stays on its endpoint, and nobody else is asked. */
  lemma GettingThroughDecides(req: Request, net: Network, count: nat, curr: nat, lastId: Word, k: nat, left: nat, error: Option<Error>, j: nat)
    requires curr < count && j < left <= count && Encode(req).0.Some?
    requires (forall i :: k <= i < k + j ==> InVain(net, i)) && net.sent(k + j) && net.polls(k + j).Ready?
    ensures var r := Attempts(req, net, count, curr, lastId, k, left, error);
      var id := IdAfter(lastId, From(net.random, k), j + 1);
      && |r.probes| == j + 1 && r.lastId == id && r.curr == Position(curr, j, count)
      && r.outcome == Receive(req.kind, id, net.inbox, 0).0
  {
    hide Attempts, Encode, NextId, Receive, InVain;
    var id := IdAfter(lastId, From(net.random, k), j);
    assert From(net.random, k)(j) == net.random(k + j);
    if j == 0 {
      GettingThrough(req, net, count, curr, id, k, left, error);
    } else {
      AbandonedAttempts(req, net, count, curr, lastId, k, left, error, j);
      GettingThrough(req, net, count, Position(curr, j, count), id, k + j, left - j, Some(WaitError(net.polls(k + j - 1), id)));
    }
  }

  lemma GettingThrough(req: Request, net: Network, count: nat, curr: nat, lastId: Word, k: nat, left: nat, error: Option<Error>)
    requires curr < count && left > 0 && Encode(req).0.Some? && net.sent(k) && net.polls(k).Ready?
    ensures var r := Attempts(req, net, count, curr, lastId, k, left, error);
      var id := NextId(lastId, net.random(k));
      |r.probes| == 1 && r.lastId == id && r.curr == curr && r.outcome == Receive(req.kind, id, net.inbox, 0).0
  {
    hide Receive, Encode, NextId;
    EncodesAnyId(req, NextId(lastId, net.random(k)));
  }

  /** A request that cannot be encoded uses up an id and fails at once, unsent: too much data says so, a
      type neither 0 nor 1 leaves the error as it was. */
  lemma NotEncoded(req: Request, net: Network, count: nat, curr: nat, lastId: Word, error: Option<Error>)
    requires curr < count
    requires (req.kind == 0 && |req.data| > 2041) || (req.kind == 1 && |req.data| > 2038) || (req.kind != 0 && req.kind != 1)
    ensures Resolve(req, net, count, curr, lastId, error)
      == Run(Failed(if req.kind == 0 || req.kind == 1 then Some(MessageTooLong) else error), [], curr, NextId(lastId, net.random(0)))
  {
    hide NextId;
  }

  // ----- A failed send -----

  /** Attempt j is the first that does not wait in vain from k on, and its send fails. */
  ghost predicate SendFailsFirst(net: Network, k: nat, j: nat) {
    k <= j && !net.sent(j) && forall i :: k <= i < j ==> InVain(net, i)
  }

  ghost predicate SendFailsWithin(net: Network, k: nat, left: nat) {
    exists j: nat :: j < k + left && SendFailsFirst(net, k, j)
  }

  lemma SendFailsStep(net: Network, k: nat, left: nat)
    requires left > 0
    ensures SendFailsWithin(net, k, left) <==> !net.sent(k) || (InVain(net, k) && SendFailsWithin(net, k + 1, left - 1))
    ensures forall j: nat :: InVain(net, k) && SendFailsFirst(net, k + 1, j) ==> SendFailsFirst(net, k, j)
    ensures !net.sent(k) ==> SendFailsFirst(net, k, k)
  {
    if !net.sent(k) {
      assert SendFailsFirst(net, k, k);
    }
    if InVain(net, k) && SendFailsWithin(net, k + 1, left - 1) {
      var j: nat :| j < k + left && SendFailsFirst(net, k + 1, j);
      assert SendFailsFirst(net, k, j);
    }
    if net.sent(k) && SendFailsWithin(net, k, left) {
      var j: nat :| j < k + left && SendFailsFirst(net, k, j);
      assert SendFailsFirst(net, k + 1, j);
    }
  }

  /** The attempt of the last request of a run from attempt k at curr is that send, and the position the
      endpoint it went to. */
  ghost predicate EndsOnFailedSend(r: Run, net: Network, count: nat, curr: nat, k: nat, left: nat) {
    && 0 < |r.probes| <= left
    && SendFailsFirst(net, k, k + |r.probes| - 1)
    && r.curr == Position(curr, |r.probes| - 1, count)
  }

  /** A call is aborted exactly when a send fails before an attempt gets through, and then it ends on the
      endpoint of that send: there is no failover from it. */
  lemma {:induction false} AbortsIffSendFails(req: Request, net: Network, count: nat, curr: nat, lastId: Word, k: nat, left: nat,
                                              error: Option<Error>)
    requires curr < count && left <= count
    ensures var r := Attempts(req, net, count, curr, lastId, k, left, error);
      && (r.outcome.Aborted? <==> Encode(req).0.Some? && SendFailsWithin(net, k, left))
      && (r.outcome.Aborted? ==> EndsOnFailedSend(r, net, count, curr, k, left))
    decreases left
  {
    hide Receive, Encode, NextId, SendFailsWithin, SendFailsFirst;
    if left == 0 {
      NoSendLeft(net, k);
    } else {
      var id := NextId(lastId, net.random(k));
      EncodesAnyId(req, id);
      SendFailsStep(net, k, left);
      if Encode(req).0.Some? && InVain(net, k) {
        var next, e := Position(curr, 1, count), Some(WaitError(net.polls(k), id));
        AttemptInVain(req, net, count, curr, lastId, k, left, error);
        hide Attempts;
        AbortsIffSendFails(req, net, count, next, id, k + 1, left - 1, e);
      } else {
        ReceiveNeverAborts(req.kind, id, net.inbox, 0);
      }
    }
  }

  lemma NoSendLeft(net: Network, k: nat)
    ensures !SendFailsWithin(net, k, 0)
  {
  }

  lemma {:induction false} ReceiveNeverAborts(kind: Byte, id: Word, inbox: seq<Arrival>, i: nat)
    requires i <= |inbox|
    ensures !Receive(kind, id, inbox, i).0.Aborted?
    decreases |inbox| - i
  {
    if i < |inbox| { ReceiveNeverAborts(kind, id, inbox, i + 1); }
  }

  /** One of several requests on the same ring, with the error pointer passed in. */
  datatype Asked = Asked(req: Request, net: Network, error: Option<Error>)

  /** Request n on a ring of count endpoints, position and counter going from one to the next. */
  function RunOnRing(asked: seq<Asked>, count: nat, curr: nat, lastId: Word, n: nat): Run
    requires n < |asked| && curr < count
  {
    var a := asked[0];
    var r := Resolve(a.req, a.net, count, curr, lastId, a.error);
    StaysOnRing(a.req, a.net, count, curr, lastId, 0, count, a.error);
    if n == 0 then r else RunOnRing(asked[1..], count, r.curr, r.lastId, n - 1)
  }

  lemma {:induction false} StaysOnRing(req: Request, net: Network, count: nat, curr: nat, lastId: Word, k: nat, left: nat, error: Option<Error>)
    requires curr < count
    ensures Attempts(req, net, count, curr, lastId, k, left, error).curr < count
    decreases left
  {
    hide Receive, Encode;
    if left > 0 {
      var id := NextId(lastId, net.random(k));
      StaysOnRing(req, net, count, (curr + 1) % count, id, k + 1, left - 1, Some(WaitError(net.polls(k), id)));
    }
  }

  /** How many steps lead from position a to endpoint x. */
  function Steps(a: nat, x: nat, count: nat): nat
    requires a < count && x < count
  {
    if a <= x then x - a else x + count - a
  }

  /** Sends to x fail: whenever the turn comes to x in a call, its send does not get through. */
  predicate Unreachable(asked: seq<Asked>, count: nat, curr: nat, lastId: Word, x: nat)
    requires curr < count && x < count
  {
    asked == [] ||
      var a := asked[0];
      var r := Resolve(a.req, a.net, count, curr, lastId, a.error);
      StaysOnRing(a.req, a.net, count, curr, lastId, 0, count, a.error);
      !a.net.sent(Steps(curr, x, count)) && Unreachable(asked[1..], count, r.curr, r.lastId, x)
  }

  /** A run asks no endpoint behind one to which sends fail. */
  ghost predicate StopsAt(r: Run, curr: nat, x: nat, count: nat)
    requires curr < count && x < count
  {
    && r.curr < count && Steps(r.curr, x, count) <= Steps(curr, x, count)
    && forall p <- r.probes :: p.endpoint < count && Steps(p.endpoint, x, count) <= Steps(curr, x, count)
  }

  lemma {:induction false} AttemptsStopAt(req: Request, net: Network, count: nat, curr: nat, lastId: Word, k: nat, left: nat,
                                          error: Option<Error>, x: nat)
    requires curr < count && x < count && !net.sent(k + Steps(curr, x, count))
    ensures StopsAt(Attempts(req, net, count, curr, lastId, k, left, error), curr, x, count)
    decreases left
  {
    hide Receive, Encode, NextId;
    if left > 0 {
      var id, next := NextId(lastId, net.random(k)), Position(curr, 1, count);
      EncodesAnyId(req, id);
      if Encode(req).0.Some? && InVain(net, k) {
        var e := Some(WaitError(net.polls(k), id));
        AttemptInVain(req, net, count, curr, lastId, k, left, error);
        hide Attempts;
        AttemptsStopAt(req, net, count, next, id, k + 1, left - 1, e, x);
      }
    }
  }

  /** However many calls are made, an endpoint to which sends fail is never passed: all that is asked lies
      from the first position up to it. */
  lemma {:induction false} NeverPassed(asked: seq<Asked>, count: nat, curr: nat, lastId: Word, x: nat, n: nat)
    requires curr < count && x < count && n < |asked| && Unreachable(asked, count, curr, lastId, x)
    ensures StopsAt(RunOnRing(asked, count, curr, lastId, n), curr, x, count)
    decreases n
  {
    hide Attempts;
    var a := asked[0];
    var r := Resolve(a.req, a.net, count, curr, lastId, a.error);
    AttemptsStopAt(a.req, a.net, count, curr, lastId, 0, count, a.error, x);
    if n > 0 { NeverPassed(asked[1..], count, r.curr, r.lastId, x, n - 1); }
  }

  /** And once a call starts at it, that call and all that follow are aborted there. */
  lemma {:induction false} StuckAtFailingSend(asked: seq<Asked>, count: nat, x: nat, lastId: Word, n: nat)
    requires x < count && n < |asked|
    requires forall a <- asked :: Encode(a.req).0.Some? && !a.net.sent(0)
    ensures var r := RunOnRing(asked, count, x, lastId, n);
      r.outcome.Aborted? && r.curr == x && |r.probes| == 1 && r.probes[0].endpoint == x
    decreases n
  {
    hide Encode, NextId, Receive;
    var a := asked[0];
    EncodesAnyId(a.req, NextId(lastId, a.net.random(0)));
    var r := Resolve(a.req, a.net, count, x, lastId, a.error);
    assert r.outcome.Aborted? && r.curr == x;
    hide Resolve;
    if n > 0 { StuckAtFailingSend(asked[1..], count, x, r.lastId, n - 1); }
  }

  /** For instance, of two endpoints the first fails to be sent to: the second, which would answer, is not
      asked, neither by this call nor by the next. */
  lemma SecondEndpointNotAsked(lastId: Word, inbox: seq<Arrival>)
    ensures var a := Asked(Request(0, TAGGED, 0, []), Network(k => k > 0, k => Ready, k => 1, inbox), None);
      forall n :: 0 <= n < 2 ==>
        var r := RunOnRing([a, a], 2, 0, lastId, n);
        r.outcome.Aborted? && |r.probes| == 1 && r.probes[0].endpoint == 0
  {
    var a := Asked(Request(0, TAGGED, 0, []), Network(k => k > 0, k => Ready, k => 1, inbox), None);
    StuckAtFailingSend([a, a], 2, 0, lastId, 0);
    StuckAtFailingSend([a, a], 2, 0, lastId, 1);
  }

  // ----- The error pointer -----

  lemma {:induction false} ReceiveFailsWithError(kind: Byte, id: Word, inbox: seq<Arrival>, i: nat)
    requires i <= |inbox| && (kind == TAGGED || kind == CNAM)
    ensures Receive(kind, id, inbox, i).0.Failed? ==> Receive(kind, id, inbox, i).0.error.Some?
    decreases |inbox| - i
  {
    if i < |inbox| && Skipped(kind, id, inbox[i]) {
      ReceiveFailsWithError(kind, id, inbox, i + 1);
    }
  }

  lemma {:induction false} AttemptsFailWithError(req: Request, net: Network, count: nat, curr: nat, lastId: Word, k: nat, left: nat, error: Option<Error>)
    requires curr < count && (req.kind == TAGGED || req.kind == CNAM)
    ensures ErrorOf(Attempts(req, net, count, curr, lastId, k, left, error).outcome).Some?
      <==> Attempts(req, net, count, curr, lastId, k, left, error).outcome.Failed?
    decreases left
  {
    hide Receive;
    if left > 0 {
      var id := NextId(lastId, net.random(k));
      ReceiveFailsWithError(req.kind, id, net.inbox, 0);
      AttemptsFailWithError(req, net, count, (curr + 1) % count, id, k + 1, left - 1,
        Some(WaitError(net.polls(k), id)));
    }
  }

  /** Without endpoints nothing is sent, and the error says so. */
  lemma NoEndpoint(req: Request, net: Network, lastId: Word, error: Option<Error>)
    ensures Resolve(req, net, 0, 0, lastId, error) == Run(Failed(Some(NoEndpoints)), [], 0, lastId)
  {
  }

  /** The error pointer, null before the call, tells success from failure for every network exactly
      when the request is of a known kind or there is no endpoint to ask. */
  lemma ErrorIffFailure(req: Request, net: Network, count: nat, curr: nat, lastId: Word)
    requires count > 0 ==> curr < count
    ensures var outcome := Resolve(req, net, count, curr, lastId, None).outcome;
      (ErrorOf(outcome).Some? <==> outcome.Failed?) <==> req.kind == TAGGED || req.kind == CNAM || count == 0
  {
    if count > 0 && (req.kind == TAGGED || req.kind == CNAM) {
      AttemptsFailWithError(req, net, count, curr, lastId, 0, count, None);
    }
  }

  // ----- Request ids -----

  /** Ids count on from the first one while it is not zero and the counter does not wrap. */
  lemma {:induction false} IdsCountOn(req: Request, net: Network, count: nat, curr: nat, lastId: Word, k: nat, left: nat, error: Option<Error>)
    requires curr < count && left > 0
    requires 0 < NextId(lastId, net.random(k)) && NextId(lastId, net.random(k)) + left <= 0x1_0000_0000
    ensures var (first, r) := (NextId(lastId, net.random(k)), Attempts(req, net, count, curr, lastId, k, left, error));
      && (forall i :: 0 <= i < |r.probes| ==> r.probes[i].id == first + i)
      && first <= r.lastId < first + left && (|r.probes| > 0 ==> first + |r.probes| - 1 <= r.lastId)
    decreases left
  {
    hide Receive, Encode, NextId;
    var id := NextId(lastId, net.random(k));
    var r := Attempts(req, net, count, curr, lastId, k, left, error);
    if Encode(req.(id := id)).0.Some? && InVain(net, k) {
      var e := WaitError(net.polls(k), id);
      var next := (curr + 1) % count;
      var rest := Attempts(req, net, count, next, id, k + 1, left - 1, Some(e));
      assert r == Prepend(Probe(curr, id, Encode(req.(id := id)).0.value), rest);
      hide Attempts;
      if left > 1 {
        CountsOn(id, net.random(k + 1));
        IdsCountOn(req, net, count, next, id, k + 1, left - 1, Some(e));
        assert forall i | 1 <= i < |r.probes| :: r.probes[i] == rest.probes[i - 1];
      } else {
        OutOfAttempts(req, net, count, next, id, k + 1, Some(e));
      }
    }
  }

  lemma CountsOn(last: Word, random: Word)
    requires 0 < last && last + 1 < 0x1_0000_0000
    ensures NextId(last, random) == last + 1
  {
  }

  // ----- Any number of calls -----

  /** One use of the resolver: what is asked, how the network behaves, the ring as it is then, and the
      error pointer passed in. */
  datatype Use = Use(req: Request, net: Network, count: nat, curr: nat, error: Option<Error>)

  predicate Callable(u: Use) { u.count > 0 ==> u.curr < u.count }

  function RunOf(u: Use, lastId: Word): Run
    requires Callable(u)
  {
    Resolve(u.req, u.net, u.count, u.curr, lastId, u.error)
  }

  /** Run n of the successive uses, the counter going from one to the next. */
  function NthRun(uses: seq<Use>, lastId: Word, n: nat): Run
    requires n < |uses| && forall u <- uses :: Callable(u)
  {
    if n == 0 then RunOf(uses[0], lastId) else NthRun(uses[1..], RunOf(uses[0], lastId).lastId, n - 1)
  }

  /** How many ids the uses draw at most. */
  function MostIds(uses: seq<Use>): nat {
    if uses == [] then 0 else uses[0].count + MostIds(uses[1..])
  }

  /** All ids of a run are above lo, and none is above its last one. */
  ghost predicate IdsWithin(r: Run, lo: Word) {
    lo <= r.lastId && forall i :: 0 <= i < |r.probes| ==> lo < r.probes[i].id <= r.lastId
  }

  lemma IdsOfUse(u: Use, lastId: Word)
    requires Callable(u) && 0 < lastId && lastId + u.count < 0x1_0000_0000
    ensures IdsWithin(RunOf(u, lastId), lastId) && RunOf(u, lastId).lastId <= lastId + u.count
  {
    hide Attempts;
    if u.count > 0 {
      CountsOn(lastId, u.net.random(0));
      IdsCountOn(u.req, u.net, u.count, u.curr, lastId, 0, u.count, u.error);
    }
  }

  /** Ids only grow from use to use. */
  lemma {:induction false} IdsOfLaterUse(uses: seq<Use>, lastId: Word, n: nat)
    requires n < |uses| && (forall u <- uses :: Callable(u)) && 0 < lastId && lastId + MostIds(uses) < 0x1_0000_0000
    ensures IdsWithin(NthRun(uses, lastId, n), lastId)
    decreases n
  {
    hide RunOf;
    IdsOfUse(uses[0], lastId);
    if n > 0 { IdsOfLaterUse(uses[1..], RunOf(uses[0], lastId).lastId, n - 1); }
  }

  /** The answer of run n carries the id of its last request, and no id of any other request. */
  ghost predicate AnswersLastRequest(uses: seq<Use>, lastId: Word, n: nat, resp: Response)
    requires n < |uses| && forall u <- uses :: Callable(u)
  {
    var r := NthRun(uses, lastId, n);
    && |r.probes| > 0 && resp.id == r.probes[|r.probes| - 1].id
    && (forall i :: 0 <= i < |r.probes| - 1 ==> r.probes[i].id != resp.id)
    && (forall m, i :: 0 <= m < n && 0 <= i < |NthRun(uses, lastId, m).probes| ==>
          NthRun(uses, lastId, m).probes[i].id != resp.id)
  }

  lemma AnswerOfUse(u: Use, lastId: Word, resp: Response)
    requires Callable(u) && RunOf(u, lastId).outcome == Answered(resp)
    requires var first := NextId(lastId, u.net.random(0)); u.count > 0 ==> 0 < first && first + u.count <= 0x1_0000_0000
    ensures AnswersLastRequest([u], lastId, 0, resp)
  {
    hide Attempts, Receive, Encode, NextId;
    if u.count > 0 {
      var r := RunOf(u, lastId);
      IdsCountOn(u.req, u.net, u.count, u.curr, lastId, 0, u.count, u.error);
      AttemptsFailOver(u.req, u.net, u.count, u.curr, lastId, 0, u.count, u.error);
      AnswerCarriesId(u.req.kind, r.probes[|r.probes| - 1].id, u.net.inbox, resp);
    }
  }

  /** A use that went before draws no id that a later one answers to. */
  lemma AddEarlierUse(uses: seq<Use>, lastId: Word, n: nat, resp: Response)
    requires 0 < n < |uses| && (forall u <- uses :: Callable(u))
    requires var r := RunOf(uses[0], lastId);
      && (forall i :: 0 <= i < |r.probes| ==> r.probes[i].id <= r.lastId)
      && AnswersLastRequest(uses[1..], r.lastId, n - 1, resp)
      && IdsWithin(NthRun(uses[1..], r.lastId, n - 1), r.lastId)
    ensures AnswersLastRequest(uses, lastId, n, resp)
  {
    hide RunOf;
    var r := RunOf(uses[0], lastId);
    forall m, i | 0 <= m < n && 0 <= i < |NthRun(uses, lastId, m).probes|
      ensures NthRun(uses, lastId, m).probes[i].id != resp.id
    {
      if m > 0 {
        assert NthRun(uses, lastId, m) == NthRun(uses[1..], r.lastId, m - 1);
      }
    }
  }

  lemma {:induction false} LaterAnswers(uses: seq<Use>, lastId: Word, n: nat, resp: Response)
    requires n < |uses| && (forall u <- uses :: Callable(u)) && 0 < lastId && lastId + MostIds(uses) < 0x1_0000_0000
    requires NthRun(uses, lastId, n).outcome == Answered(resp)
    ensures AnswersLastRequest(uses, lastId, n, resp)
    decreases n
  {
    hide RunOf;
    if n == 0 {
      if uses[0].count > 0 { CountsOn(lastId, uses[0].net.random(0)); }
      AnswerOfUse(uses[0], lastId, resp);
    } else {
      IdsOfUse(uses[0], lastId);
      var next := RunOf(uses[0], lastId).lastId;
      LaterAnswers(uses[1..], next, n - 1, resp);
      IdsOfLaterUse(uses[1..], next, n - 1);
      AddEarlierUse(uses, lastId, n, resp);
    }
  }

  /** Late replies: over any number of uses, with a nonzero first id and no wrap, an answer accepted by
      any of them carries neither the id of an earlier use nor one of its own abandoned attempts. */
  lemma LateRepliesAreNeverAccepted(uses: seq<Use>, lastId: Word, n: nat, resp: Response)
    requires n < |uses| && (forall u <- uses :: Callable(u)) && uses[0].count > 0
    requires var first := NextId(lastId, uses[0].net.random(0)); 0 < first && first + MostIds(uses) <= 0x1_0000_0000
    requires NthRun(uses, lastId, n).outcome == Answered(resp)
    ensures AnswersLastRequest(uses, lastId, n, resp)
  {
    hide Attempts, NextId, Receive, Encode;
    var u := uses[0];
    assert u in uses;
    if n == 0 {
      AnswerOfUse(u, lastId, resp);
    } else {
      IdsCountOn(u.req, u.net, u.count, u.curr, lastId, 0, u.count, u.error);
      var next := RunOf(u, lastId).lastId;
      LaterAnswers(uses[1..], next, n - 1, resp);
      IdsOfLaterUse(uses[1..], next, n - 1);
      AddEarlierUse(uses, lastId, n, resp);
    }
  }

  /** A tagged request without data to the only endpoint, with that end of the wait and those arrivals. */
  function SingleUse(poll: Poll, inbox: seq<Arrival>): Use {
    Use(Request(0, TAGGED, 0, []), Network(k => true, k => poll, k => 0, inbox), 1, 0, None)
  }

  function Reply(id: Word, lrn: Bytes): Arrival
    requires |lrn| < 0x100
  {
    Received(TaggedResponseBytes(id, lrn, []))
  }

  /** For instance: the reply to a request that timed out comes just before the reply to the next
      request. The first is passed over, the second taken. */
  lemma LateReplyIsPassedOver(lastId: Word, late: Bytes, lrn: Bytes)
    requires 0 < lastId && lastId + 2 < 0x1_0000_0000 && |late| < 0x100 && |lrn| < 0x100
    ensures var uses := [SingleUse(TimedOut, []), SingleUse(Ready, [Reply(lastId + 1, late), Reply(lastId + 2, lrn)])];
      && (forall u <- uses :: Callable(u))
      && NthRun(uses, lastId, 0).outcome == Failed(Some(RttExpired(lastId + 1)))
      && NthRun(uses, lastId, 1).outcome == Answered(Response(lastId + 2, false, None, Some(lrn), None))
  {
    hide Parse, TaggedResponseBytes, RequestBytes;
    TaggedResponseRoundTrip(lastId + 1, late, [], []);
    TaggedResponseRoundTrip(lastId + 2, lrn, [], []);
    assert forall id: Word, x: Bytes | |x| < 0x100 :: TaggedResponseBytes(id, x, []) + [] == TaggedResponseBytes(id, x, []);
    var inbox := [Reply(lastId + 1, late), Reply(lastId + 2, lrn)];
    assert Receive(TAGGED, lastId + 2, inbox, 0) == Receive(TAGGED, lastId + 2, inbox, 1);
    assert NextId(lastId + 1, 0) == lastId + 2;
    TimesOut(lastId);
  }

  /** A tagged error reply; any code but zero. */
  function ErrorReply(id: Word, code: Byte, message: Bytes): Arrival
    requires code != 0 && 0 < |message| < 0x100
  {
    Received(Le32(id) + [code, |message|] + message)
  }

  lemma ErrorReplyParses(id: Word, code: Byte, message: Bytes)
    requires code != 0 && 0 < |message| < 0x100
    ensures ErrorReply(id, code, message).Received?
    ensures Parse(TAGGED, ErrorReply(id, code, message).datagram) == Bad(1, Some(Remote(code, message)))
  {
    var m := ErrorReply(id, code, message).datagram;
    assert m[TAGGED_ERR_HDR_SIZE..TAGGED_ERR_HDR_SIZE + |message|] == message;
  }

  /** A late error reply is not passed over: its id is never looked at. The error that answers a request
      that timed out becomes the result of the next one, whose own answer stays unread behind it. */
  lemma LateErrorIsTaken(lastId: Word, code: Byte, message: Bytes, lrn: Bytes)
    requires 0 < lastId && lastId + 2 < 0x1_0000_0000 && code != 0 && 0 < |message| < 0x100 && |lrn| < 0x100
    ensures var uses := [SingleUse(TimedOut, []),
                         SingleUse(Ready, [ErrorReply(lastId + 1, code, message), Reply(lastId + 2, lrn)])];
      && (forall u <- uses :: Callable(u))
      && NthRun(uses, lastId, 0).outcome == Failed(Some(RttExpired(lastId + 1)))
      && NthRun(uses, lastId, 1).outcome == Failed(Some(Remote(code, message)))
  {
    hide Parse, TaggedResponseBytes, RequestBytes, ErrorReply;
    ErrorReplyParses(lastId + 1, code, message);
    TimesOut(lastId);
    assert NextId(lastId + 1, 0) == lastId + 2;
  }

  lemma TimesOut(lastId: Word)
    requires 0 < lastId && lastId + 2 < 0x1_0000_0000
    ensures RunOf(SingleUse(TimedOut, []), lastId).outcome == Failed(Some(RttExpired(lastId + 1)))
    ensures RunOf(SingleUse(TimedOut, []), lastId).lastId == lastId + 1
  {
    hide RequestBytes;
    var u := SingleUse(TimedOut, []);
    assert NextId(lastId, 0) == lastId + 1;
    assert Encode(u.req.(id := lastId + 1)).0.Some?;
    OutOfAttempts(u.req, u.net, 1, 0, lastId + 1, 1, Some(RttExpired(lastId + 1)));
  }
}
