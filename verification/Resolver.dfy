/** The LNP resolver: request ids, the endpoint ring with failover, and the receive loop. The network
    is an adversary that fixes beforehand which sends succeed, how each wait ends and what arrives. */
module Resolver {
  import opened Texts
  import opened Pdu
  import UriParser

  const MAX_ENDPOINTS := 5

  // ----- The network -----

  datatype Poll = PollError(errno: int) | TimedOut | Ready

  /** A datagram leaves room for the terminating zero. A failed receive may come with an error text. */
  type Datagram = d: Bytes | |d| < MSG_SZ witness []
  datatype Arrival = Received(datagram: Datagram) | RecvError(text: Option<Error>)

  /** `sent` and `polls` give the fate of attempt k of one call, `inbox` what the receive loop gets;
      behind its end the receive timeout of the socket strikes. `random` is what `rand` returns. */
  datatype Network = Network(sent: nat -> bool, polls: nat -> Poll, random: nat -> Word, inbox: seq<Arrival>)

  // ----- Reference: ids, the receive loop, failover -----

  /** `gen_request_id`: counts on modulo 2^32; zero, the initial value, is replaced at random. */
  function NextId(last: Word, random: Word): Word {
    if last == 0 then random else (last + 1) % 0x1_0000_0000
  }

  datatype Outcome = Aborted | Failed(error: Option<Error>) | Answered(resp: Response)

  /** The error pointer after a call that returned: null on success. */
  function ErrorOf(o: Outcome): Option<Error> { if o.Failed? then o.error else None }

  /** A datagram the receive loop passes over: a confirmation, or an answer to another request. */
  predicate Skipped(kind: Byte, id: Word, a: Arrival) {
    && a.Received?
    && Parse(kind, a.datagram).Ok?
    && (Parse(kind, a.datagram).resp.isConfirm || Parse(kind, a.datagram).resp.id != id)
  }

  /** What an arrival that is not passed over decides. */
  function Decision(kind: Byte, id: Word, a: Arrival): Outcome {
    match a
    case RecvError(text) => Failed(if text.Some? then text else Some(ReceiveFailed(id)))
    case Received(d) =>
      match Parse(kind, d)
      case Bad(_, e) => Failed(e)
      case Ok(resp) => Answered(resp)
  }

  /** The receive loop from inbox[i]: its outcome and where in the inbox it stops. */
  function Receive(kind: Byte, id: Word, inbox: seq<Arrival>, i: nat): (r: (Outcome, nat))
    requires i <= |inbox|
    ensures i <= r.1 <= |inbox|
    decreases |inbox| - i
  {
    if i == |inbox| then (Failed(Some(TransportError)), i)
    else if Skipped(kind, id, inbox[i]) then Receive(kind, id, inbox, i + 1)
    else (Decision(kind, id, inbox[i]), i + 1)
  }

  /** What a wait in vain sets the error to. */
  function WaitError(p: Poll, id: Word): Error {
    match p case PollError(errno) => PollFailed(errno, id) case _ => RttExpired(id)
  }

  /** One request on the wire: to which endpoint, under which id, with which bytes. */
  datatype Probe = Probe(endpoint: nat, id: Word, packet: Bytes)

  /** What a call leaves behind: its outcome, the requests sent, the ring position, the last id. */
  datatype Run = Run(outcome: Outcome, probes: seq<Probe>, curr: nat, lastId: Word)

  /** The failover loop with `left` attempts to go, starting with attempt k at endpoint curr. */
  function Attempts(req: Request, net: Network, count: nat, curr: nat, lastId: Word, k: nat, left: nat, error: Option<Error>): Run
    requires curr < count
    decreases left
  {
    if left == 0 then
      Run(Failed(if error.Some? then error else Some(NoResponse(lastId))), [], curr, lastId)
    else
      var id := NextId(lastId, net.random(k));
      var (packet, e) := Encode(req.(id := id));
      if packet.None? then Run(Failed(if e.Some? then e else error), [], curr, id)
      else
        var probe := Probe(curr, id, packet.value);
        if !net.sent(k) then Run(Aborted, [probe], curr, id)
        else if net.polls(k).Ready? then Run(Receive(req.kind, id, net.inbox, 0).0, [probe], curr, id)
        else
          Prepend(probe, Attempts(req, net, count, (curr + 1) % count, id, k + 1, left - 1, Some(WaitError(net.polls(k), id))))
  }

  function Prepend(p: Probe, r: Run): Run { r.(probes := [p] + r.probes) }

  /** One call of `resolve`. */
  function Resolve(req: Request, net: Network, count: nat, curr: nat, lastId: Word, error: Option<Error>): Run
    requires count > 0 ==> curr < count
  {
    if count == 0 then Run(Failed(Some(NoEndpoints)), [], curr, lastId)
    else Attempts(req, net, count, curr, lastId, 0, count, error)
  }

  /** A run whose first requests are already on the wire. */
  ghost function Behind(sent: seq<Probe>, r: Run): Run { r.(probes := sent + r.probes) }

  /** How one attempt takes a run on, with `wire` sent before it. */
  lemma Attempt(req: Request, net: Network, count: nat, curr: nat, lastId: Word, k: nat, left: nat,
                error: Option<Error>, wire: seq<Probe>)
    requires curr < count && left > 0
    ensures var (id, next) := (NextId(lastId, net.random(k)), (curr + 1) % count);
      var (packet, e) := Encode(req.(id := id));
      Behind(wire, Attempts(req, net, count, curr, lastId, k, left, error)) ==
        if packet.None? then Run(Failed(if e.Some? then e else error), wire, curr, id)
        else
          var wire' := wire + [Probe(curr, id, packet.value)];
          if !net.sent(k) then Run(Aborted, wire', curr, id)
          else if net.polls(k).Ready? then Run(Receive(req.kind, id, net.inbox, 0).0, wire', curr, id)
          else Behind(wire', Attempts(req, net, count, next, id, k + 1, left - 1, Some(WaitError(net.polls(k), id))))
  {
    hide Encode, Receive, NextId;
  }

  lemma OutOfAttempts(req: Request, net: Network, count: nat, curr: nat, lastId: Word, k: nat, error: Option<Error>)
    requires curr < count
    ensures Attempts(req, net, count, curr, lastId, k, 0, error)
      == Run(Failed(if error.Some? then error else Some(NoResponse(lastId))), [], curr, lastId)
  {
  }

  // ----- The implementation -----

  datatype Endpoint = Endpoint(id: nat, url: Text, port: int, addr: int)

  /** `inet_aton`, foreign code: the address of a host text, if it is one. */
  type InetAton = Text -> Option<int>

  class ResolverState {
    const endpoints: array<Endpoint>
    var count: nat
    var curr: nat
    var reqId: Word
    const buf: MessageBuffer
    var wire: seq<Probe>     // every request sent so far

    /** At most five endpoints, and their ids are their indices. */
    ghost predicate Stored()
      reads this, endpoints
    {
      && endpoints.Length == MAX_ENDPOINTS && count <= MAX_ENDPOINTS
      && (forall i :: 0 <= i < count ==> endpoints[i].id == i)
    }

    /** Moreover the position is that of an endpoint, or zero. */
    ghost predicate RingValid()
      reads this, endpoints
    {
      Stored() && if count > 0 then curr < count else curr == 0
    }

    constructor ()
      ensures RingValid() && buf.Sized() && fresh(endpoints) && fresh(buf) && fresh(buf.msg)
      ensures count == 0 && reqId == 0 && wire == []
    {
      endpoints := new Endpoint[MAX_ENDPOINTS](_ => Endpoint(0, [], 0, 0));
      count, curr, reqId, wire := 0, 0, 0, [];
      buf := new MessageBuffer();
    }

    /** `add_endpoint`: appends behind the last endpoint, or changes none of those counted. */
    method AddEndpoint(uri: Text, inetAton: InetAton) returns (code: int)
      requires RingValid() && (count < MAX_ENDPOINTS ==> UriParser.HostFits(uri))
      modifies this`count, endpoints
      ensures RingValid()
      ensures endpoints[..old(count)] == old(endpoints[..count])
      ensures old(count) == 5 ==> code == -1 && count == old(count)
      ensures old(count) < 5 ==>
        var u := UriParser.Components(uri);
        if u.Some? && inetAton(u.value.host).Some? then
          && code == 0 && count == old(count) + 1
          && endpoints[old(count)] == Endpoint(old(count), uri, u.value.port % 0x1_0000, inetAton(u.value.host).value)
        else code == -1 && count == old(count)
    {
      hide UriParser.Components;
      if count == MAX_ENDPOINTS { return -1; }
      endpoints[count] := Endpoint(0, [], 0, 0);
      var comps := UriParser.ParseAddr(uri);
      if comps.None? { return -1; }
      endpoints[count] := Endpoint(count, uri, comps.value.port % 0x1_0000, 0);
      var addr := inetAton(comps.value.host);
      if addr.None? { return -1; }
      endpoints[count] := endpoints[count].(addr := addr.value);
      count := count + 1;
      return 0;
    }

    /** The endpoint with this id, if there is one. */
    method GetEndpointAtIndex(index: int) returns (e: Option<Endpoint>)
      requires Stored()
      ensures e.Some? <==> exists i :: 0 <= i < count && endpoints[i].id == index
      ensures e.Some? ==> e.value in endpoints[..count] && e.value.id == index
      ensures e.Some? ==> e.value == endpoints[index]
    {
      if index >= 0 && index < count {
        assert endpoints[index] in endpoints[..count];
        return Some(endpoints[index]);
      }
      return None;
    }

    method GetNextEndpoint() returns (e: Option<Endpoint>)
      requires Stored() && count > 0
      modifies this`curr
      ensures RingValid() && curr == (old(curr) + 1) % count && e == Some(endpoints[curr])
    {
      curr := (curr + 1) % count;
      e := GetEndpointAtIndex(curr);
    }

    method GetCurrentEndpoint() returns (e: Option<Endpoint>)
      requires Stored() && count > 0
      modifies this`curr
      ensures RingValid() && e == Some(endpoints[curr])
      ensures curr == if old(curr) < count then old(curr) else (old(curr) + 1) % count
    {
      if curr >= 0 && curr < count {
        e := GetEndpointAtIndex(curr);
      } else {
        e := GetNextEndpoint();
      }
    }

    method RemoveAllEndpoints()
      requires RingValid()
      modifies this`count, this`curr, endpoints
      ensures RingValid() && count == 0
    {
      for i := 0 to count
        invariant unchanged(this)
      {
        endpoints[i] := Endpoint(0, [], 0, 0);
      }
      count, curr := 0, 0;
    }

    method GenRequestId(random: Word) returns (id: Word)
      modifies this`reqId
      ensures id == reqId == NextId(old(reqId), random)
    {
      if reqId == 0 {
        reqId := random;
      } else {
        reqId := (reqId + 1) % 0x1_0000_0000;
      }
      return reqId;
    }

    /** The receive loop, after the wait has ended in time; it starts with the error cleared. The last
        result is the number of arrivals it has consumed. */
    method ReceiveLoop(kind: Byte, id: Word, inbox: seq<Arrival>)
      returns (outcome: Outcome, error: Option<Error>, consumed: nat)
      requires buf.Sized()
      modifies buf`len, buf.msg
      ensures (outcome, consumed) == Receive(kind, id, inbox, 0)
      ensures !outcome.Aborted? && error == ErrorOf(outcome)
    {
      hide Parse;
      error := None;
      var i := 0;
      while true
        invariant i <= |inbox| && error == None
        invariant Receive(kind, id, inbox, 0) == Receive(kind, id, inbox, i)
        decreases |inbox| - i
      {
        if i == |inbox| {
          error := Some(TransportError);
          return Failed(error), error, i;
        }
        match inbox[i]
        case RecvError(text) =>
          error := if text.Some? then text else Some(ReceiveFailed(id));
          return Failed(error), error, i + 1;
        case Received(datagram) =>
          buf.Receive(datagram);
          var code, resp;
          code, resp, error := buf.ParseMsg(kind, error);
          if code != 0 { return Failed(error), error, i + 1; }
          if !resp.value.isConfirm && resp.value.id == id { return Answered(resp.value), error, i + 1; }
          i := i + 1;
      }
    }

    /** `resolve`, with the error pointer the caller gets back. */
    method ResolveCall(request: Request, net: Network, initial: Option<Error>)
      returns (outcome: Outcome, error: Option<Error>)
      requires RingValid() && buf.Sized()
      modifies this`curr, this`reqId, this`wire, buf`len, buf.msg
      ensures RingValid() && buf.Sized()
      ensures Run(outcome, wire, curr, reqId)
        == Behind(old(wire), Resolve(request, net, count, old(curr), old(reqId), initial))
      ensures !outcome.Aborted? ==> error == ErrorOf(outcome)
    {
      hide Attempts, Encode, Receive, NextId;
      error := initial;
      if count <= 0 {
        error := Some(NoEndpoints);
        return Failed(error), error;
      }
      var req := request;
      var endp := GetCurrentEndpoint();
      var left, k := count, 0;
      ghost var whole := Behind(wire, Resolve(request, net, count, curr, reqId, initial));
      while endp != None && left > 0
        invariant RingValid() && count > 0 && buf.Sized() && endp == Some(endpoints[curr])
        invariant req == request.(id := req.id)
        invariant whole == Behind(wire, Attempts(request, net, count, curr, reqId, k, left, error))
        decreases left
      {
        Attempt(request, net, count, curr, reqId, k, left, error, wire);
        left := left - 1;
        var id := GenRequestId(net.random(k));
        req := req.(id := id);
        var code;
        code, error := buf.Prepare(req, error);
        if code != 0 { return Failed(error), error; }
        wire := wire + [Probe(endp.value.id, id, buf.msg[..buf.len])];
        if !net.sent(k) { return Aborted, error; }
        match net.polls(k) {
          case PollError(errno) =>
            error := Some(PollFailed(errno, id));
            endp := GetNextEndpoint();
          case TimedOut =>
            error := Some(RttExpired(id));
            endp := GetNextEndpoint();
          case Ready =>
            var consumed;
            outcome, error, consumed := ReceiveLoop(req.kind, id, net.inbox);
            return;
        }
        k := k + 1;
      }
      OutOfAttempts(request, net, count, curr, reqId, k, error);
      if error == None { error := Some(NoResponse(reqId)); }
      return Failed(error), error;
    }
  }

}
