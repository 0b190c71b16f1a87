/** The resolver's datagrams: `prepare_*_msg` and `parse_*_msg` over the shared message buffer, and
    the layouts they follow. Multi-byte fields are in host order, taken to be little-endian. */
module Pdu {
  import opened Texts

  type Byte = b: nat | b < 0x100
  type Word = n: nat | n < 0x1_0000_0000
  type Bytes = seq<Byte>

  const MSG_SZ := 2048
  const CONFIRM_SIZE := 4
  const TAGGED_HDR_SIZE := 7
  const TAGGED_ERR_HDR_SIZE := 6
  const CNAM_HDR_SIZE := 10
  const CNAM_RESPONSE_HDR_SIZE := 8
  const TAGGED := 0
  const CNAM := 1

  datatype Request = Request(id: Word, kind: Byte, dbId: int, data: Bytes)

  /** `val` is the JSON reply; `lrn` and `tag` those of a tagged one. None is a null pointer. */
  datatype Response = Response(id: Word, isConfirm: bool, val: Option<Bytes>, lrn: Option<Bytes>, tag: Option<Bytes>)

  datatype Error =
    | MessageTooLong
    | ResponseTooSmall
    | EmptyReply
    | ClaimsTooMuch(claimed: nat, have: nat)
    | MalformedLrn(lrnLength: nat, total: nat)
    | Remote(code: Byte, message: Bytes)
    | NoEndpoints
    | PollFailed(errno: int, pollId: Word)
    | RttExpired(rttId: Word)
    | TransportError
    | ReceiveFailed(recvId: Word)
    | NoResponse(lastId: Word)

  /** Return code and the error a parser sets, if it sets one. */
  datatype Parsed = Ok(resp: Response) | Bad(code: int, error: Option<Error>)

  // ----- Layouts -----

  function Le32(x: Word): (r: Bytes)
    ensures |r| == 4
  {
    [x % 0x100, x / 0x100 % 0x100, x / 0x1_0000 % 0x100, x / 0x100_0000]
  }

  function FromLe32(b: Bytes): Word
    requires |b| >= 4
  {
    var b0: int, b1: int, b2: int, b3: int := b[0], b[1], b[2], b[3];
    b0 + 0x100 * b1 + 0x1_0000 * b2 + 0x100_0000 * b3
  }

  lemma Le32RoundTrip(x: Word, rest: Bytes)
    ensures FromLe32(Le32(x) + rest) == x
  {
    var y := x / 0x100;
    var z := y / 0x100;
    assert x == 0x100 * y + x % 0x100 && y == 0x100 * z + y % 0x100 && z == 0x100 * (z / 0x100) + z % 0x100;
    assert x / 0x1_0000 == z && x / 0x100_0000 == z / 0x100;
  }

  /** The two request layouts; the number fields keep only their low byte. */
  function RequestBytes(req: Request): Bytes {
    if req.kind == TAGGED then
      Le32(req.id) + [req.dbId % 0x100, req.kind, |req.data| % 0x100] + req.data
    else
      Le32(req.id) + [req.dbId % 0x100, req.kind] + Le32(|req.data| % 0x1_0000_0000) + req.data
  }

  function HeaderSize(kind: Byte): nat { if kind == TAGGED then TAGGED_HDR_SIZE else CNAM_HDR_SIZE }

  /** The encoded request; unknown kinds fail without an error text. */
  function Encode(req: Request): (r: (Option<Bytes>, Option<Error>))
    ensures r.0.Some? ==> |r.0.value| <= MSG_SZ
  {
    if req.kind != TAGGED && req.kind != CNAM then (None, None)
    else if |req.data| + HeaderSize(req.kind) > MSG_SZ then (None, Some(MessageTooLong))
    else (Some(RequestBytes(req)), None)
  }

  /** What a server reads from a request datagram. */
  function DecodeRequest(m: Bytes): Option<Request> {
    if |m| < TAGGED_HDR_SIZE then None
    else if m[5] == TAGGED then
      if |m| == TAGGED_HDR_SIZE + m[6] then Some(Request(FromLe32(m), TAGGED, m[4], m[TAGGED_HDR_SIZE..])) else None
    else if m[5] == CNAM then
      if |m| >= CNAM_HDR_SIZE && |m| == CNAM_HDR_SIZE + FromLe32(m[6..]) then
        Some(Request(FromLe32(m), CNAM, m[4], m[CNAM_HDR_SIZE..]))
      else None
    else None
  }

  /** A server sees the request as meant exactly when the fields fit: the database id into a byte,
      and for a tagged request the data length too. */
  lemma RequestRoundTrip(req: Request)
    requires Encode(req).0.Some?
    ensures DecodeRequest(Encode(req).0.value) == Some(req) <==>
      0 <= req.dbId < 0x100 && (req.kind == TAGGED ==> |req.data| < 0x100)
  {
    hide DecodeRequest, RequestBytes, Le32, FromLe32;
    if req.kind == TAGGED { TaggedRequestRoundTrip(req); } else { JsonRequestRoundTrip(req); }
  }

  lemma TaggedRequestRoundTrip(req: Request)
    requires req.kind == TAGGED
    ensures DecodeRequest(RequestBytes(req)) == Some(req) <==> 0 <= req.dbId < 0x100 && |req.data| < 0x100
  {
    hide Le32, FromLe32;
    var m, head := RequestBytes(req), [req.dbId % 0x100, req.kind, |req.data| % 0x100];
    Le32RoundTrip(req.id, head + req.data);
    assert m == Le32(req.id) + (head + req.data);
    assert m[4] == req.dbId % 0x100 && m[5] == TAGGED && m[6] == |req.data| % 0x100;
    assert m[TAGGED_HDR_SIZE..] == req.data;
  }

  lemma JsonRequestRoundTrip(req: Request)
    requires req.kind == CNAM && |req.data| < 0x1_0000_0000
    ensures DecodeRequest(RequestBytes(req)) == Some(req) <==> 0 <= req.dbId < 0x100
  {
    hide Le32, FromLe32;
    var m, head, size := RequestBytes(req), [req.dbId % 0x100, req.kind], Le32(|req.data|);
    assert |req.data| % 0x1_0000_0000 == |req.data|;
    Le32RoundTrip(req.id, head + size + req.data);
    Le32RoundTrip(|req.data|, req.data);
    assert m == Le32(req.id) + (head + size + req.data);
    assert m[4] == req.dbId % 0x100 && m[5] == CNAM;
    assert m[6..] == size + req.data;
    assert m[CNAM_HDR_SIZE..] == req.data;
  }

  // ----- Responses -----

  function ParseTagged(m: Bytes): Parsed {
    if |m| < TAGGED_HDR_SIZE then Bad(-1, Some(ResponseTooSmall))
    else if m[4] != 0 then
      if m[5] > |m| - TAGGED_ERR_HDR_SIZE then Bad(-1, Some(ClaimsTooMuch(m[5], |m| - TAGGED_ERR_HDR_SIZE)))
      else Bad(1, Some(Remote(m[4], m[TAGGED_ERR_HDR_SIZE..TAGGED_ERR_HDR_SIZE + m[5]])))
    else if m[5] > |m| - TAGGED_HDR_SIZE then Bad(-1, Some(ClaimsTooMuch(m[5], |m| - TAGGED_HDR_SIZE)))
    else if m[6] > m[5] then Bad(-1, Some(MalformedLrn(m[6], m[5])))
    else
      var lrnEnd := TAGGED_HDR_SIZE + m[6];
      Ok(Response(FromLe32(m), false, None, Some(m[TAGGED_HDR_SIZE..lrnEnd]),
                  if m[5] > m[6] then Some(m[lrnEnd..TAGGED_HDR_SIZE + m[5]]) else None))
  }

  function ParseJson(m: Bytes): Parsed {
    if |m| < CNAM_RESPONSE_HDR_SIZE then Bad(-1, Some(ResponseTooSmall))
    else
      var size := FromLe32(m[4..]);
      if size == 0 then Bad(-1, Some(EmptyReply))
      else if size > |m| - CNAM_RESPONSE_HDR_SIZE then Bad(-1, Some(ClaimsTooMuch(size, |m| - CNAM_RESPONSE_HDR_SIZE)))
      else Ok(Response(FromLe32(m), false, Some(m[CNAM_RESPONSE_HDR_SIZE..CNAM_RESPONSE_HDR_SIZE + size]), None, None))
  }

  /** Four bytes are a confirmation for either kind; anything else goes by the kind of request. */
  function Parse(kind: Byte, m: Bytes): Parsed {
    if |m| == CONFIRM_SIZE then Ok(Response(FromLe32(m), true, None, None, None))
    else if kind == TAGGED then ParseTagged(m)
    else if kind == CNAM then ParseJson(m)
    else Bad(-1, if |m| < CONFIRM_SIZE then Some(ResponseTooSmall) else None)
  }

  function TaggedResponseBytes(id: Word, lrn: Bytes, tag: Bytes): Bytes
    requires |lrn| + |tag| < 0x100
  {
    Le32(id) + [0, |lrn| + |tag|, |lrn|] + lrn + tag
  }

  function JsonResponseBytes(id: Word, json: Bytes): Bytes
    requires |json| < 0x1_0000_0000
  {
    Le32(id) + Le32(|json|) + json
  }

  /** Decoding inverts the tagged layout, whatever follows it in the datagram. */
  lemma TaggedResponseRoundTrip(id: Word, lrn: Bytes, tag: Bytes, trailing: Bytes)
    requires |lrn| + |tag| < 0x100
    ensures Parse(TAGGED, TaggedResponseBytes(id, lrn, tag) + trailing)
      == Ok(Response(id, false, None, Some(lrn), if tag == [] then None else Some(tag)))
  {
    var rest := [0, |lrn| + |tag|, |lrn|] + lrn + tag + trailing;
    var m := TaggedResponseBytes(id, lrn, tag) + trailing;
    assert m == Le32(id) + rest;
    Le32RoundTrip(id, rest);
    var lrnEnd := TAGGED_HDR_SIZE + |lrn|;
    assert m[TAGGED_HDR_SIZE..lrnEnd] == lrn;
    assert m[lrnEnd..lrnEnd + |tag|] == tag;
  }

  lemma JsonResponseRoundTrip(id: Word, json: Bytes, trailing: Bytes)
    requires 0 < |json| < 0x1_0000_0000
    ensures Parse(CNAM, JsonResponseBytes(id, json) + trailing)
      == Ok(Response(id, false, Some(json), None, None))
  {
    var rest := Le32(|json|) + json + trailing;
    var m := JsonResponseBytes(id, json) + trailing;
    assert m == Le32(id) + rest;
    Le32RoundTrip(id, rest);
    assert m[4..] == rest == Le32(|json|) + (json + trailing);
    Le32RoundTrip(|json|, json + trailing);
    assert m[CNAM_RESPONSE_HDR_SIZE..CNAM_RESPONSE_HDR_SIZE + |json|] == json;
  }

  /** Conversely a data response is always such a layout: nothing else decodes. */
  lemma OnlyLayoutsDecode(kind: Byte, m: Bytes)
    requires kind == TAGGED || kind == CNAM
    requires Parse(kind, m).Ok? && !Parse(kind, m).resp.isConfirm
    ensures var resp := Parse(kind, m).resp;
      if kind == TAGGED then
        && resp.lrn.Some? && |resp.lrn.value| + |resp.tag.GetOr([])| < 0x100
        && TaggedResponseBytes(resp.id, resp.lrn.value, resp.tag.GetOr([])) <= m
      else
        && resp.val.Some? && 0 < |resp.val.value| < 0x1_0000_0000
        && JsonResponseBytes(resp.id, resp.val.value) <= m
  {
    hide FromLe32, Le32;
    var resp := Parse(kind, m).resp;
    FromLe32RoundTrip(m);
    if kind == TAGGED {
      var lrn, tag := resp.lrn.value, resp.tag.GetOr([]);
      assert m == m[..4] + m[4..7] + m[7..7 + |lrn|] + m[7 + |lrn|..7 + |lrn| + |tag|] + m[7 + |lrn| + |tag|..];
      assert m[4..7] == [0, |lrn| + |tag|, |lrn|];
    } else {
      var json := resp.val.value;
      FromLe32RoundTrip(m[4..]);
      assert m == m[..4] + m[4..8] + m[8..8 + |json|] + m[8 + |json|..];
      assert m[4..][..4] == m[4..8];
    }
  }

  lemma FromLe32RoundTrip(b: Bytes)
    requires |b| >= 4
    ensures Le32(FromLe32(b)) == b[..4]
  {
    var x := FromLe32(b);
    var b1: int, b2: int, b3: int := b[1], b[2], b[3];
    assert x / 0x100 == b1 + 0x100 * b2 + 0x1_0000 * b3;
    assert x / 0x1_0000 == b2 + 0x100 * b3;
    assert x / 0x100_0000 == b3;
  }

  // ----- The layouts byte by byte -----

  /** The number in the four bytes from p on, least significant first. */
  function NumberAt(m: Bytes, p: nat): int
    requires p + 4 <= |m|
  {
    var b0: int, b1: int, b2: int, b3: int := m[p], m[p + 1], m[p + 2], m[p + 3];
    b0 + 256 * b1 + 65536 * b2 + 16777216 * b3
  }

  lemma NumberOfBytes(m: Bytes, p: nat, x: Word)
    requires p + 4 <= |m| && m[p..p + 4] == Le32(x)
    ensures NumberAt(m, p) == x
  {
    hide Le32;
    Le32RoundTrip(x, []);
    assert Le32(x) + [] == Le32(x);
    assert m[p] == Le32(x)[0] && m[p + 1] == Le32(x)[1] && m[p + 2] == Le32(x)[2] && m[p + 3] == Le32(x)[3];
  }

  /** A tagged request, type 0: id, database id, 0, length in a byte, data; nothing else is sent, and
      nothing when it would be longer than 2048 bytes. */
  lemma TaggedRequestLayout(req: Request)
    requires req.kind == 0
    ensures |req.data| + 7 > 2048 ==> Encode(req) == (None, Some(MessageTooLong))
    ensures |req.data| + 7 <= 2048 ==>
      && Encode(req).0.Some?
      && var m := Encode(req).0.value;
      && |m| == 7 + |req.data| && NumberAt(m, 0) == req.id && m[4] == req.dbId % 256 && m[5] == 0
      && m[6] == |req.data| % 256 && m[7..] == req.data
  {
    if |req.data| + 7 <= 2048 {
      var m := RequestBytes(req);
      hide Le32;
      assert m[0..4] == Le32(req.id);
      NumberOfBytes(m, 0, req.id);
    }
  }

  /** A CNAM request, type 1: the length takes four bytes. */
  lemma JsonRequestLayout(req: Request)
    requires req.kind == 1
    ensures |req.data| + 10 > 2048 ==> Encode(req) == (None, Some(MessageTooLong))
    ensures |req.data| + 10 <= 2048 ==>
      && Encode(req).0.Some?
      && var m := Encode(req).0.value;
      && |m| == 10 + |req.data| && NumberAt(m, 0) == req.id && m[4] == req.dbId % 256 && m[5] == 1
      && NumberAt(m, 6) == |req.data| && m[10..] == req.data
  {
    if |req.data| + 10 <= 2048 {
      var m := RequestBytes(req);
      hide Le32;
      assert m[0..4] == Le32(req.id);
      NumberOfBytes(m, 0, req.id);
      assert m[6..10] == Le32(|req.data|);
      NumberOfBytes(m, 6, |req.data|);
    }
  }

  lemma NumberIsFromLe32(m: Bytes, p: nat)
    requires p + 4 <= |m|
    ensures FromLe32(m[p..]) == NumberAt(m, p)
  {
  }

  /** A four-byte datagram confirms the id it holds, for requests of either type. */
  lemma FourBytesConfirm(kind: Byte, d: Bytes)
    requires |d| == 4
    ensures Parse(kind, d) == Ok(Response(NumberAt(d, 0), true, None, None, None))
  {
    NumberIsFromLe32(d, 0);
    assert d[0..] == d;
  }

  /** What a tagged response of another length means: id, code, length of lrn and tag, length of lrn.
      With a code that is not 0 the length is that of an error text, which starts one byte earlier. */
  lemma TaggedResponseLayout(m: Bytes)
    requires |m| != 4
    ensures |m| < 7 ==> Parse(0, m) == Bad(-1, Some(ResponseTooSmall))
    ensures |m| >= 7 && m[4] != 0 ==>
      Parse(0, m) == if 6 + m[5] <= |m| then Bad(1, Some(Remote(m[4], m[6..6 + m[5]])))
                     else Bad(-1, Some(ClaimsTooMuch(m[5], |m| - 6)))
    ensures |m| >= 7 && m[4] == 0 && 7 + m[5] > |m| ==> Parse(0, m) == Bad(-1, Some(ClaimsTooMuch(m[5], |m| - 7)))
    ensures |m| >= 7 && m[4] == 0 && 7 + m[5] <= |m| && m[6] > m[5] ==>
      Parse(0, m) == Bad(-1, Some(MalformedLrn(m[6], m[5])))
    ensures |m| >= 7 && m[4] == 0 && 7 + m[5] <= |m| && m[6] <= m[5] ==>
      Parse(0, m) == Ok(Response(NumberAt(m, 0), false, None, Some(m[7..7 + m[6]]),
                                 if m[5] == m[6] then None else Some(m[7 + m[6]..7 + m[5]])))
  {
    if |m| >= 7 {
      NumberIsFromLe32(m, 0);
      assert m[0..] == m;
    }
  }

  /** A JSON response: id, length, text. */
  lemma JsonResponseLayout(m: Bytes)
    requires |m| != 4
    ensures |m| < 8 ==> Parse(1, m) == Bad(-1, Some(ResponseTooSmall))
    ensures |m| >= 8 && NumberAt(m, 4) == 0 ==> Parse(1, m) == Bad(-1, Some(EmptyReply))
    ensures |m| >= 8 && 8 + NumberAt(m, 4) > |m| ==> Parse(1, m) == Bad(-1, Some(ClaimsTooMuch(NumberAt(m, 4), |m| - 8)))
    ensures |m| >= 8 && 8 < 8 + NumberAt(m, 4) <= |m| ==>
      Parse(1, m) == Ok(Response(NumberAt(m, 0), false, Some(m[8..8 + NumberAt(m, 4)]), None, None))
  {
    if |m| >= 8 {
      NumberIsFromLe32(m, 0);
      NumberIsFromLe32(m, 4);
      assert m[0..] == m;
    }
  }

  /** Requests of any other type are neither encoded nor answered; then no error is set, but for a
      datagram of less than four bytes. */
  lemma OtherTypes(req: Request, m: Bytes)
    requires req.kind != 0 && req.kind != 1 && |m| != 4
    ensures Encode(req) == (None, None)
    ensures Parse(req.kind, m) == Bad(-1, if |m| < 4 then Some(ResponseTooSmall) else None)
  {
  }

  /** A response cut short is never taken for data: it fails, or is a confirmation when four bytes are left. */
  lemma CutResponse(kind: Byte, m: Bytes, n: nat)
    requires (kind == 0 || kind == 1) && Parse(kind, m).Ok? && !Parse(kind, m).resp.isConfirm
    requires n < match Parse(kind, m).resp.val
                 case Some(val) => 8 + |val|
                 case None => 7 + |Parse(kind, m).resp.lrn.GetOr([])| + |Parse(kind, m).resp.tag.GetOr([])|
    ensures n <= |m|
    ensures if n == 4 then Parse(kind, m[..n]) == Ok(Response(NumberAt(m, 0), true, None, None, None))
            else Parse(kind, m[..n]).Bad? && Parse(kind, m[..n]).code == -1
  {
    if |m| == 4 { FourBytesConfirm(kind, m); }
    if kind == 0 {
      TaggedResponseLayout(m);
      if n == 4 { FourBytesConfirm(kind, m[..n]); } else { TaggedResponseLayout(m[..n]); }
    } else {
      JsonResponseLayout(m);
      if n == 4 { FourBytesConfirm(kind, m[..n]); } else { JsonResponseLayout(m[..n]); }
    }
  }

  // ----- The message buffer -----

  /** A part of a prefix is that part of the whole. */
  lemma SliceOfPrefix(m: Bytes, n: nat, a: nat, b: nat)
    requires a <= b <= n <= |m|
    ensures m[..n][a..b] == m[a..b]
  {
    forall k | 0 <= k < b - a ensures m[..n][a..b][k] == m[a..b][k] {
      assert m[..n][a + k] == m[a + k];
    }
  }

  /** The shared buffer `msg` with its fill `msg_len`. */
  class MessageBuffer {
    const msg: array<Byte>
    var len: nat

    ghost predicate Sized() { msg.Length == MSG_SZ }

    /** A request that is too long leaves its length behind; nothing is read from such a buffer. */
    ghost predicate Valid()
      reads this
    {
      Sized() && len <= MSG_SZ
    }

    ghost function Contents(): Bytes
      reads this, msg
      requires Valid()
    {
      msg[..len]
    }

    constructor ()
      ensures Valid() && fresh(msg) && Contents() == []
    {
      msg := new Byte[MSG_SZ](_ => 0);
      len := 0;
    }

    /** `memcpy` to a place in the buffer. */
    method Put(at: nat, s: Bytes)
      requires Sized() && at + |s| <= MSG_SZ
      modifies msg
      ensures msg[..at + |s|] == old(msg[..at]) + s
    {
      forall i | 0 <= i < |s| { msg[at + i] := s[i]; }
    }

    /** A received datagram, which always leaves room for the terminating zero. */
    method Receive(datagram: Bytes)
      requires Sized() && |datagram| < MSG_SZ
      modifies this`len, msg
      ensures Valid() && Contents() == datagram
    {
      Put(0, datagram);
      len := |datagram|;
      msg[len] := 0;
    }

    /** `prepare_msg`: return code and error pointer; on success the buffer holds the encoding. */
    method Prepare(req: Request, error: Option<Error>) returns (code: int, error': Option<Error>)
      requires Sized()
      modifies this`len, msg
      ensures Encode(req).0.Some? ==> Valid() && code == 0 && Contents() == Encode(req).0.value && error' == error
      ensures Encode(req).0.None? ==> code == -1 && error' == if Encode(req).1.Some? then Encode(req).1 else error
    {
      if req.kind == TAGGED {
        code, error' := PrepareTagged(req, error);
      } else if req.kind == CNAM {
        code, error' := PrepareJson(req, error);
      } else {
        code, error' := -1, error;
      }
    }

    method PrepareTagged(req: Request, error: Option<Error>) returns (code: int, error': Option<Error>)
      requires Sized() && req.kind == TAGGED
      modifies this`len, msg
      ensures |req.data| + TAGGED_HDR_SIZE <= MSG_SZ ==>
        Valid() && code == 0 && Contents() == RequestBytes(req) && error' == error
      ensures |req.data| + TAGGED_HDR_SIZE > MSG_SZ ==> code == -1 && error' == Some(MessageTooLong)
    {
      len := |req.data| + TAGGED_HDR_SIZE;
      if len > MSG_SZ { return -1, Some(MessageTooLong); }
      Put(0, Le32(req.id));
      Put(4, [req.dbId % 0x100]);
      Put(5, [req.kind]);
      Put(6, [|req.data| % 0x100]);
      Put(TAGGED_HDR_SIZE, req.data);
      return 0, error;
    }

    method PrepareJson(req: Request, error: Option<Error>) returns (code: int, error': Option<Error>)
      requires Sized() && req.kind == CNAM
      modifies this`len, msg
      ensures |req.data| + CNAM_HDR_SIZE <= MSG_SZ ==>
        Valid() && code == 0 && Contents() == RequestBytes(req) && error' == error
      ensures |req.data| + CNAM_HDR_SIZE > MSG_SZ ==> code == -1 && error' == Some(MessageTooLong)
    {
      len := |req.data| + CNAM_HDR_SIZE;
      if len > MSG_SZ { return -1, Some(MessageTooLong); }
      Put(0, Le32(req.id));
      Put(4, [req.dbId % 0x100]);
      Put(5, [req.kind]);
      Put(6, Le32(|req.data| % 0x1_0000_0000));
      Put(CNAM_HDR_SIZE, req.data);
      return 0, error;
    }

    /** `parse_confrm_resp_msg`; a response of other length than four is not its business. */
    method ParseConfirm(error: Option<Error>) returns (code: int, resp: Option<Response>, error': Option<Error>)
      requires Valid()
      ensures code == 0 <==> |Contents()| == CONFIRM_SIZE
      ensures code == 0 ==> resp.Some? && Parse(TAGGED, Contents()) == Ok(resp.value) && error' == error
      ensures code != 0 ==> error' == if |Contents()| < CONFIRM_SIZE then Some(ResponseTooSmall) else error
    {
      if len > CONFIRM_SIZE { return -1, None, error; }
      if len < CONFIRM_SIZE { return -1, None, Some(ResponseTooSmall); }
      return 0, Some(Response(FromLe32(msg[..len]), true, None, None, None)), error;
    }

    method ParseJsonMsg(error: Option<Error>) returns (code: int, resp: Option<Response>, error': Option<Error>)
      requires Valid()
      ensures Reports(ParseJson(Contents()), code, resp, error, error')
    {
      if len < CNAM_RESPONSE_HDR_SIZE { return -1, None, Some(ResponseTooSmall); }
      assert msg[4..8] == Contents()[4..][..4];
      var id, size := FromLe32(msg[..4]), FromLe32(msg[4..8]);
      if size == 0 { return -1, None, Some(EmptyReply); }
      if size > len - CNAM_RESPONSE_HDR_SIZE {
        return -1, None, Some(ClaimsTooMuch(size, len - CNAM_RESPONSE_HDR_SIZE));
      }
      var val := msg[CNAM_RESPONSE_HDR_SIZE..CNAM_RESPONSE_HDR_SIZE + size];
      SliceOfPrefix(msg[..], len, CNAM_RESPONSE_HDR_SIZE, CNAM_RESPONSE_HDR_SIZE + size);
      assert val == Contents()[CNAM_RESPONSE_HDR_SIZE..CNAM_RESPONSE_HDR_SIZE + size];
      return 0, Some(Response(id, false, Some(val), None, None)), error;
    }

    method ParseTaggedMsg(error: Option<Error>) returns (code: int, resp: Option<Response>, error': Option<Error>)
      requires Valid()
      ensures Reports(ParseTagged(Contents()), code, resp, error, error')
    {
      if len < TAGGED_HDR_SIZE { return -1, None, Some(ResponseTooSmall); }
      var id, respCode, dataSize: nat := FromLe32(msg[..4]), msg[4], msg[5];
      if respCode != 0 {
        if dataSize > len - TAGGED_ERR_HDR_SIZE {
          return -1, None, Some(ClaimsTooMuch(dataSize, len - TAGGED_ERR_HDR_SIZE));
        }
        var message := msg[TAGGED_ERR_HDR_SIZE..TAGGED_ERR_HDR_SIZE + dataSize];
        SliceOfPrefix(msg[..], len, TAGGED_ERR_HDR_SIZE, TAGGED_ERR_HDR_SIZE + dataSize);
        assert message == Contents()[TAGGED_ERR_HDR_SIZE..TAGGED_ERR_HDR_SIZE + dataSize];
        return 1, None, Some(Remote(respCode, message));
      }
      if dataSize > len - TAGGED_HDR_SIZE {
        return -1, None, Some(ClaimsTooMuch(dataSize, len - TAGGED_HDR_SIZE));
      }
      var lrnLength: nat := msg[6];
      if lrnLength > dataSize { return -1, None, Some(MalformedLrn(lrnLength, dataSize)); }
      var lrn := msg[TAGGED_HDR_SIZE..TAGGED_HDR_SIZE + lrnLength];
      SliceOfPrefix(msg[..], len, TAGGED_HDR_SIZE, TAGGED_HDR_SIZE + lrnLength);
      assert lrn == Contents()[TAGGED_HDR_SIZE..TAGGED_HDR_SIZE + lrnLength];
      var tagLength := dataSize - lrnLength;
      var tag := None;
      if tagLength > 0 {
        tag := Some(msg[TAGGED_HDR_SIZE + lrnLength..TAGGED_HDR_SIZE + lrnLength + tagLength]);
        SliceOfPrefix(msg[..], len, TAGGED_HDR_SIZE + lrnLength, TAGGED_HDR_SIZE + dataSize);
        assert tag.value == Contents()[TAGGED_HDR_SIZE + lrnLength..TAGGED_HDR_SIZE + dataSize];
      }
      return 0, Some(Response(id, false, None, Some(lrn), tag)), error;
    }

    /** `parse_msg`: depends on the received bytes alone, never on what the buffer holds behind them. */
    method ParseMsg(kind: Byte, error: Option<Error>) returns (code: int, resp: Option<Response>, error': Option<Error>)
      requires Valid()
      ensures Reports(Parse(kind, Contents()), code, resp, error, error')
    {
      var confirmError;
      code, resp, confirmError := ParseConfirm(error);
      if code == 0 { return 0, resp, confirmError; }
      if kind == TAGGED {
        code, resp, error' := ParseTaggedMsg(confirmError);
      } else if kind == CNAM {
        code, resp, error' := ParseJsonMsg(confirmError);
      } else {
        code, resp, error' := -1, None, confirmError;
      }
    }
  }

  /** The return code, response and error pointer a parse leaves behind. */
  predicate Reports(p: Parsed, code: int, resp: Option<Response>, error: Option<Error>, error': Option<Error>) {
    match p
    case Ok(r) => code == 0 && resp == Some(r) && error' == error
    case Bad(c, e) => code == c != 0 && error' == if e.Some? then e else error
  }
}
