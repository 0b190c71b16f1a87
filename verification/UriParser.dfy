/** `parseAddr`: endpoint addresses of the form proto://host:port, with proto and port optional. */
module UriParser {
  import opened Numerals
  import opened Texts

  const ADDR_SIZE := 128
  const PROTOCOL_SIZE := 16
  const HOST_SIZE := 64
  const MAX_INT := 0x7fff_ffff

  datatype UriComponents = UriComponents(proto: Text, host: Text, port: int)

  predicate SchemeAt(t: Text, i: nat) { i + 3 <= |t| && t[i..i + 3] == "://" }

  /** `strstr(t, "://")`. */
  function FindScheme(t: Text, from: nat := 0): (r: Option<nat>)
    requires from <= |t|
    ensures r.Some? ==> from <= r.value && SchemeAt(t, r.value) && forall k :: from <= k < r.value ==> !SchemeAt(t, k)
    ensures r.None? ==> forall k :: from <= k < |t| ==> !SchemeAt(t, k)
    decreases |t| - from
  {
    if from == |t| then None
    else if SchemeAt(t, from) then Some(from)
    else FindScheme(t, from + 1)
  }

  function AfterScheme(addr: Text): Text {
    match FindScheme(addr)
    case None => addr
    case Some(i) => addr[i + 3..]
  }

  /** In an address that is not rejected, the rest is copied into the host field unchecked when there
      is no port; it has to fit. */
  predicate HostFits(addr: Text) {
    |addr| < ADDR_SIZE && IndexOf(AfterScheme(addr), ':', 0).None? ==> |AfterScheme(addr)| <= HOST_SIZE
  }

  /** A component is kept when it is nonempty and fits its field, else left empty. */
  function Component(t: Text, size: nat): Text { if 0 < |t| <= size then t else [] }

  /** What the parser yields; None is its return code -1. */
  function Components(addr: Text): Option<UriComponents>
    requires HostFits(addr)
  {
    if addr == [] || |addr| >= ADDR_SIZE then None
    else
      var rest := AfterScheme(addr);
      var proto := if FindScheme(addr).Some? then Component(addr[..FindScheme(addr).value], PROTOCOL_SIZE) else [];
      match IndexOf(rest, ':', 0)
      case Some(c) => Some(UriComponents(proto, Component(rest[..c], HOST_SIZE), ParseLong(rest[c + 1..]).GetOr(0)))
      case None => Some(UriComponents(proto, rest, 0))
  }

  method ParseAddr(addr: Text) returns (r: Option<UriComponents>)
    requires HostFits(addr)
    ensures r == Components(addr)
  {
    hide ParseLong, FindScheme, IndexOf;
    if addr == [] || |addr| >= ADDR_SIZE { return None; }
    var out := UriComponents([], [], 0);
    var p := addr;
    var delim := FindScheme(p);
    if delim.Some? {
      if 0 < delim.value <= PROTOCOL_SIZE { out := out.(proto := p[..delim.value]); }
      p := p[delim.value + 3..];
    }
    delim := IndexOf(p, ':', 0);
    if delim.Some? {
      if 0 < delim.value <= HOST_SIZE { out := out.(host := p[..delim.value]); }
      p := p[delim.value + 1..];
      out := out.(port := ParseLong(p).GetOr(0));
    } else {
      out := out.(host := p);
    }
    return Some(out);
  }

  function Print(u: UriComponents): Text
    requires u.port >= 0
  {
    u.proto + "://" + u.host + ":" + Decimal(u.port)
  }

  /** Parsing undoes printing within the field sizes, for ports that an int holds. */
  lemma ParsePrint(u: UriComponents)
    requires 0 < |u.proto| <= PROTOCOL_SIZE && 0 < |u.host| <= HOST_SIZE && 0 <= u.port <= MAX_INT
    requires ':' !in u.proto && ':' !in u.host && |Print(u)| < ADDR_SIZE
    ensures HostFits(Print(u)) && Components(Print(u)) == Some(u)
  {
    hide Components, HostFits, ParseLong, Decimal;
    forall i | 0 <= i < |u.proto| ensures !SchemeAt(u.proto + "://", i) {
      assert (u.proto + "://")[i] == u.proto[i] != ':';
    }
    AddressForms(u.proto, u.host, Decimal(u.port));
    ParseDecimal(u.port);
  }

  /** Which addresses are refused. */
  lemma RefusedAddresses(addr: Text)
    requires HostFits(addr)
    ensures Components(addr) == None <==> addr == [] || |addr| >= 128
  {
  }

  /** A protocol longer than 16 and a host longer than 64 are dropped when more follows them, a missing
      port and one that is no number are 0. */
  lemma AddressForms(proto: Text, host: Text, port: Text)
    requires (forall i :: 0 <= i < |proto| ==> !SchemeAt(proto + "://", i)) && ':' !in host
    ensures var addr := proto + "://" + host + ":" + port;
      |addr| < 128 ==>
        && HostFits(addr)
        && Components(addr) == Some(UriComponents(if |proto| <= 16 then proto else [], if |host| <= 64 then host else [],
                                                  ParseLong(port).GetOr(0)))
    ensures var addr := proto + "://" + host;
      |addr| < 128 && |host| <= 64 ==>
        HostFits(addr) && Components(addr) == Some(UriComponents(if |proto| <= 16 then proto else [], host, 0))
    ensures 0 < |host| <= 64 ==> HostFits(host) && Components(host) == Some(UriComponents([], host, 0))
    ensures var addr := host + ":" + port;
      |addr| < 128 && (forall i :: 0 <= i <= |addr| ==> !SchemeAt(addr, i)) ==>
        && HostFits(addr)
        && Components(addr) == Some(UriComponents([], if |host| <= 64 then host else [], ParseLong(port).GetOr(0)))
  {
    hide ParseLong, FindScheme, IndexOf;
    SchemeBehind(proto, host + ":" + port);
    SchemeBehind(proto, host);
    assert proto + "://" + host + ":" + port == proto + "://" + (host + ":" + port);
    ColonBehind(host, port);
    NoColon(host);
    var addr := host + ":" + port;
    if forall i :: 0 <= i <= |addr| ==> !SchemeAt(addr, i) {
      assert FindScheme(addr) == None;
    }
  }

  lemma SchemeBehind(proto: Text, rest: Text)
    requires forall i :: 0 <= i < |proto| ==> !SchemeAt(proto + "://", i)
    ensures var addr := proto + "://" + rest;
      FindScheme(addr) == Some(|proto|) && addr[..|proto|] == proto && addr[|proto| + 3..] == rest
  {
    var addr := proto + "://" + rest;
    forall k | 0 <= k < |proto| ensures !SchemeAt(addr, k) {
      assert addr[k..k + 3] == (proto + "://")[k..k + 3];
      assert !SchemeAt(proto + "://", k);
    }
    assert SchemeAt(addr, |proto|);
  }

  lemma ColonBehind(host: Text, port: Text)
    requires ':' !in host
    ensures var rest := host + ":" + port;
      IndexOf(rest, ':', 0) == Some(|host|) && rest[..|host|] == host && rest[|host| + 1..] == port
  {
    var rest := host + ":" + port;
    forall k | 0 <= k < |host| ensures rest[k] != ':' {
      assert rest[k] == host[k];
    }
    assert rest[|host|] == ':';
  }

  lemma NoColon(host: Text)
    requires ':' !in host
    ensures IndexOf(host, ':', 0) == None && FindScheme(host) == None
  {
    forall k | 0 <= k < |host| ensures !SchemeAt(host, k) {
      assert host[k] != ':';
    }
  }
}
