/**
 * SOCKS addresses: the printer (core/Clash.Meta/adapter/outbound/util.go), the parser
 * (core/Clash.Meta/adapter/inbound/util.go), and the format itself, section 5 of RFC 1928.
 *
 * Hosts are byte strings. The parser computes indices in bytes, so they wrap around at 256;
 * None stands for its index panics.
 */
module Socks {
  import opened Prelude
  import opened Address

  const ATYP_IPV4: byte := 1
  const ATYP_DOMAIN: byte := 3
  const ATYP_IPV6: byte := 4
  const DOT: byte := 46

  type Port = p: int | 0 <= p < 65536

  /** The part of a connection's metadata that an address carries. */
  datatype Metadata = Metadata(host: seq<byte>, ip: Addr, port: Port)

  function AddrType(m: Metadata): byte {
    if m.host != [] || !m.ip.IsValid() then ATYP_DOMAIN else if m.ip.V4? then ATYP_IPV4 else ATYP_IPV6
  }

  function PortBytes(p: Port): (r: seq<byte>)
    ensures |r| == 2
  {
    [(p / 256) as byte, (p % 256) as byte]
  }

  function PortOf(high: byte, low: byte): Port {
    high as int * 256 + low as int
  }

  function Serialize(m: Metadata): seq<byte> {
    match AddrType(m)
    case 3 => [ATYP_DOMAIN, (|m.host| % 256) as byte] + m.host + PortBytes(m.port)
    case 1 => [ATYP_IPV4] + m.ip.octets + PortBytes(m.port)
    case _ => [ATYP_IPV6] + m.ip.octets + PortBytes(m.port)
  }

  function TrimRight(s: seq<byte>): (r: seq<byte>)
    ensures r <= s && (r == [] || r[|r| - 1] != DOT)
    ensures forall i :: |r| <= i < |s| ==> s[i] == DOT
  {
    if s == [] || s[|s| - 1] != DOT then s else TrimRight(s[..|s| - 1])
  }

  /** Addition of bytes. */
  function Plus(a: byte, b: byte): byte {
    ((a as int + b as int) % 256) as byte
  }

  function At(t: seq<byte>, i: int): Option<byte> {
    if 0 <= i < |t| then Some(t[i]) else None
  }

  function Slice(t: seq<byte>, from: int, to: int): Option<seq<byte>> {
    if 0 <= from <= to <= |t| then Some(t[from..to]) else None
  }

  function WithPort(host: seq<byte>, ip: Addr, high: Option<byte>, low: Option<byte>): Option<Metadata> {
    if high.Some? && low.Some? then Some(Metadata(host, ip, PortOf(high.value, low.value))) else None
  }

  function Parse(t: seq<byte>): Option<Metadata> {
    if t == [] then None
    else if t[0] == ATYP_DOMAIN then
      if |t| < 2 then None
      else
        var end := Plus(2, t[1]);
        match Slice(t, 2, end as int)
        case None => None
        case Some(host) => WithPort(TrimRight(host), Invalid, At(t, end as int), At(t, Plus(end, 1) as int))
    else if t[0] == ATYP_IPV4 then
      match Slice(t, 1, 5)
      case None => None
      case Some(octets) => WithPort([], V4(octets), At(t, 5), At(t, 6))
    else if t[0] == ATYP_IPV6 then
      match Slice(t, 1, 17)
      case None => None
      case Some(octets) => WithPort([], V6(octets, "").Unmap(), At(t, 17), At(t, 18))
    else Some(Metadata([], Invalid, 0))
  }

  /** What an address says by the standard: its type, its length, the address and the port, and nothing more. */
  ghost function Standard(t: seq<byte>): Option<Metadata> {
    if |t| < 4 then None
    else
      var port := PortOf(t[|t| - 2], t[|t| - 1]);
      if t[0] == ATYP_DOMAIN && |t| == 4 + t[1] as int then Some(Metadata(t[2..|t| - 2], Invalid, port))
      else if t[0] == ATYP_IPV4 && |t| == 7 then Some(Metadata([], V4(t[1..5]), port))
      else if t[0] == ATYP_IPV6 && |t| == 19 then Some(Metadata([], V6(t[1..17], ""), port))
      else None
  }

  /** What the address is to say: the host if there is one, else the IP. */
  ghost function Meant(m: Metadata): Metadata {
    if m.host != [] then m.(ip := Invalid) else m
  }

  /** The parser's view of an address: no trailing dots, no IPv4 in IPv6. */
  ghost function Normal(m: Metadata): Metadata {
    m.(host := TrimRight(m.host), ip := m.ip.Unmap())
  }

  lemma PortSurvives(p: Port)
    ensures PortOf(PortBytes(p)[0], PortBytes(p)[1]) == p
  {
  }

  /** The printer follows the standard exactly for hosts of up to 255 bytes and addresses without a zone. */
  lemma PrinterMeetsStandardIff(m: Metadata)
    requires m.ip.WellFormed()
    ensures Standard(Serialize(m)) == Some(Meant(m)) <==>
      if AddrType(m) == ATYP_DOMAIN then |m.host| <= 255 else m.ip.V6? ==> m.ip.zone == ""
  {
    var t := Serialize(m);
    PortSurvives(m.port);
    if AddrType(m) == ATYP_DOMAIN {
      assert t[2..|t| - 2] == m.host;
    } else if m.ip.V4? {
      assert t[1..5] == m.ip.octets;
    } else {
      assert t[1..17] == m.ip.octets;
    }
  }

  /** A domain name whose end the parser finds: up to 252 bytes; at 253 it takes the type byte for half the port. */
  ghost predicate Reachable(t: seq<byte>)
    requires |t| >= 2
  {
    t[1] <= 252 || (t[1] == 253 && t[|t| - 1] == ATYP_DOMAIN)
  }

  lemma ParserOnDomain(t: seq<byte>)
    requires Standard(t).Some? && t[0] == ATYP_DOMAIN
    ensures t[1] <= 252 ==> Parse(t) == Some(Normal(Standard(t).value))
    ensures t[1] == 253 ==>
      Parse(t) == Some(Metadata(TrimRight(Standard(t).value.host), Invalid, PortOf(t[255], ATYP_DOMAIN)))
    ensures t[1] >= 254 ==> Parse(t).None?
  {
    var end := 2 + t[1] as int;
    if t[1] <= 253 {
      assert Plus(2, t[1]) as int == end;
      assert Slice(t, 2, end) == Some(Standard(t).value.host);
      if t[1] <= 252 {
        assert Plus(end as byte, 1) as int == end + 1 == |t| - 1;
      }
    }
  }

  lemma ParserOnIp(t: seq<byte>)
    requires Standard(t).Some? && t[0] != ATYP_DOMAIN
    ensures Parse(t) == Some(Normal(Standard(t).value))
  {
    assert TrimRight([]) == [];
  }

  /** The parser reads a standard address as it is meant exactly if its byte indices do not wrap. */
  lemma ParserMeetsStandardIff(t: seq<byte>)
    requires Standard(t).Some?
    ensures Parse(t) == Some(Normal(Standard(t).value)) <==> (t[0] == ATYP_DOMAIN ==> Reachable(t))
  {
    if t[0] == ATYP_DOMAIN {
      ParserOnDomain(t);
      if t[1] == 253 {
        assert Standard(t).value.port == PortOf(t[255], t[256]);
      }
    } else {
      ParserOnIp(t);
    }
  }

  /**
   * When the parser panics: on nothing at all, on a domain name whose end or port would be read
   * behind the end, and on an IP address that is cut short. An unknown type gives an empty result.
   */
  lemma PanicsIff(t: seq<byte>)
    ensures Parse(t).None? <==>
      || t == []
      || (t[0] == 1 && |t| < 7)
      || (t[0] == 4 && |t| < 19)
      || (t[0] == 3 && (|t| < 2 || t[1] >= 254 || |t| <= 2 + t[1] as int || (t[1] < 253 && |t| <= 3 + t[1] as int)))
    ensures t != [] && t[0] != 1 && t[0] != 3 && t[0] != 4 ==> Parse(t) == Some(Metadata([], Invalid, 0))
  {
  }

  lemma TrimmedIff(s: seq<byte>)
    ensures TrimRight(s) == s <==> s == [] || s[|s| - 1] != DOT
  {
  }

  ghost predicate SurvivesTrip(m: Metadata) {
    if AddrType(m) == ATYP_DOMAIN then
      && (|m.host| <= 252 || (|m.host| == 253 && m.port % 256 == 3))
      && (m.host == [] || m.host[|m.host| - 1] != DOT)
    else m.ip.V6? ==> m.ip.zone == "" && !m.ip.IsMapped()
  }

  /** A host of 256 bytes or more is never read back. */
  lemma LongHostIsLost(m: Metadata)
    requires AddrType(m) == ATYP_DOMAIN && |m.host| >= 256
    ensures Parse(Serialize(m)) != Some(Meant(m))
  {
    var t := Serialize(m);
    var end := Plus(2, t[1]) as int;
    assert end < 256;
    assert Slice(t, 2, end).Some? ==> |Slice(t, 2, end).value| < 256;
  }

  lemma DomainTripIff(m: Metadata)
    requires AddrType(m) == ATYP_DOMAIN && m.ip.WellFormed()
    ensures Parse(Serialize(m)) == Some(Meant(m)) <==> SurvivesTrip(m)
  {
    if |m.host| >= 256 {
      LongHostIsLost(m);
    } else {
      PrinterMeetsStandardIff(m);
      ReachableIff(m);
      if Reachable(Serialize(m)) {
        ParserMeetsStandardIff(Serialize(m));
        TrimmedIff(m.host);
      } else {
        UnreachableDiffers(Serialize(m), m);
      }
    }
  }

  lemma ReachableIff(m: Metadata)
    requires AddrType(m) == ATYP_DOMAIN && |m.host| <= 255
    ensures Serialize(m)[0] == ATYP_DOMAIN
    ensures Reachable(Serialize(m)) <==> |m.host| <= 252 || (|m.host| == 253 && m.port % 256 == 3)
  {
    var t := Serialize(m);
    assert t[|t| - 1] == PortBytes(m.port)[1];
    assert t[1] as int == |m.host|;
  }

  lemma IpTripIff(m: Metadata)
    requires AddrType(m) != ATYP_DOMAIN && m.ip.WellFormed()
    ensures Parse(Serialize(m)) == Some(Meant(m)) <==> SurvivesTrip(m)
  {
    var plain := if m.ip.V6? then m.(ip := V6(m.ip.octets, "")) else m;
    assert Serialize(plain) == Serialize(m);
    PrinterMeetsStandardIff(plain);
    ParserMeetsStandardIff(Serialize(m));
    assert TrimRight([]) == [];
  }

  /** Round trip, and exactly when: for every port, host and address. */
  lemma RoundTripIff(m: Metadata)
    requires m.ip.WellFormed()
    ensures Parse(Serialize(m)) == Some(Meant(m)) <==> SurvivesTrip(m)
  {
    if AddrType(m) == ATYP_DOMAIN {
      DomainTripIff(m);
    } else {
      IpTripIff(m);
    }
  }

  /** Where the indices wrap, the parser panics or gets the port wrong. */
  lemma UnreachableDiffers(t: seq<byte>, m: Metadata)
    requires Standard(t) == Some(Meant(m)) && AddrType(m) == ATYP_DOMAIN && t[0] == ATYP_DOMAIN && !Reachable(t)
    ensures Parse(t) != Some(Meant(m))
  {
    if t[1] == 253 {
      assert Parse(t).Some? ==> Parse(t).value.port == PortOf(t[255], t[0]);
      assert m.port == PortOf(t[255], t[256]);
    }
  }

  /** The bound of 252 is forced: a host of 254 bytes makes the parser panic, whatever it is. */
  lemma HostOf254Panics(m: Metadata)
    requires AddrType(m) == ATYP_DOMAIN && 254 <= |m.host| <= 255
    ensures Parse(Serialize(m)).None?
  {
    assert Serialize(m)[1] as int == |m.host|;
  }
}
