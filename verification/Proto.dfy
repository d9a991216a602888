// src/proto.rs: the Trojan request and the UDP frame, both built around the address
// form of section 5 of RFC 1928.  An index that is out of bounds in the program is
// the outcome Panic here.
module Proto {
  import opened Common
  import opened Buffers

  const CONNECT: Byte := 0x01
  const UDP_ASSOCIATE: Byte := 0x03
  const MAX_PACKET_SIZE: nat := 1450
  const IPV4: Byte := 0x01
  const DOMAIN: Byte := 0x03
  const IPV6: Byte := 0x04
  const CRLF: seq<Byte> := [0x0D, 0x0A]

  type Octets = s: seq<Byte> | |s| == 4 witness [0, 0, 0, 0]
  type Segments = s: seq<U16> | |s| == 8 witness [0, 0, 0, 0, 0, 0, 0, 0]

  datatype Ip = Ip4(octets: Octets) | Ip6(segments: Segments)

  datatype SocketAddr =
    | V4(octets: Octets, port: U16)
    | V6(segments: Segments, port: U16, flowinfo: U32, scope: U32)

  datatype Sock5Address = Socket(addr: SocketAddr) | Domain(name: seq<Byte>, port: U16) | NoAddress

  // Whether a domain text is an IP address in text form is left open.
  type TextIp = seq<Byte> -> Option<Ip>

  // `SocketAddr::new`
  function NewSocketAddr(ip: Ip, port: U16): SocketAddr {
    match ip
    case Ip4(octets) => V4(octets, port)
    case Ip6(segments) => V6(segments, port, 0, 0)
  }

  datatype Parsed<+T> = Panic | Nothing | Just(value: T)

  datatype Request = Request(command: Byte, address: Sock5Address, payload: seq<Byte>)

  datatype UdpResult = Packet(address: SocketAddr, length: nat, payload: seq<Byte>) | InvalidProtocol | Continued

  function ToU16(b: seq<Byte>): U16
    requires |b| >= 2
  {
    var high: int := b[0];
    high * 0x100 + b[1]
  }

  // `parse_address`: consumed size and address.
  function ParseAddress(text: TextIp, atyp: Byte, b: seq<Byte>): (r: Parsed<(nat, Sock5Address)>)
    ensures r.Just? ==> 6 <= r.value.0 <= |b| || (atyp == DOMAIN && 3 <= r.value.0 <= |b|)
    ensures r.Panic? <==> atyp == DOMAIN && b == []
    ensures r.Just? ==> !r.value.1.NoAddress?
  {
    if atyp == IPV4 then
      if |b| < 6 then Nothing
      else Just((6, Socket(V4(b[..4], ToU16(b[4..])))))
    else if atyp == DOMAIN then
      if b == [] then Panic else
      var length: nat := b[0];
      if |b| < length + 3 then Nothing else
      var name := b[1..length + 1];
      var port := ToU16(b[length + 1..]);
      match text(name)
      case Some(ip) => Just((length + 3, Socket(NewSocketAddr(ip, port))))
      case None => Just((length + 3, Domain(name, port)))
    else if atyp == IPV6 then
      if |b| < 18 then Nothing
      else Just((18, Socket(V6(SegmentsOf(b), ToU16(b[16..]), 0, 0))))
    else Nothing
  }

  // The arguments of `Ipv6Addr::new`.
  function SegmentsOf(b: seq<Byte>): Segments
    requires |b| >= 16
  {
    [ToU16(b), ToU16(b[2..]), ToU16(b[4..]), ToU16(b[6..]),
     ToU16(b[8..]), ToU16(b[10..]), ToU16(b[12..]), ToU16(b[14..])]
  }

  // `TrojanRequest::parse`; pass is the hex text of the configured password's hash.
  function ParseRequest(pass: seq<Byte>, text: TextIp, buffer: seq<Byte>): Parsed<Request> {
    if |buffer| < |pass| || buffer[..|pass|] != pass then Nothing else
    var b := buffer[|pass|..];
    if |b| < 2 then Panic  // the error message indexes both bytes
    else if b[..2] != CRLF then Nothing else
    ParseTarget(text, b[2..])
  }

  // The part behind the first CRLF: command, address, CRLF, payload.
  function ParseTarget(text: TextIp, c: seq<Byte>): (r: Parsed<Request>) {
    if |c| < 3 then Nothing
    else if c[0] != CONNECT && c[0] != UDP_ASSOCIATE then Nothing else
    match ParseAddress(text, c[1], c[2..])
    case Panic => Panic
    case Nothing => Nothing
    case Just((size, address)) =>
      var d := c[2..][size..];
      if |d| < 1 then Panic
      else if d[0] != CRLF[0] then Nothing
      else if |d| < 2 then Panic
      else if d[1] != CRLF[1] then Nothing
      else Just(Request(c[0], address, d[2..]))
  }

  // `UdpAssociate::parse`
  function ParseUdp(text: TextIp, buffer: seq<Byte>): (r: UdpResult)
    ensures r.Packet? ==> r.length <= |r.payload| < |buffer| && r.length <= MAX_PACKET_SIZE
  {
    if |buffer| < 11 then Continued else
    match ParseAddress(text, buffer[0], buffer[1..])
    case Panic => assert false; InvalidProtocol
    case Nothing => InvalidProtocol
    case Just((size, address)) =>
      ParseUdpBody(address, buffer[1..][size..])
  }

  // The part behind the address: length, CRLF, payload.
  function ParseUdpBody(address: Sock5Address, b: seq<Byte>): (r: UdpResult)
    ensures r.Packet? ==> r.length <= |r.payload| == |b| - 4 && r.length <= MAX_PACKET_SIZE
  {
    if |b| < 4 then Continued else
    var length := ToU16(b);
    if length > MAX_PACKET_SIZE then InvalidProtocol
    else if |b| < length + 4 then Continued
    else if b[2..4] != CRLF then InvalidProtocol
    else match address
      case Socket(addr) => Packet(addr, length, b[4..])
      case _ => InvalidProtocol
  }

  // ---- generators

  function PutU16(v: U16): (b: seq<Byte>)
    ensures |b| == 2
  {
    [v / 0x100, v % 0x100]
  }

  function PutSegments(s: seq<U16>): (b: seq<Byte>)
    ensures |b| == 2 * |s|
  {
    if s == [] then [] else PutU16(s[0]) + PutSegments(s[1..])
  }

  // `Sock5Address::generate`
  function EncodeAddress(a: SocketAddr): (b: seq<Byte>)
    ensures |b| == if a.V4? then 7 else 19
  {
    match a
    case V4(octets, port) => [IPV4] + octets + PutU16(port)
    case V6(segments, port, _, _) => [IPV6] + PutSegments(segments) + PutU16(port)
  }

  // `TrojanRequest::generate`
  function EncodeRequest(pass: seq<Byte>, command: Byte, a: SocketAddr): seq<Byte> {
    pass + CRLF + [command] + EncodeAddress(a) + CRLF
  }

  // `UdpAssociate::generate`
  function EncodeUdpHeader(a: SocketAddr, length: U16): (b: seq<Byte>)
    ensures |b| == if a.V4? then 11 else 23
  {
    EncodeAddress(a) + PutU16(length) + CRLF
  }

  // What survives the wire: flow information and scope of an IPv6 address do not.
  function Canonical(a: SocketAddr): SocketAddr {
    match a
    case V4(_, _) => a
    case V6(segments, port, _, _) => V6(segments, port, 0, 0)
  }

  // ---- both directions

  lemma ToPut(v: U16, rest: seq<Byte>)
    ensures ToU16(PutU16(v) + rest) == v
  {}

  lemma PutTo(b: seq<Byte>)
    requires |b| >= 2
    ensures PutU16(ToU16(b)) == b[..2]
  {}

  // Eight segments sit at eight even offsets.
  lemma {:induction false} SegmentAt(s: seq<U16>, i: nat, rest: seq<Byte>)
    requires i < |s|
    ensures ToU16((PutSegments(s) + rest)[2 * i..]) == s[i]
  {
    if i > 0 {
      SegmentAt(s[1..], i - 1, rest);
      assert (PutSegments(s) + rest)[2 * i..] == (PutSegments(s[1..]) + rest)[2 * (i - 1)..];
    }
  }

  lemma SegmentsForward(s: Segments, rest: seq<Byte>)
    ensures SegmentsOf(PutSegments(s) + rest) == s
  {
    var b := PutSegments(s) + rest;
    forall i | 0 <= i < 8 ensures ToU16(b[2 * i..]) == s[i] { SegmentAt(s, i, rest); }
    assert b[2 * 0..] == b;
    assert s == [s[0], s[1], s[2], s[3], s[4], s[5], s[6], s[7]];
    assert ToU16(b[2 * 0..]) == s[0] && ToU16(b[2 * 1..]) == s[1] && ToU16(b[2 * 2..]) == s[2]
      && ToU16(b[2 * 3..]) == s[3] && ToU16(b[2 * 4..]) == s[4] && ToU16(b[2 * 5..]) == s[5]
      && ToU16(b[2 * 6..]) == s[6] && ToU16(b[2 * 7..]) == s[7];
  }

  lemma {:induction false} SegmentsBack(s: seq<U16>, b: seq<Byte>)
    requires |b| == 2 * |s|
    requires forall i :: 0 <= i < |s| ==> s[i] == ToU16(b[2 * i..])
    ensures PutSegments(s) == b
  {
    if s != [] {
      assert s[0] == ToU16(b[2 * 0..]) && b[0..] == b;
      PutTo(b);
      forall i | 0 <= i < |s[1..]| ensures s[1..][i] == ToU16(b[2..][2 * i..]) {
        assert s[1..][i] == s[i + 1] == ToU16(b[2 * (i + 1)..]);
        assert b[2..][2 * i..] == b[2 * (i + 1)..];
      }
      SegmentsBack(s[1..], b[2..]);
    }
  }

  lemma SegmentsOfBack(b: seq<Byte>)
    requires |b| >= 16
    ensures PutSegments(SegmentsOf(b)) == b[..16]
  {
    var s := SegmentsOf(b);
    forall i | 0 <= i < 8 ensures s[i] == ToU16(b[..16][2 * i..]) {
      assert b[2 * 0..] == b;
      assert s[i] == ToU16(b[2 * i..]);
    }
    SegmentsBack(s, b[..16]);
  }

  lemma AddressRoundTrip(text: TextIp, a: SocketAddr, rest: seq<Byte>)
    ensures ParseAddress(text, EncodeAddress(a)[0], EncodeAddress(a)[1..] + rest)
         == Just((|EncodeAddress(a)| - 1, Socket(Canonical(a))))
  {
    match a
    case V4(octets, port) =>
      assert EncodeAddress(a)[1..] == octets + PutU16(port);
      V4RoundTrip(text, octets, port, rest);
    case V6(segments, port, _, _) =>
      assert EncodeAddress(a)[1..] == PutSegments(segments) + PutU16(port);
      V6RoundTrip(text, segments, port, rest);
  }

  lemma V4RoundTrip(text: TextIp, octets: seq<Byte>, port: U16, rest: seq<Byte>)
    requires |octets| == 4
    ensures ParseAddress(text, IPV4, octets + PutU16(port) + rest) == Just((6, Socket(V4(octets, port))))
  {
    ToPut(port, rest);
    assert octets + PutU16(port) + rest == octets + (PutU16(port) + rest);
  }

  lemma V6RoundTrip(text: TextIp, segments: seq<U16>, port: U16, rest: seq<Byte>)
    requires |segments| == 8
    ensures ParseAddress(text, IPV6, PutSegments(segments) + PutU16(port) + rest)
         == Just((18, Socket(V6(segments, port, 0, 0))))
  {
    ToPut(port, rest);
    SegmentsForward(segments, PutU16(port) + rest);
    var b := PutSegments(segments) + PutU16(port) + rest;
    assert b == PutSegments(segments) + (PutU16(port) + rest);
    assert b[16..] == PutU16(port) + rest;
  }

  lemma AddressInverse(text: TextIp, atyp: Byte, b: seq<Byte>)
    requires atyp != DOMAIN && ParseAddress(text, atyp, b).Just?
    ensures var (size, address) := ParseAddress(text, atyp, b).value;
      address.Socket? && [atyp] + b[..size] == EncodeAddress(address.addr) && Canonical(address.addr) == address.addr
  {
    var (size, address) := ParseAddress(text, atyp, b).value;
    if atyp == IPV4 {
      PutTo(b[4..]);
      assert b[..6] == b[..4] + b[4..][..2];
    } else {
      SegmentsOfBack(b);
      PutTo(b[16..]);
      assert b[..18] == b[..16] + b[16..][..2];
    }
  }

  // Parsing a generated request followed by anything gives back command, address and
  // the rest; the IPv6 flow information and scope are lost.
  lemma RequestRoundTrip(pass: seq<Byte>, text: TextIp, command: Byte, a: SocketAddr, rest: seq<Byte>)
    ensures ParseRequest(pass, text, EncodeRequest(pass, command, a) + rest)
         == if command == CONNECT || command == UDP_ASSOCIATE
            then Just(Request(command, Socket(Canonical(a)), rest)) else Nothing
  {
    var e := EncodeAddress(a);
    var c := [command] + e + (CRLF + rest);
    TargetRoundTrip(text, command, a, rest);
    Regroup5(pass, CRLF, [command], e, CRLF, rest);
    Behind(pass, c, EncodeRequest(pass, command, a) + rest);
  }

  lemma Regroup5(a: seq<Byte>, b: seq<Byte>, c: seq<Byte>, d: seq<Byte>, e: seq<Byte>, f: seq<Byte>)
    ensures a + b + c + d + e + f == a + (b + (c + d + (e + f)))
  {}

  lemma Behind(pass: seq<Byte>, c: seq<Byte>, whole: seq<Byte>)
    requires whole == pass + (CRLF + c)
    ensures pass <= whole && whole[|pass|..] == CRLF + c && whole[|pass|..][..2] == CRLF && whole[|pass|..][2..] == c
  {}

  lemma TargetRoundTrip(text: TextIp, command: Byte, a: SocketAddr, rest: seq<Byte>)
    ensures ParseTarget(text, [command] + EncodeAddress(a) + (CRLF + rest))
         == if command == CONNECT || command == UDP_ASSOCIATE
            then Just(Request(command, Socket(Canonical(a)), rest)) else Nothing
  {
    var e := EncodeAddress(a);
    var c := [command] + e + (CRLF + rest);
    assert c[2..] == e[1..] + (CRLF + rest);
    AddressRoundTrip(text, a, CRLF + rest);
    assert c[2..][|e| - 1..] == CRLF + rest;
    assert (CRLF + rest)[2..] == rest;
  }

  // A successful parse with a binary address consumed exactly a generated request.
  lemma RequestInverse(pass: seq<Byte>, text: TextIp, buffer: seq<Byte>)
    requires ParseRequest(pass, text, buffer).Just? && buffer[|pass| + 3] != DOMAIN
    ensures var r := ParseRequest(pass, text, buffer).value;
      r.address.Socket? && buffer == EncodeRequest(pass, r.command, r.address.addr) + r.payload
  {
    var c := buffer[|pass|..][2..];
    TargetInverse(text, c);
    Header(pass, buffer);
    var r := ParseTarget(text, c).value;
    Regroup6(pass, CRLF, [r.command], EncodeAddress(r.address.addr), CRLF, r.payload);
  }

  lemma Regroup6(a: seq<Byte>, b: seq<Byte>, c: seq<Byte>, d: seq<Byte>, e: seq<Byte>, f: seq<Byte>)
    ensures a + b + (c + d + e + f) == a + b + c + d + e + f
  {}

  lemma Header(pass: seq<Byte>, buffer: seq<Byte>)
    requires |pass| <= |buffer| && buffer[..|pass|] == pass && |buffer[|pass|..]| >= 2 && buffer[|pass|..][..2] == CRLF
    ensures buffer == pass + CRLF + buffer[|pass|..][2..]
  {
    var b := buffer[|pass|..];
    assert b == CRLF + b[2..];
  }

  lemma TargetInverse(text: TextIp, c: seq<Byte>)
    requires ParseTarget(text, c).Just? && c[1] != DOMAIN
    ensures var r := ParseTarget(text, c).value;
      r.address.Socket? && c == [r.command] + EncodeAddress(r.address.addr) + CRLF + r.payload
  {
    var r := ParseTarget(text, c).value;
    AddressInverse(text, c[1], c[2..]);
    var (size, address) := ParseAddress(text, c[1], c[2..]).value;
    var d := c[2..][size..];
    assert d == CRLF + r.payload;
    assert c == [c[0]] + ([c[1]] + c[2..][..size]) + d;
  }

  // A request naming a domain that is no IP address.
  lemma DomainRequestInverse(pass: seq<Byte>, text: TextIp, buffer: seq<Byte>)
    requires var p := ParseRequest(pass, text, buffer); p.Just? && p.value.address.Domain?
    ensures var r := ParseRequest(pass, text, buffer).value; var name := r.address.name;
      && text(name) == None && |name| < 0x100
      && buffer == pass + CRLF + [r.command] + [DOMAIN, |name|] + name + PutU16(r.address.port) + CRLF + r.payload
  {
    var c := buffer[|pass|..][2..];
    TargetDomainInverse(text, c);
    Header(pass, buffer);
    var r := ParseTarget(text, c).value;
    var name := r.address.name;
    Regroup7(pass + CRLF, [r.command], [DOMAIN, |name|], name, PutU16(r.address.port), CRLF, r.payload);
  }

  lemma Regroup7(start: seq<Byte>, a: seq<Byte>, b: seq<Byte>, c: seq<Byte>, d: seq<Byte>, e: seq<Byte>, f: seq<Byte>)
    ensures start + (a + b + c + d + e + f) == start + a + b + c + d + e + f
  {}

  lemma TargetDomainInverse(text: TextIp, c: seq<Byte>)
    requires var p := ParseTarget(text, c); p.Just? && p.value.address.Domain?
    ensures var r := ParseTarget(text, c).value; var name := r.address.name;
      && text(name) == None && |name| < 0x100
      && c == [r.command] + [DOMAIN, |name|] + name + PutU16(r.address.port) + CRLF + r.payload
  {
    var r := ParseTarget(text, c).value;
    DomainInverse(text, c[1], c[2..]);
    var n := |r.address.name|;
    var d := c[2..][n + 3..];
    assert d == CRLF + r.payload;
    assert c == [c[0], c[1]] + c[2..][..n + 3] + d;
  }

  lemma DomainInverse(text: TextIp, atyp: Byte, b: seq<Byte>)
    requires var p := ParseAddress(text, atyp, b); p.Just? && p.value.1.Domain?
    ensures var (size, address) := ParseAddress(text, atyp, b).value;
      && atyp == DOMAIN && size == |address.name| + 3 && b[0] == |address.name| && text(address.name) == None
      && b[..size] == [b[0]] + address.name + PutU16(address.port)
  {
    var n := b[0];
    PutTo(b[n + 1..]);
    assert b[..n + 3] == [n] + b[1..n + 1] + b[n + 1..][..2];
  }

  // Where the parser indexes past the end of the first chunk: a right password with
  // less than CRLF behind it, or a well-formed address with less than CRLF behind it.
  lemma RequestPanics(pass: seq<Byte>, text: TextIp, buffer: seq<Byte>)
    ensures ParseRequest(pass, text, buffer).Panic? <==>
      && pass <= buffer
      && var b := buffer[|pass|..];
         || |b| < 2
         || (b[..2] == CRLF && |b| >= 5 && b[2] in {CONNECT, UDP_ASSOCIATE}
             && match ParseAddress(text, b[3], b[4..])
                case Just((size, _)) => b[4 + size..] == [] || b[4 + size..] == [CRLF[0]]
                case _ => false)
  {
    if pass <= buffer && |buffer[|pass|..]| >= 5 {
      var b := buffer[|pass|..];
      assert b[2..][2..] == b[4..];
      var r := ParseAddress(text, b[3], b[4..]);
      if r.Just? { assert b[4..][r.value.0..] == b[4 + r.value.0..]; }
    }
  }

  // Parsing a generated UDP header followed by the payload and anything more gives
  // back the datagram exactly when its length is at most 1450.
  lemma UdpRoundTrip(text: TextIp, a: SocketAddr, payload: seq<Byte>, rest: seq<Byte>)
    requires |payload| < 0x1_0000
    ensures ParseUdp(text, EncodeUdpHeader(a, |payload|) + payload + rest)
         == if |payload| <= MAX_PACKET_SIZE then Packet(Canonical(a), |payload|, payload + rest) else InvalidProtocol
  {
    var e := EncodeAddress(a);
    var buffer := EncodeUdpHeader(a, |payload|) + payload + rest;
    var tail := PutU16(|payload|) + (CRLF + payload + rest);
    assert buffer[1..] == e[1..] + tail;
    AddressRoundTrip(text, a, tail);
    assert buffer[1..][|e| - 1..] == tail;
    BodyRoundTrip(Canonical(a), payload, rest);
  }

  lemma BodyRoundTrip(a: SocketAddr, payload: seq<Byte>, rest: seq<Byte>)
    requires |payload| < 0x1_0000
    ensures ParseUdpBody(Socket(a), PutU16(|payload|) + (CRLF + payload + rest))
         == if |payload| <= MAX_PACKET_SIZE then Packet(a, |payload|, payload + rest) else InvalidProtocol
  {
    var b := PutU16(|payload|) + (CRLF + payload + rest);
    ToPut(|payload|, CRLF + payload + rest);
    assert b[2..4] == CRLF;
    assert b[4..] == payload + rest;
  }

  lemma UdpInverse(text: TextIp, buffer: seq<Byte>)
    requires ParseUdp(text, buffer).Packet? && buffer[0] != DOMAIN
    ensures var r := ParseUdp(text, buffer);
      buffer == EncodeUdpHeader(r.address, r.length) + r.payload
  {
    var r := ParseUdp(text, buffer);
    AddressInverse(text, buffer[0], buffer[1..]);
    var (size, address) := ParseAddress(text, buffer[0], buffer[1..]).value;
    var b := buffer[1..][size..];
    PutTo(b);
    assert b == b[..2] + CRLF + b[4..];
    assert buffer == ([buffer[0]] + buffer[1..][..size]) + b;
  }

  // Bytes behind a complete datagram do not change how it is parsed.
  lemma PacketExtends(text: TextIp, b: seq<Byte>, more: seq<Byte>)
    requires ParseUdp(text, b).Packet?
    ensures var r := ParseUdp(text, b); ParseUdp(text, b + more) == Packet(r.address, r.length, r.payload + more)
  {
    var a := b + more;
    assert a[1..] == b[1..] + more;
    AddressExtends(text, b[0], b[1..], more);
    var (size, address) := ParseAddress(text, b[0], b[1..]).value;
    var c := b[1..][size..];
    assert a[1..][size..] == c + more;
    assert (c + more)[2..4] == c[2..4];
    assert (c + more)[4..] == c[4..] + more;
  }

  lemma AddressExtends(text: TextIp, atyp: Byte, b: seq<Byte>, more: seq<Byte>)
    requires ParseAddress(text, atyp, b).Just?
    ensures ParseAddress(text, atyp, b + more) == ParseAddress(text, atyp, b)
  {
    if atyp == DOMAIN {
      assert (b + more)[1..b[0] + 1] == b[1..b[0] + 1];
      assert (b + more)[b[0] + 1..][..2] == b[b[0] + 1..][..2];
    } else if atyp == IPV4 {
      assert (b + more)[..4] == b[..4];
    }
  }

  // ---- the generators as the program runs them, on a growing buffer

  method GenerateAddress(buffer: BytesMut, a: SocketAddr)
    modifies buffer
    ensures buffer.data == old(buffer.data) + EncodeAddress(a)
  {
    match a {
      case V4(octets, port) =>
        buffer.Extend([IPV4]);
        buffer.Extend(octets);
      case V6(segments, port, _, _) =>
        buffer.Extend([IPV6]);
        buffer.Extend(PutSegments(segments));
    }
    buffer.Extend(PutU16(a.port));
  }

  method GenerateRequest(buffer: BytesMut, pass: seq<Byte>, command: Byte, a: SocketAddr)
    modifies buffer
    ensures buffer.data == old(buffer.data) + EncodeRequest(pass, command, a)
  {
    ghost var start := buffer.data;
    buffer.Extend(pass);
    buffer.Extend(CRLF);
    buffer.Extend([command]);
    GenerateAddress(buffer, a);
    buffer.Extend(CRLF);
    Regroup(start, pass, CRLF, [command], EncodeAddress(a), CRLF);
  }

  lemma Regroup(start: seq<Byte>, a: seq<Byte>, b: seq<Byte>, c: seq<Byte>, d: seq<Byte>, e: seq<Byte>)
    ensures start + a + b + c + d + e == start + (a + b + c + d + e)
  {}

  method GenerateUdp(buffer: BytesMut, a: SocketAddr, length: U16)
    modifies buffer
    ensures buffer.data == old(buffer.data) + EncodeUdpHeader(a, length)
  {
    GenerateAddress(buffer, a);
    buffer.Extend(PutU16(length));
    buffer.Extend(CRLF);
  }
}
