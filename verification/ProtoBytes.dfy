// The formats of src/proto.rs byte by byte, after section 5 of RFC 1928: what the parser
// makes of every frame and of every well-formed request, and what the generator writes.
module ProtoBytes {
  import opened Common
  import opened Proto

  // The address a name stands for: the text of an IP address, or a domain.
  function Named(text: TextIp, name: seq<Byte>, port: U16): Sock5Address {
    match text(name)
    case Some(Ip4(octets)) => Socket(V4(octets, port))
    case Some(Ip6(segments)) => Socket(V6(segments, port, 0, 0))
    case None => Sock5Address.Domain(name, port)
  }

  // Two bytes, the more significant one first.
  function Word(b: seq<Byte>, i: nat): U16
    requires i + 1 < |b|
  {
    var high: int := b[i];
    256 * high + b[i + 1]
  }

  // ---- requests

  // Every name of up to 255 bytes, every port, either command, and anything behind.
  lemma NamedRequest(pass: seq<Byte>, text: TextIp, command: Byte, name: seq<Byte>, port: U16, rest: seq<Byte>)
    requires |name| < 256
    ensures ParseRequest(pass, text,
                         pass + [13, 10, command, 3, |name|] + name + [port / 256, port % 256, 13, 10] + rest)
         == if command == 1 || command == 3 then Just(Request(command, Named(text, name, port), rest)) else Nothing
  {
    var c := [command, 3, |name|] + name + [port / 256, port % 256, 13, 10] + rest;
    var whole := pass + [13, 10, command, 3, |name|] + name + [port / 256, port % 256, 13, 10] + rest;
    assert whole == pass + (CRLF + c);
    Behind(pass, c, whole);
    NamedTarget(text, command, name, port, rest);
  }

  lemma NamedTarget(text: TextIp, command: Byte, name: seq<Byte>, port: U16, rest: seq<Byte>)
    requires |name| < 256
    ensures ParseTarget(text, [command, 3, |name|] + name + [port / 256, port % 256, 13, 10] + rest)
         == if command == 1 || command == 3 then Just(Request(command, Named(text, name, port), rest)) else Nothing
  {
    var c := [command, 3, |name|] + name + [port / 256, port % 256, 13, 10] + rest;
    var tail := [13, 10] + rest;
    NamedAddress(text, name, port, tail);
    assert c[2..] == [|name|] + name + [port / 256, port % 256] + tail;
    assert c[2..][|name| + 3..] == tail && tail[2..] == rest;
  }

  lemma NamedAddress(text: TextIp, name: seq<Byte>, port: U16, tail: seq<Byte>)
    requires |name| < 256
    ensures ParseAddress(text, 3, [|name|] + name + [port / 256, port % 256] + tail)
         == Just((|name| + 3, Named(text, name, port)))
  {
    var b := [|name|] + name + [port / 256, port % 256] + tail;
    assert b[1..|name| + 1] == name;
    assert b[|name| + 1..] == [port / 256, port % 256] + tail;
  }

  // And only those: what was parsed as a request with a name has this form.
  lemma NamedRequestInverse(pass: seq<Byte>, text: TextIp, buffer: seq<Byte>) returns (name: seq<Byte>, port: U16)
    requires ParseRequest(pass, text, buffer).Just? && buffer[|pass| + 3] == 3
    ensures var r := ParseRequest(pass, text, buffer).value;
      && |name| < 256 && r.command in {1, 3} && r.address == Named(text, name, port)
      && buffer == pass + [13, 10] + NamedBytes(r.command, name, port, r.payload)
  {
    Header(pass, buffer);
    name, port := NamedTargetInverse(text, buffer[|pass|..][2..]);
  }

  function NamedBytes(command: Byte, name: seq<Byte>, port: U16, rest: seq<Byte>): seq<Byte>
    requires |name| < 256
  {
    [command, 3, |name|] + name + [port / 256, port % 256, 13, 10] + rest
  }

  lemma NamedTargetInverse(text: TextIp, c: seq<Byte>) returns (name: seq<Byte>, port: U16)
    requires ParseTarget(text, c).Just? && c[1] == 3
    ensures var r := ParseTarget(text, c).value;
      && |name| < 256 && r.command in {1, 3} && r.address == Named(text, name, port)
      && c == NamedBytes(r.command, name, port, r.payload)
  {
    var r := ParseTarget(text, c).value;
    name, port := NamedAddressInverse(text, c[2..]);
    Ends(c[2..][|name| + 3..], r.payload);
    Assemble(c, name, port, r.payload);
  }

  lemma NamedAddressInverse(text: TextIp, b: seq<Byte>) returns (name: seq<Byte>, port: U16)
    requires ParseAddress(text, 3, b).Just?
    ensures |name| < 256 && |b| >= |name| + 3 && b[..|name| + 3] == [|name|] + name + [port / 256, port % 256]
    ensures ParseAddress(text, 3, b) == Just((|name| + 3, Named(text, name, port)))
  {
    var n: nat := b[0];
    name, port := b[1..n + 1], Word(b, n + 1);
    WordBytes(b, n + 1);
    assert b[..n + 3] == [b[0]] + b[1..n + 1] + b[n + 1..n + 3];
  }

  lemma WordBytes(b: seq<Byte>, i: nat)
    requires i + 2 <= |b|
    ensures b[i..i + 2] == [Word(b, i) / 256, Word(b, i) % 256]
  {}

  lemma Ends(d: seq<Byte>, payload: seq<Byte>)
    requires |d| >= 2 && d[0] == 13 && d[1] == 10 && payload == d[2..]
    ensures d == [13, 10] + payload
  {}

  lemma Assemble(c: seq<Byte>, name: seq<Byte>, port: U16, rest: seq<Byte>)
    requires |c| >= 2 && c[1] == 3 && |name| < 256 && |c[2..]| >= |name| + 3
    requires c[2..][..|name| + 3] == [|name|] + name + [port / 256, port % 256]
    requires c[2..][|name| + 3..] == [13, 10] + rest
    ensures c == NamedBytes(c[0], name, port, rest)
  {
    assert c == [c[0], c[1]] + (c[2..][..|name| + 3] + c[2..][|name| + 3..]);
  }

  lemma Ipv4Request(pass: seq<Byte>, text: TextIp, command: Byte, o: Octets, port: U16, rest: seq<Byte>)
    ensures EncodeRequest(pass, command, V4(o, port))
         == pass + [13, 10, command, 1, o[0], o[1], o[2], o[3], port / 256, port % 256, 13, 10]
    ensures ParseRequest(pass, text,
                         pass + [13, 10, command, 1, o[0], o[1], o[2], o[3], port / 256, port % 256, 13, 10] + rest)
         == if command == 1 || command == 3 then Just(Request(command, Socket(V4(o, port)), rest)) else Nothing
  {
    var tail := [13, 10, command, 1, o[0], o[1], o[2], o[3], port / 256, port % 256, 13, 10];
    assert EncodeRequest(pass, command, V4(o, port)) == pass + tail by {
      assert [1] + o + PutU16(port) == [1, o[0], o[1], o[2], o[3], port / 256, port % 256];
    }
    RequestRoundTrip(pass, text, command, V4(o, port), rest);
  }

  // The eight segments of an IPv6 address, most significant byte first.
  lemma {:induction false} SegmentBytes(s: seq<U16>, i: nat)
    requires i < |s|
    ensures PutSegments(s)[2 * i] == s[i] / 256 && PutSegments(s)[2 * i + 1] == s[i] % 256
  {
    if i > 0 { SegmentBytes(s[1..], i - 1); }
  }

  lemma Ipv6Address(g: Segments, port: U16, flowinfo: U32, scope: U32)
    ensures var b := EncodeAddress(V6(g, port, flowinfo, scope));
      && |b| == 19 && b[0] == 4 && b[17] == port / 256 && b[18] == port % 256
      && forall i :: 0 <= i < 8 ==> b[1 + 2 * i] == g[i] / 256 && b[2 + 2 * i] == g[i] % 256
  {
    var b := EncodeAddress(V6(g, port, flowinfo, scope));
    forall i | 0 <= i < 8 ensures b[1 + 2 * i] == g[i] / 256 && b[2 + 2 * i] == g[i] % 256 {
      SegmentBytes(g, i);
      assert b[1 + 2 * i] == PutSegments(g)[2 * i] && b[2 + 2 * i] == PutSegments(g)[2 * i + 1];
    }
  }

  lemma RequestBytes(pass: seq<Byte>, command: Byte, a: SocketAddr)
    ensures EncodeRequest(pass, command, a) == pass + [13, 10, command] + EncodeAddress(a) + [13, 10]
  {}

  // ---- frames

  lemma FrameHeader(a: SocketAddr, length: U16)
    ensures EncodeUdpHeader(a, length) == EncodeAddress(a) + [length / 256, length % 256, 13, 10]
    ensures a.V4? ==> var o := a.octets;
      EncodeAddress(a) == [1, o[0], o[1], o[2], o[3], a.port / 256, a.port % 256]
  {}

  lemma ShortFrame(text: TextIp, b: seq<Byte>)
    requires |b| < 11
    ensures ParseUdp(text, b) == Continued
  {}

  lemma UnknownFrame(text: TextIp, b: seq<Byte>)
    requires |b| >= 11 && b[0] !in {1, 3, 4}
    ensures ParseUdp(text, b) == InvalidProtocol
  {}

  // The verdict on a frame with its length at a place and `address` before that.
  function Verdict(b: seq<Byte>, at: nat, address: Option<SocketAddr>): UdpResult {
    if |b| < at + 4 then Continued else
    var length := Word(b, at);
    if length > 1450 then InvalidProtocol
    else if |b| < at + 4 + length then Continued
    else if b[at + 2] != 13 || b[at + 3] != 10 || address.None? then InvalidProtocol
    else Packet(address.value, length, b[at + 4..])
  }

  lemma Ipv4Frame(text: TextIp, b: seq<Byte>)
    requires |b| >= 11 && b[0] == 1
    ensures ParseUdp(text, b) == Verdict(b, 7, Some(V4([b[1], b[2], b[3], b[4]], Word(b, 5))))
  {
    assert b[1..][..4] == [b[1], b[2], b[3], b[4]];
    AtLength(b, 6, Socket(V4([b[1], b[2], b[3], b[4]], Word(b, 5))));
  }

  lemma Ipv6Frame(text: TextIp, b: seq<Byte>)
    requires |b| >= 11 && b[0] == 4
    ensures ParseUdp(text, b) ==
      if |b| < 19 then InvalidProtocol else
      Verdict(b, 19, Some(V6([Word(b, 1), Word(b, 3), Word(b, 5), Word(b, 7),
                              Word(b, 9), Word(b, 11), Word(b, 13), Word(b, 15)],
                             Word(b, 17), 0, 0)))
  {
    if |b| >= 19 {
      assert SegmentsOf(b[1..]) == [Word(b, 1), Word(b, 3), Word(b, 5), Word(b, 7),
        Word(b, 9), Word(b, 11), Word(b, 13), Word(b, 15)];
      AtLength(b, 18, Socket(V6(SegmentsOf(b[1..]), Word(b, 17), 0, 0)));
    }
  }

  function NamedVerdict(text: TextIp, b: seq<Byte>, n: nat): UdpResult {
    if |b| < n + 4 then InvalidProtocol else
    var address := Named(text, b[2..n + 2], Word(b, n + 2));
    Verdict(b, n + 4, match address case Socket(a) => Some(a) case _ => None)
  }

  // A name that is no IP address makes a complete frame malformed; a frame too short for
  // its name is malformed at once.
  lemma NamedFrame(text: TextIp, b: seq<Byte>)
    requires |b| >= 11 && b[0] == 3
    ensures ParseUdp(text, b) == NamedVerdict(text, b, b[1])
  {
    var n: nat := b[1];
    if |b| >= n + 4 {
      assert b[1..][1..n + 1] == b[2..n + 2];
      assert b[1..][n + 1..] == b[n + 2..];
      AtLength(b, n + 3, Named(text, b[2..n + 2], Word(b, n + 2)));
    }
  }

  lemma AtLength(b: seq<Byte>, size: nat, address: Sock5Address)
    requires |b| >= size + 1
    ensures ParseUdpBody(address, b[1..][size..])
         == Verdict(b, size + 1, match address case Socket(a) => Some(a) case _ => None)
  {
    var c := b[1..][size..];
    assert c == b[size + 1..];
    if |c| >= 4 {
      assert c[4..] == b[size + 5..];
      assert c[2..4] == [b[size + 3], b[size + 4]];
    }
  }
}
