// The UDP frames of src/proto.rs as a wire format.
module FrameStreams {
  import opened Common
  import opened Proto
  import opened Frames
  import opened WireStreams

  // `UdpAssociate::parse`
  function UdpParser(text: TextIp): Parser {
    b => ParseUdp(text, b)
  }

  lemma UdpParserIncremental(text: TextIp)
    ensures Incremental(UdpParser(text))
  {
    var parse := UdpParser(text);
    forall b, more {:trigger parse(b + more)} | parse(b).Packet?
      ensures parse(b + more) == Packet(parse(b).address, parse(b).length, parse(b).payload + more)
    {
      PacketExtends(text, b, more);
    }
  }

  predicate Sendable(d: Datagram) {
    |d.payload| <= MAX_PACKET_SIZE && Canonical(d.address) == d.address
  }

  // What `UdpAssociate::generate` and the payload behind it put on the wire.
  function Encode(d: Datagram): seq<Byte> {
    if |d.payload| <= MAX_PACKET_SIZE then EncodeUdpHeader(d.address, |d.payload|) + d.payload else []
  }

  // n bytes of an IPv6 frame stop inside its address where the parser no longer waits.
  predicate CutAddress(d: Datagram, n: int) {
    d.address.V6? && 11 <= n <= 18
  }

  function UdpWire(text: TextIp): Wire {
    Wire(UdpParser(text), Encode, Sendable, CutAddress)
  }

  // A proper prefix of a frame is waited for, except when cut in an IPv6 address.
  lemma FramePrefix(text: TextIp, d: Datagram, b: seq<Byte>)
    requires Sendable(d) && b <= Encode(d) && |b| < |Encode(d)|
    ensures ParseUdp(text, b) == if CutAddress(d, |b|) then InvalidProtocol else Continued
  {
    var e := EncodeAddress(d.address);
    var whole := Encode(d);
    if |b| >= 11 {
      assert b[0] == whole[0] == e[0];
      if |b| >= |e| {
        assert whole == e + (PutU16(|d.payload|) + CRLF + d.payload);
        assert b[..|e|] == e by { assert b[..|e|] == whole[..|e|]; }
        assert b[1..] == e[1..] + b[|e|..];
        AddressRoundTrip(text, d.address, b[|e|..]);
        var c := b[1..][|e| - 1..];
        assert c == b[|e|..];
        var w := PutU16(|d.payload|) + CRLF + d.payload;
        assert c == w[..|c|] by { assert w == whole[|e|..]; }
        if |c| >= 4 {
          assert c[..2] == PutU16(|d.payload|);
          ToPut(|d.payload|, c[2..]);
          assert c == PutU16(|d.payload|) + c[2..];
        }
      }
    }
  }

  lemma UdpWireSound(text: TextIp)
    ensures Sound(UdpWire(text))
  {
    var w := UdpWire(text);
    UdpParserIncremental(text);
    forall b, d {:trigger PartOf(w, b, d)} | PartOf(w, b, d)
      ensures w.parse(b) == if w.cut(d, |b|) then InvalidProtocol else Continued
    {
      FramePrefix(text, d, b);
    }
    forall b, d, c {:trigger StartsWith(w, b, d, c)} | StartsWith(w, b, d, c)
      ensures w.parse(b).Packet? && Front(w.parse(b)) == d && After(w.parse(b)) == c
    {
      UdpRoundTrip(text, d.address, d.payload, c);
      assert (d.payload + c)[..|d.payload|] == d.payload;
      assert (d.payload + c)[|d.payload|..] == c;
    }
  }

  // IPv4 frames are never cut badly.
  lemma {:induction false} NoBadCutInIpv4(text: TextIp, ds: seq<Datagram>, n: int)
    requires forall i :: 0 <= i < |ds| ==> ds[i].address.V4?
    ensures !BadCut(UdpWire(text), ds, n)
    decreases |ds|
  {
    if ds != [] { NoBadCutInIpv4(text, ds[1..], n - |Encode(ds[0])|); }
  }

  // Any prefix of a stream of IPv4 frames, in any chunks: the carry-over decoder never
  // fails, has put out the complete frames and holds the incomplete one.
  lemma Ipv4Stream(text: TextIp, ds: seq<Datagram>, chunks: seq<seq<Byte>>)
    requires AllSendable(UdpWire(text), ds) && Concat(chunks) <= EncodeAll(UdpWire(text), ds)
    requires forall i :: 0 <= i < |ds| ==> ds[i].address.V4?
    ensures var d := DecodeChunks(UdpParser(text), chunks); var n := Complete(UdpWire(text), ds, |Concat(chunks)|);
      d.ok && d.out == ds[..n] && Concat(chunks) == EncodeAll(UdpWire(text), ds[..n]) + d.rest
  {
    UdpWireSound(text);
    Ipv4NoBadCut(text, ds, chunks);
    ChunkedStream(UdpWire(text), ds, chunks);
  }

  lemma {:induction false} Ipv4NoBadCut(text: TextIp, ds: seq<Datagram>, chunks: seq<seq<Byte>>)
    requires forall i :: 0 <= i < |ds| ==> ds[i].address.V4?
    ensures NoBadCut(UdpWire(text), ds, chunks)
    decreases |chunks|
  {
    if chunks != [] {
      Ipv4NoBadCut(text, ds, chunks[..|chunks| - 1]);
      NoBadCutInIpv4(text, ds, |Concat(chunks)|);
    }
  }
}
