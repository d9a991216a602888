// The abstract decoder of a stream of UDP frames, which the three incremental
// decoders of the program are proved against.  It is stated for any parser whose
// verdict on a complete frame does not depend on what follows the frame.
module Frames {
  import opened Common
  import opened Proto

  datatype Datagram = Datagram(address: SocketAddr, payload: seq<Byte>)

  type Parser = seq<Byte> -> UdpResult

  ghost predicate Shrinking(parse: Parser) {
    forall b :: parse(b).Packet? ==> parse(b).length <= |parse(b).payload| < |b|
  }

  ghost predicate Incremental(parse: Parser) {
    && parse([]).Continued?
    && Shrinking(parse)
    && forall b, more {:trigger parse(b + more)} :: parse(b).Packet? ==>
         parse(b + more) == Packet(parse(b).address, parse(b).length, parse(b).payload + more)
  }

  // The first datagram of the buffer, and the bytes behind it.
  function Front(p: UdpResult): Datagram
    requires p.Packet? && p.length <= |p.payload|
  {
    Datagram(p.address, p.payload[..p.length])
  }

  function After(p: UdpResult): seq<Byte>
    requires p.Packet? && p.length <= |p.payload|
  {
    p.payload[p.length..]
  }

  // b is the frames `out`, one after the other, and then rest.
  ghost predicate DecodesTo(parse: Parser, b: seq<Byte>, out: seq<Datagram>, rest: seq<Byte>)
    requires Shrinking(parse)
    decreases |out|
  {
    if out == [] then b == rest
    else
      var p := parse(b);
      && p.Packet?
      && out[0] == Front(p)
      && DecodesTo(parse, After(p), out[1..], rest)
  }

  datatype Decoding = Decoding(out: seq<Datagram>, rest: seq<Byte>, ok: bool)

  // The whole stream at once: the datagrams, the bytes left, and false if those
  // are not the start of a frame.
  function Decode(parse: Parser, b: seq<Byte>): Decoding
    requires Shrinking(parse)
    decreases |b|
  {
    match parse(b)
    case Continued => Decoding([], b, true)
    case InvalidProtocol => Decoding([], b, false)
    case Packet(_, _, _) =>
      var p := parse(b);
      var d := Decode(parse, After(p));
      Decoding([Front(p)] + d.out, d.rest, d.ok)
  }

  lemma {:induction false} DecodeSound(parse: Parser, b: seq<Byte>)
    requires Shrinking(parse)
    ensures var d := Decode(parse, b); DecodesTo(parse, b, d.out, d.rest) && !parse(d.rest).Packet?
    decreases |b|
  {
    var p := parse(b);
    if p.Packet? {
      DecodeSound(parse, After(p));
      assert Decode(parse, b).out[1..] == Decode(parse, After(p)).out;
    }
  }

  lemma DecodeFront(parse: Parser, b: seq<Byte>, d: Decoding)
    requires Shrinking(parse) && parse(b).Packet? && d == Decode(parse, After(parse(b)))
    ensures Decode(parse, b) == Decoding([Front(parse(b))] + d.out, d.rest, d.ok)
  {}

  // Decoding a stream is decoding any leading frames and then what follows them.
  lemma {:induction false} DecodeThrough(parse: Parser, b: seq<Byte>, out: seq<Datagram>, rest: seq<Byte>)
    requires Shrinking(parse)
    requires DecodesTo(parse, b, out, rest)
    ensures var d := Decode(parse, rest); Decode(parse, b) == Decoding(out + d.out, d.rest, d.ok)
    decreases |out|
  {
    var d := Decode(parse, rest);
    if out == [] { assert [] + d.out == d.out; }
    else {
      var next := After(parse(b));
      DecodeThrough(parse, next, out[1..], rest);
      DecodeFront(parse, b, Decode(parse, next));
      FirstAndRest(out, d.out);
    }
  }

  lemma FirstAndRest(s: seq<Datagram>, t: seq<Datagram>)
    requires s != []
    ensures [s[0]] + (s[1..] + t) == s + t
  {}

  lemma FrontExtends(parse: Parser, b: seq<Byte>, more: seq<Byte>)
    requires Incremental(parse) && parse(b).Packet?
    ensures parse(b + more).Packet? && Front(parse(b + more)) == Front(parse(b))
    ensures After(parse(b + more)) == After(parse(b)) + more
  {
    var p := parse(b);
    assert (p.payload + more)[p.length..] == After(p) + more;
    assert (p.payload + more)[..p.length] == p.payload[..p.length];
  }

  // Bytes that arrive later only extend what is left over.
  lemma {:induction false} DecodesToExtends(parse: Parser, b: seq<Byte>, out: seq<Datagram>,
                                            rest: seq<Byte>, more: seq<Byte>)
    requires Incremental(parse)
    requires DecodesTo(parse, b, out, rest)
    ensures DecodesTo(parse, b + more, out, rest + more)
    decreases |out|
  {
    if out != [] {
      var p := parse(b);
      FrontExtends(parse, b, more);
      DecodesToExtends(parse, After(p), out[1..], rest, more);
    }
  }

  // One more frame taken from the front of what is left over.
  lemma {:induction false} DecodesToNext(parse: Parser, b: seq<Byte>, out: seq<Datagram>, rest: seq<Byte>)
    requires Shrinking(parse)
    requires DecodesTo(parse, b, out, rest) && parse(rest).Packet?
    ensures var p := parse(rest);
      DecodesTo(parse, b, out + [Front(p)], After(p))
    decreases |out|
  {
    var next := parse(rest);
    var more := out + [Front(next)];
    if out != [] {
      var p := parse(b);
      DecodesToNext(parse, After(p), out[1..], rest);
      assert more[1..] == out[1..] + [Front(next)];
    }
  }

  // ---- a stream cut into chunks

  // The carry-over decoder as a fold: `rest` is carried in front of each chunk.
  ghost function DecodeChunks(parse: Parser, chunks: seq<seq<Byte>>): Decoding
    requires Shrinking(parse)
  {
    if chunks == [] then Decoding([], [], true) else
    var before := DecodeChunks(parse, chunks[..|chunks| - 1]);
    if !before.ok then before else
    var d := Decode(parse, before.rest + chunks[|chunks| - 1]);
    Decoding(before.out + d.out, d.rest, d.ok)
  }

  lemma DecodeOneMore(parse: Parser, chunks: seq<seq<Byte>>, last: seq<Byte>)
    requires Shrinking(parse) && DecodeChunks(parse, chunks).ok
    ensures var before := DecodeChunks(parse, chunks); var d := Decode(parse, before.rest + last);
      DecodeChunks(parse, chunks + [last]) == Decoding(before.out + d.out, d.rest, d.ok)
  {
    assert (chunks + [last])[..|chunks|] == chunks;
  }

  function Concat(chunks: seq<seq<Byte>>): seq<Byte> {
    if chunks == [] then [] else Concat(chunks[..|chunks| - 1]) + chunks[|chunks| - 1]
  }

  // One chunk more is decoded as if the stream had come in one piece.
  lemma {:induction false} NextChunk(parse: Parser, init: seq<seq<Byte>>, last: seq<Byte>)
    requires Incremental(parse) && DecodeChunks(parse, init).ok
    ensures var before := DecodeChunks(parse, init); var d := Decode(parse, before.rest + last);
      Decode(parse, Concat(init) + last) == Decoding(before.out + d.out, d.rest, d.ok)
    decreases |init|, 1
  {
    ChunkingInvariance(parse, init);
    var before := Decode(parse, Concat(init));
    DecodeSound(parse, Concat(init));
    DecodesToExtends(parse, Concat(init), before.out, before.rest, last);
    DecodeThrough(parse, Concat(init) + last, before.out, before.rest + last);
  }

  // However a stream is cut, the chunks decode to what the whole stream decodes to,
  // as long as no chunk leaves the decoder at bytes that are no start of a frame.
  lemma {:induction false} ChunkingInvariance(parse: Parser, chunks: seq<seq<Byte>>)
    requires Incremental(parse)
    requires DecodeChunks(parse, chunks).ok
    ensures DecodeChunks(parse, chunks) == Decode(parse, Concat(chunks))
    decreases |chunks|, 0
  {
    if chunks != [] {
      NextChunk(parse, chunks[..|chunks| - 1], chunks[|chunks| - 1]);
    }
  }
}
