// Streams that a peer generates frame by frame, for any wire format: what a prefix of
// such a stream decodes to, at once or cut into chunks.
module WireStreams {
  import opened Common
  import opened Proto
  import opened Frames

  // A parser, the generator it inverts, the datagrams it accepts, and the lengths at
  // which it gives up on an incomplete frame instead of waiting for more.
  datatype Wire = Wire(parse: Parser, encode: Datagram -> seq<Byte>, sendable: Datagram -> bool,
                       cut: (Datagram, int) -> bool)

  predicate AllSendable(w: Wire, ds: seq<Datagram>) {
    forall i :: 0 <= i < |ds| ==> w.sendable(ds[i])
  }

  function EncodeAll(w: Wire, ds: seq<Datagram>): seq<Byte> {
    if ds == [] then [] else w.encode(ds[0]) + EncodeAll(w, ds[1..])
  }

  // The first n bytes of the stream stop inside a frame at such a length.
  predicate BadCut(w: Wire, ds: seq<Datagram>, n: int) {
    ds != [] &&
    if n >= |w.encode(ds[0])| then BadCut(w, ds[1..], n - |w.encode(ds[0])|) else w.cut(ds[0], n)
  }

  // Frames complete within the first n bytes.
  function Complete(w: Wire, ds: seq<Datagram>, n: int): (k: nat)
    ensures k <= |ds|
  {
    if ds == [] || n < |w.encode(ds[0])| then 0 else 1 + Complete(w, ds[1..], n - |w.encode(ds[0])|)
  }

  // b is a proper prefix of the frame of d; b is that frame and then c.
  predicate PartOf(w: Wire, b: seq<Byte>, d: Datagram) {
    w.sendable(d) && b <= w.encode(d) && |b| < |w.encode(d)|
  }

  predicate StartsWith(w: Wire, b: seq<Byte>, d: Datagram, c: seq<Byte>) {
    w.sendable(d) && b == w.encode(d) + c
  }

  // The parser waits for every incomplete frame not cut badly, and takes every
  // complete one.
  ghost predicate Sound(w: Wire) {
    && Incremental(w.parse)
    && (forall b, d {:trigger PartOf(w, b, d)} :: PartOf(w, b, d) ==>
         w.parse(b) == if w.cut(d, |b|) then UdpResult.InvalidProtocol else UdpResult.Continued)
    && (forall b, d, c {:trigger StartsWith(w, b, d, c)} :: StartsWith(w, b, d, c) ==>
         w.parse(b).Packet? && Front(w.parse(b)) == d && After(w.parse(b)) == c)
  }

  // Whatever prefix of a generated stream has arrived, it decodes to the complete
  // frames and leaves the incomplete one, unless cut badly.
  lemma {:induction false} DecodePrefix(w: Wire, ds: seq<Datagram>, b: seq<Byte>)
    requires Sound(w) && AllSendable(w, ds) && b <= EncodeAll(w, ds)
    ensures var k := Complete(w, ds, |b|); var d := Decode(w.parse, b);
      && d.out == ds[..k]
      && b == EncodeAll(w, ds[..k]) + d.rest
      && (d.ok <==> !BadCut(w, ds, |b|))
    decreases |ds|
  {
    if ds == [] {
      assert b == [];
    } else if |b| < |w.encode(ds[0])| {
      PartialFrame(w, ds, b);
      assert ds[..0] == [];
    } else {
      var c := FirstFrame(w, ds, b);
      DecodePrefix(w, ds[1..], c);
      EncodeAllStep(w, ds, Complete(w, ds[1..], |c|), Decode(w.parse, c).rest);
    }
  }

  lemma PartialFrame(w: Wire, ds: seq<Datagram>, b: seq<Byte>)
    requires Sound(w) && ds != [] && AllSendable(w, ds) && b <= EncodeAll(w, ds) && |b| < |w.encode(ds[0])|
    ensures w.parse(b) == if w.cut(ds[0], |b|) then UdpResult.InvalidProtocol else UdpResult.Continued
  {
    assert b == EncodeAll(w, ds)[..|b|] == w.encode(ds[0])[..|b|];
    assert PartOf(w, b, ds[0]);
  }

  lemma FirstFrame(w: Wire, ds: seq<Datagram>, b: seq<Byte>) returns (c: seq<Byte>)
    requires Sound(w) && ds != [] && AllSendable(w, ds) && b <= EncodeAll(w, ds) && |b| >= |w.encode(ds[0])|
    ensures b == w.encode(ds[0]) + c && c <= EncodeAll(w, ds[1..])
    ensures w.parse(b).Packet? && Front(w.parse(b)) == ds[0] && After(w.parse(b)) == c
  {
    var e := w.encode(ds[0]);
    c := b[|e|..];
    assert b == e + c by { assert b[..|e|] == EncodeAll(w, ds)[..|e|]; }
    assert c <= EncodeAll(w, ds[1..]) by { assert c == EncodeAll(w, ds)[|e|..][..|c|]; }
    assert StartsWith(w, b, ds[0], c);
  }

  lemma EncodeAllStep(w: Wire, ds: seq<Datagram>, k: nat, rest: seq<Byte>)
    requires k < |ds|
    ensures ds[..k + 1] == [ds[0]] + ds[1..][..k]
    ensures EncodeAll(w, ds[..k + 1]) + rest == w.encode(ds[0]) + (EncodeAll(w, ds[1..][..k]) + rest)
  {
    assert ds[..k + 1][1..] == ds[1..][..k];
  }

  // Frames taken from the front of a generated stream are its first datagrams.
  lemma {:induction false} SentPrefix(w: Wire, ds: seq<Datagram>, b: seq<Byte>, out: seq<Datagram>, rest: seq<Byte>)
    requires Sound(w) && AllSendable(w, ds) && b <= EncodeAll(w, ds) && DecodesTo(w.parse, b, out, rest)
    ensures out <= ds && b == EncodeAll(w, out) + rest
    decreases |ds|
  {
    if out != [] {
      assert ds != [];
      if |b| < |w.encode(ds[0])| { PartialFrame(w, ds, b); assert false; }
      var c := FirstFrame(w, ds, b);
      SentPrefix(w, ds[1..], c, out[1..], rest);
      EncodeAllStep(w, out, |out| - 1, rest);
      assert out[..|out|] == out && out[1..][..|out| - 1] == out[1..];
    }
  }

  // A decoder that stopped anywhere between frames of a generated stream is looking at
  // a malformed frame exactly if it has taken all complete frames and the bytes arrived
  // so far end in a bad cut; at a complete one exactly if it has not taken them all.
  lemma StoppedAt(w: Wire, ds: seq<Datagram>, b: seq<Byte>, out: seq<Datagram>, rest: seq<Byte>)
    requires Sound(w) && AllSendable(w, ds) && b <= EncodeAll(w, ds) && DecodesTo(w.parse, b, out, rest)
    ensures w.parse(rest).InvalidProtocol? <==> BadCut(w, ds, |b|) && out == ds[..Complete(w, ds, |b|)]
    ensures w.parse(rest).Packet? <==> out != ds[..Complete(w, ds, |b|)]
  {
    DecodePrefix(w, ds, b);
    DecodeThrough(w.parse, b, out, rest);
    if w.parse(rest).Packet? { assert |Decode(w.parse, rest).out| > 0; }
  }

  // No chunk ends in a bad cut.
  predicate NoBadCut(w: Wire, ds: seq<Datagram>, chunks: seq<seq<Byte>>) {
    chunks == [] || (NoBadCut(w, ds, chunks[..|chunks| - 1]) && !BadCut(w, ds, |Concat(chunks)|))
  }

  // For a generated stream the carry-over decoder succeeds exactly when no chunk ends
  // in a bad cut, and it then has put out the complete frames and holds the rest.
  lemma {:induction false} ChunkedStream(w: Wire, ds: seq<Datagram>, chunks: seq<seq<Byte>>)
    requires Sound(w) && AllSendable(w, ds) && Concat(chunks) <= EncodeAll(w, ds)
    ensures var d := DecodeChunks(w.parse, chunks);
      && (d.ok <==> NoBadCut(w, ds, chunks))
      && (d.ok ==> var n := Complete(w, ds, |Concat(chunks)|);
            d.out == ds[..n] && Concat(chunks) == EncodeAll(w, ds[..n]) + d.rest)
    decreases |chunks|
  {
    DecodePrefix(w, ds, Concat(chunks));
    if chunks != [] {
      var init := chunks[..|chunks| - 1];
      assert Concat(init) <= EncodeAll(w, ds) by { assert Concat(init) == Concat(chunks)[..|Concat(init)|]; }
      ChunkedStream(w, ds, init);
      if DecodeChunks(w.parse, init).ok { NextChunk(w.parse, init, chunks[|chunks| - 1]); }
    }
  }

  // Where the carry-over decoder is after some chunks of a generated stream.
  predicate Arrived(w: Wire, ds: seq<Datagram>, chunks: seq<seq<Byte>>, out: seq<Datagram>, rest: seq<Byte>, ok: bool) {
    && out == ds[..Complete(w, ds, |Concat(chunks)|)]
    && (ok <==> NoBadCut(w, ds, chunks))
    && if ok then Concat(chunks) == EncodeAll(w, out) + rest else BadCut(w, ds, |Concat(chunks)|)
  }

  // One more chunk of a stream cut into chunks, none of which failed before.
  lemma NextArrival(w: Wire, ds: seq<Datagram>, chunks: seq<seq<Byte>>, i: nat)
    requires Sound(w) && AllSendable(w, ds) && Concat(chunks) <= EncodeAll(w, ds) && i < |chunks|
    requires DecodeChunks(w.parse, chunks[..i]).ok
    ensures var d := DecodeChunks(w.parse, chunks[..i + 1]); Arrived(w, ds, chunks[..i + 1], d.out, d.rest, d.ok)
    ensures NoBadCut(w, ds, chunks) ==> NoBadCut(w, ds, chunks[..i + 1])
  {
    var got := chunks[..i + 1];
    assert got[..i] == chunks[..i];
    NoBadCutPrefix(w, ds, chunks, i + 1);
    ChunkedStream(w, ds, got);
    NextChunk(w.parse, got[..i], got[i]);
    DecodePrefix(w, ds, Concat(got));
  }

  lemma {:induction false} ConcatPrefix(chunks: seq<seq<Byte>>, i: nat)
    requires i <= |chunks|
    ensures Concat(chunks[..i]) <= Concat(chunks)
    decreases |chunks|
  {
    if i < |chunks| {
      var init := chunks[..|chunks| - 1];
      ConcatPrefix(init, i);
      assert init[..i] == chunks[..i];
    } else { assert chunks[..i] == chunks; }
  }

  lemma {:induction false} NoBadCutPrefix(w: Wire, ds: seq<Datagram>, chunks: seq<seq<Byte>>, i: nat)
    requires Concat(chunks) <= EncodeAll(w, ds) && i <= |chunks|
    ensures Concat(chunks[..i]) <= EncodeAll(w, ds)
    ensures NoBadCut(w, ds, chunks) ==> NoBadCut(w, ds, chunks[..i])
    decreases |chunks|
  {
    if i < |chunks| {
      var init := chunks[..|chunks| - 1];
      assert Concat(init) == Concat(chunks)[..|Concat(init)|];
      NoBadCutPrefix(w, ds, init, i);
      assert init[..i] == chunks[..i];
    } else { assert chunks[..i] == chunks; }
  }
}
