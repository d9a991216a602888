// `Connection::{try_send_client, do_send_client}` of src/proxy/udp_server.rs: the
// incremental decoder that carries incomplete frames over to the next read.
module ProxyUdp {
  import opened Common
  import opened Buffers
  import opened Proto
  import opened Frames
  import opened WireStreams
  import opened FrameStreams

  class Connection {
    const parse: Parser
    var sendBuffer: BytesMut
    var serverShutdown: bool
    // arguments of `do_send_udp`, in order, and the reads so far
    ghost var handed: seq<Datagram>
    ghost var chunks: seq<seq<Byte>>

    ghost predicate Valid()
      reads this, sendBuffer
    {
      && Incremental(parse)
      && (serverShutdown <==> !DecodeChunks(parse, chunks).ok)
      && handed == DecodeChunks(parse, chunks).out
      && (!serverShutdown ==> sendBuffer.data == DecodeChunks(parse, chunks).rest)
    }

    constructor (text: TextIp)
      ensures Valid() && fresh(sendBuffer) && parse == UdpParser(text)
      ensures chunks == [] && handed == [] && !serverShutdown
    {
      UdpParserIncremental(text);
      parse := UdpParser(text);
      sendBuffer := new BytesMut();
      handed, chunks, serverShutdown := [], [], false;
    }

    // While no frame is malformed, everything put out and carried over is what the
    // concatenation of all reads decodes to, however it was cut.
    method TrySendClient(buffer: seq<Byte>)
      requires Valid() && !serverShutdown
      modifies this, sendBuffer
      ensures Valid() && sendBuffer == old(sendBuffer)
      ensures chunks == old(chunks) + [buffer]
      ensures old(handed) <= handed
      ensures !serverShutdown ==> Decode(parse, Concat(chunks)) == Decoding(handed, sendBuffer.data, true)
    {
      DecodeOneMore(parse, chunks, buffer);
      var data := buffer;
      if sendBuffer.data != [] {
        sendBuffer.Extend(buffer);
        data := sendBuffer.Split();
      }
      assert data == DecodeChunks(parse, chunks).rest + buffer;
      DoSendClient(data);
      chunks := chunks + [buffer];
      if !serverShutdown { ChunkingInvariance(parse, chunks); }
    }

    method DoSendClient(buffer: seq<Byte>)
      requires Incremental(parse) && sendBuffer.data == []
      modifies this`handed, this`serverShutdown, sendBuffer
      ensures var d := Decode(parse, buffer);
        && handed == old(handed) + d.out
        && (d.ok ==> sendBuffer.data == d.rest && serverShutdown == old(serverShutdown))
        && (!d.ok ==> sendBuffer.data == [] && serverShutdown)
    {
      var rest := buffer;
      ghost var out: seq<Datagram> := [];
      while true
        invariant DecodesTo(parse, buffer, out, rest) && handed == old(handed) + out
        invariant sendBuffer.data == [] && serverShutdown == old(serverShutdown)
        decreases |rest|
      {
        DecodeThrough(parse, buffer, out, rest);
        var p := parse(rest);
        match p {
          case Continued =>
            sendBuffer.Extend(rest);
            break;
          case Packet(address, length, payload) =>
            DecodesToNext(parse, buffer, out, rest);
            DoSendUdp(address, payload[..length]);
            out := out + [Front(p)];
            rest := payload[length..];
          case InvalidProtocol =>
            serverShutdown := true;
            break;
        }
      }
    }

    // The datagram goes to the client, from a socket bound to `address`.
    method DoSendUdp(address: SocketAddr, data: seq<Byte>)
      modifies this`handed
      ensures handed == old(handed) + [Datagram(address, data)]
    {
      handed := handed + [Datagram(address, data)];
    }

    // Reading any prefix of a generated stream in any cuts shuts the connection down
    // exactly if a read ends in a bad cut.  Either way exactly the frames complete by
    // then have been handed on; otherwise the incomplete one is carried over.
    method TrySendClients(ghost w: Wire, arrivals: seq<seq<Byte>>, ghost ds: seq<Datagram>)
      requires Valid() && chunks == [] && !serverShutdown && parse == w.parse && Sound(w)
      requires AllSendable(w, ds) && Concat(arrivals) <= EncodeAll(w, ds)
      modifies this, sendBuffer
      ensures serverShutdown <==> !NoBadCut(w, ds, arrivals)
      ensures chunks <= arrivals && handed == ds[..Complete(w, ds, |Concat(chunks)|)]
      ensures if serverShutdown then BadCut(w, ds, |Concat(chunks)|)
              else chunks == arrivals && Concat(arrivals) == EncodeAll(w, handed) + sendBuffer.data
    {
      ghost var none: seq<seq<Byte>> := [];
      ChunkedStream(w, ds, none);
      for i := 0 to |arrivals|
        invariant Valid() && chunks == arrivals[..i] && !serverShutdown && sendBuffer == old(sendBuffer)
        invariant Arrived(w, ds, chunks, handed, sendBuffer.data, true)
      {
        TrySendNext(w, arrivals, ds, i);
        if serverShutdown { return; }
      }
      assert arrivals[..|arrivals|] == arrivals;
    }

    method TrySendNext(ghost w: Wire, arrivals: seq<seq<Byte>>, ghost ds: seq<Datagram>, i: nat)
      requires Valid() && !serverShutdown && parse == w.parse && Sound(w)
      requires AllSendable(w, ds) && Concat(arrivals) <= EncodeAll(w, ds)
      requires i < |arrivals| && chunks == arrivals[..i]
      modifies this, sendBuffer
      ensures Valid() && sendBuffer == old(sendBuffer) && chunks == arrivals[..i + 1]
      ensures Arrived(w, ds, chunks, handed, sendBuffer.data, !serverShutdown)
      ensures NoBadCut(w, ds, arrivals) ==> !serverShutdown
    {
      TrySendClient(arrivals[i]);
      assert chunks == arrivals[..i + 1];
      NextArrival(w, ds, arrivals, i);
    }
  }
}
