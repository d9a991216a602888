// The trait `Backend` of src/server, as the two backends that implement it.
module Backends {
  import opened Common
  import opened Proto
  import opened Streams
  import opened Status
  import opened Frames
  import opened FrameStreams
  import opened TcpSend
  import opened UdpBackends

  // One of the two: a TCP connection to the target, or a UDP socket.
  class Backend {
    const target: Option<SocketAddr>
    const text: TextIp
    const tcp: TcpBackend?
    const udp: UdpBackend?

    ghost function Footprint(): set<object> {
      (if tcp == null then {} else {tcp, tcp.conn, tcp.sendBuffer})
      + (if udp == null then {} else {udp, udp.sendBuffer})
    }

    ghost predicate Valid()
      reads Footprint()
    {
      && (tcp != null <==> target.Some?) && (udp != null <==> target.None?)
      && (forall b: TcpBackend {:trigger b.Valid()} | b == tcp :: b.Valid())
      && (forall b: UdpBackend {:trigger b.Valid()} | b == udp :: b.Valid() && b.parse == UdpParser(text))
    }

    // Every byte dispatched so far.
    ghost function Handed(): seq<Byte>
      reads Footprint()
    {
      if tcp != null then tcp.dispatched else if udp != null then udp.input else []
    }

    // No send has failed.
    ghost predicate Working()
      reads Footprint()
    {
      (tcp != null ==> !tcp.broken) && (udp != null ==> udp.cause.Running?)
    }

    // The outcomes of the sends so far.
    ghost function Tries(): (t: (seq<WriteStep>, seq<Attempt>))
      reads Footprint()
    {
      (if tcp == null then [] else tcp.conn.answers, if udp == null then [] else udp.attempts)
    }

    // Since then everything that can be sent was sent, or a send blocked.
    ghost predicate Flushed(before: (seq<WriteStep>, seq<Attempt>))
      reads Footprint()
    {
      && (tcp != null ==> tcp.sendBuffer.data == [] || WriteBlocked(before.0, tcp.conn.answers))
      && (udp != null && udp.cause.Running? && udp.parse(udp.pending).Packet? ==>
           LastSince(before.1, udp.attempts).Some? && LastSince(before.1, udp.attempts).value.outcome.SendBlock?)
    }

    // What has become of the bytes handed over: the TCP socket took them in order, all
    // but those buffered, or up to a failure; the datagrams sent by UDP are the first
    // ones they decode to, and the buffer is where the decoding stands.
    ghost predicate Delivered(bytes: seq<Byte>)
      reads Footprint()
    {
      && (tcp != null ==> InOrder(tcp.conn.written, tcp.sendBuffer.data, bytes, tcp.broken))
      && (udp != null ==>
           && Shrinking(udp.parse) && DecodesTo(udp.parse, bytes, udp.sent, udp.pending)
           && (udp.cause.Running? ==> udp.pending == udp.sendBuffer.data))
    }

    constructor Tcp(target: SocketAddr, text: TextIp, script: seq<WriteStep>)
      ensures Valid() && Handed() == [] && Working() && fresh(Footprint())
      ensures this.target == Some(target) && this.text == text
    {
      var conn := new Writer(script);
      this.target, this.text, udp := Some(target), text, null;
      tcp := new TcpBackend(conn);
    }

    constructor Udp(text: TextIp, script: seq<SendStep>)
      ensures Valid() && Handed() == [] && Working() && fresh(Footprint())
      ensures this.target == None && this.text == text
    {
      this.target, this.text, tcp := None, text, null;
      udp := new UdpBackend(text, script);
    }

    // After a failed send no more bytes are dispatched.
    method Dispatch(buffer: seq<Byte>)
      requires Valid() && (Working() || buffer == [])
      modifies Footprint()
      ensures Valid() && Handed() == old(Handed()) + buffer && Flushed(old(Tries()))
    {
      if tcp != null { tcp.Dispatch(buffer); }
      if udp != null { udp.Dispatch(buffer); }
    }

    // `writable`
    method Writable() returns (w: bool)
      requires Valid()
      ensures w == CanTake()
      ensures w ==> Working()
      ensures tcp != null ==> (w <==> tcp.sendBuffer.data == [] && tcp.status in {Established, PeerClosed})
      ensures udp != null ==> (w <==> udp.cause.Running?)
    {
      w := false;
      assert tcp != null ==> tcp.Valid();
      if tcp != null { w := tcp.Writable(); }
      if udp != null { w := udp.cause.Running?; }
    }

    ghost predicate CanTake()
      reads Footprint()
    {
      if tcp != null then tcp.sendBuffer.data == [] && Alive(tcp.status) else udp != null && udp.cause.Running?
    }

    lemma ValidDelivers()
      requires Valid()
      ensures Delivered(Handed())
    {
      assert tcp != null ==> tcp.Valid();
      assert udp != null ==> udp.Valid();
    }
  }
}
