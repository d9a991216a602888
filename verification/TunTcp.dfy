// `Connection` of src/wintun/tcp.rs: a local stream and a remote stream, relayed in
// both directions, and the closing of one side after the other.
module TunTcp {
  import opened Common
  import opened Buffers
  import opened Streams

  datatype Side = Local | Remote

  // Why a side is closed: its own stream failed, its flush failed, it never became
  // active, it closed before the request was sent, the request was refused, or the
  // other side is closed and nothing is left to send.
  datatype Reason = StreamFailed | FlushFailed | Inactive | Unused | Refused | Drained

  datatype Closing = Closing(side: Side, reason: Reason, unsent: seq<Byte>)

  // Each side has been closed as often as its flag says: once or not at all.
  predicate ClosedOnce(log: seq<Closing>, lclosed: bool, rclosed: bool) {
    && Count(log, Local) == (if lclosed then 1 else 0)
    && Count(log, Remote) == (if rclosed then 1 else 0)
  }

  function Count(log: seq<Closing>, side: Side): nat {
    if log == [] then 0 else
    Count(log[..|log| - 1], side) + if log[|log| - 1].side == side then 1 else 0
  }

  lemma CountAppend(log: seq<Closing>, entry: Closing, side: Side)
    ensures Count(log + [entry], side) == Count(log, side) + if entry.side == side then 1 else 0
  {
    assert (log + [entry])[..|log|] == log;
  }

  // A side closed because the other one is has sent everything.
  predicate NothingCut(log: seq<Closing>) {
    forall c :: c in log && c.reason.Drained? ==> c.unsent == []
  }

  // Closing a side that was open.
  lemma LogClosing(log: seq<Closing>, entry: Closing, lclosed: bool, rclosed: bool)
    requires ClosedOnce(log, lclosed, rclosed) && NothingCut(log)
    requires entry.reason.Drained? ==> entry.unsent == []
    ensures !lclosed && entry.side.Local? ==> ClosedOnce(log + [entry], true, rclosed)
    ensures !rclosed && entry.side.Remote? ==> ClosedOnce(log + [entry], lclosed, true)
    ensures NothingCut(log + [entry])
  {
    CountAppend(log, entry, Local);
    CountAppend(log, entry, Remote);
  }

  // One of the two streams of a side failed.
  ghost predicate Broke(r: seq<ReadStep>, r': seq<ReadStep>, w: seq<WriteStep>, w': seq<WriteStep>) {
    ReadFailed(r, r') || WriteFailed(w, w')
  }

  // Copying without loss keeps what was written and buffered equal to what was read.
  lemma Relayed(head: seq<Byte>, w: seq<Byte>, b: seq<Byte>, r: seq<Byte>, w': seq<Byte>, b': seq<Byte>, r': seq<Byte>)
    requires w + b == head + r && r <= r' && w' + b' + [] == w + b + r'[|r|..]
    ensures w' + b' == head + r'
  {
    assert r + r'[|r|..] == r';
    assert w + b + r'[|r|..] == head + (r + r'[|r|..]);
    assert w' + b' + [] == w' + b';
  }

  class Connection {
    const localIn: Reader
    const localOut: Writer
    const remoteIn: Reader
    const remoteOut: Writer
    const lbuffer: BytesMut
    const rbuffer: BytesMut
    const request: seq<Byte>
    var lclosed: bool
    var rclosed: bool
    var established: bool
    // what the remote took of the request; which direction lost bytes to a broken sink
    ghost var head: seq<Byte>
    ghost var lbroken: bool
    ghost var rbroken: bool
    ghost var log: seq<Closing>

    ghost predicate Separate()
    {
      lbuffer != rbuffer && localIn != remoteIn && localOut != remoteOut
    }

    // Nothing but the request, then every byte in order, towards the remote;
    ghost predicate Outward()
      reads this, localIn, remoteOut, rbuffer
    {
      && (!rbroken ==> remoteOut.written + rbuffer.data == head + localIn.read)
      && (rbroken ==> rclosed) && head <= request
      && (!established ==>
           head == [] && localIn.read == [] && remoteOut.written == [] && rbuffer.data == [] && !rbroken)
    }

    // every byte in order towards the local socket;
    ghost predicate Inward()
      reads this, localOut, remoteIn, lbuffer
    {
      (!lbroken ==> localOut.written + lbuffer.data == remoteIn.read) && (lbroken ==> lclosed)
    }

    // and each side closed at most once, without cutting what could still be sent.
    ghost predicate Closings()
      reads this
    {
      ClosedOnce(log, lclosed, rclosed) && NothingCut(log)
    }

    // Holds at every step of every handler.
    ghost predicate Inv()
      reads this, localIn, localOut, remoteIn, remoteOut, lbuffer, rbuffer
    {
      Separate() && Outward() && Inward() && Closings()
    }

    // Holds between events: a side closed alone still has bytes for the other.
    ghost predicate Valid()
      reads this, localIn, localOut, remoteIn, remoteOut, lbuffer, rbuffer
    {
      && Inv()
      && (lclosed && !rclosed ==> rbuffer.data != [])
      && (rclosed && !lclosed ==> lbuffer.data != [])
    }

    constructor (localIn: Reader, localOut: Writer, remoteIn: Reader, remoteOut: Writer, request: seq<Byte>)
      requires localIn != remoteIn && localOut != remoteOut
      requires localIn.read == [] && localOut.written == [] && remoteIn.read == [] && remoteOut.written == []
      ensures Valid() && fresh(lbuffer) && fresh(rbuffer)
      ensures this.localIn == localIn && this.localOut == localOut
      ensures this.remoteIn == remoteIn && this.remoteOut == remoteOut
      ensures this.request == request && !lclosed && !rclosed && !established && log == []
    {
      this.localIn, this.localOut, this.remoteIn, this.remoteOut := localIn, localOut, remoteIn, remoteOut;
      lbuffer := new BytesMut();
      rbuffer := new BytesMut();
      this.request := request;
      lclosed, rclosed, established := false, false, false;
      head, lbroken, rbroken, log := [], false, false, [];
    }

    ghost function Unsent(side: Side): seq<Byte>
      reads lbuffer, rbuffer
    {
      if side.Local? then lbuffer.data else rbuffer.data
    }

    // What has to be the case for a side to be closed for a reason.
    ghost predicate Justified(side: Side, reason: Reason)
      reads this, localIn, localOut, remoteIn, remoteOut, lbuffer, rbuffer
    {
      match reason
      case StreamFailed =>
        if side.Local? then ReadFailed([], localIn.answers) || WriteFailed([], localOut.answers)
        else ReadFailed([], remoteIn.answers) || WriteFailed([], remoteOut.answers)
      case FlushFailed => side.Remote? && established
      case Inactive => side.Local? && !established
      case Unused => side.Remote? && !established && lclosed
      case Refused => !established
      case Drained => (if side.Local? then rclosed else lclosed) && Unsent(side) == []
    }

    method CloseStream(side: Side, ghost reason: Reason)
      requires Closings() && Justified(side, reason)
      modifies this`lclosed, this`rclosed, this`log
      ensures Closings()
      ensures lclosed == (old(lclosed) || side.Local?) && rclosed == (old(rclosed) || side.Remote?)
      ensures log == old(log)
        + if if side.Local? then old(lclosed) else old(rclosed) then [] else [Closing(side, reason, Unsent(side))]
    {
      ghost var entry := Closing(side, reason, Unsent(side));
      LogClosing(log, entry, lclosed, rclosed);
      if side.Local? && !lclosed {
        lclosed := true;
        log := log + [entry];
      } else if side.Remote? && !rclosed {
        rclosed := true;
        log := log + [entry];
      }
    }

    // The two sides after an event in which each was closed for a reason of its own or
    // not (l, r): the other one follows exactly if nothing waits for it.
    ghost predicate HalfClosed(l: bool, r: bool)
      reads this, lbuffer, rbuffer
    {
      lclosed == (l || (r && lbuffer.data == [])) && rclosed == (r || (l && rbuffer.data == []))
    }

    // active: the local socket still is; flushFails: what `flush` of the remote says.
    method LocalToRemote(active: bool, flushFails: bool)
      requires Inv()
      modifies this`lclosed, this`rclosed, this`rbroken, this`log, localIn, remoteOut, rbuffer
      ensures Inv() && old(log) <= log
      ensures (old(lclosed) ==> lclosed) && (old(rclosed) ==> rclosed)
      ensures old(localIn.read) <= localIn.read && old(remoteOut.written) <= remoteOut.written
      ensures old(localIn.answers) <= localIn.answers && old(remoteOut.answers) <= remoteOut.answers
      // and why a side is closed
      ensures !established ==> lclosed == (old(lclosed) || !active) && rclosed == old(rclosed)
      ensures !established ==> unchanged(localIn, remoteOut, rbuffer)
      ensures established ==> Stopped(old(localIn.answers), localIn.answers, old(remoteOut.answers), remoteOut.answers)
      ensures established ==> lclosed == (old(lclosed) || ReadFailed(old(localIn.answers), localIn.answers))
      ensures established ==>
        rclosed == (old(rclosed) || flushFails || WriteFailed(old(remoteOut.answers), remoteOut.answers))
    {
      if established {
        CopyAndFlush(flushFails);
      } else if !active {
        CloseStream(Local, Inactive);
      }
    }

    method CopyAndFlush(flushFails: bool)
      requires Separate() && Outward() && Closings() && established
      modifies this`lclosed, this`rclosed, this`rbroken, this`log, localIn, remoteOut, rbuffer
      ensures Outward() && Closings() && old(log) <= log
      ensures old(localIn.read) <= localIn.read && old(remoteOut.written) <= remoteOut.written
      ensures old(localIn.answers) <= localIn.answers && old(remoteOut.answers) <= remoteOut.answers
      ensures Stopped(old(localIn.answers), localIn.answers, old(remoteOut.answers), remoteOut.answers)
      ensures lclosed == (old(lclosed) || ReadFailed(old(localIn.answers), localIn.answers))
      ensures rclosed == (old(rclosed) || flushFails || WriteFailed(old(remoteOut.answers), remoteOut.answers))
    {
      CopyToRemote();
      if !rclosed && flushFails { CloseStream(Remote, FlushFailed); }
    }

    method CopyToRemote()
      requires Separate() && Outward() && Closings() && established
      modifies this`lclosed, this`rclosed, this`rbroken, this`log, localIn, remoteOut, rbuffer
      ensures Outward() && Closings() && old(log) <= log
      ensures old(localIn.read) <= localIn.read && old(remoteOut.written) <= remoteOut.written
      ensures old(localIn.answers) <= localIn.answers && old(remoteOut.answers) <= remoteOut.answers
      ensures Stopped(old(localIn.answers), localIn.answers, old(remoteOut.answers), remoteOut.answers)
      ensures lclosed == (old(lclosed) || ReadFailed(old(localIn.answers), localIn.answers))
      ensures rclosed == (old(rclosed) || WriteFailed(old(remoteOut.answers), remoteOut.answers))
    {
      ghost var r0, w0, b0 := localIn.read, remoteOut.written, rbuffer.data;
      var ret, lost := CopyStream(localIn, remoteOut, rbuffer);
      if !rbroken && lost == [] { Relayed(head, w0, b0, r0, remoteOut.written, rbuffer.data, localIn.read); }
      match ret {
        case TxBlock | RxBlock =>
        case RxBreak => CloseStream(Local, StreamFailed);
        case TxBreak =>
          rbroken := true;
          CloseStream(Remote, StreamFailed);
      }
    }

    // sendQueue: bytes the local socket has accepted but not yet sent.
    method RemoteToLocal(sendQueue: nat)
      requires Inv()
      modifies this`lclosed, this`rclosed, this`lbroken, this`log, remoteIn, localOut, lbuffer
      ensures Inv() && old(log) <= log
      ensures (old(lclosed) ==> lclosed) && (old(rclosed) ==> rclosed)
      ensures old(remoteIn.read) <= remoteIn.read && old(localOut.written) <= localOut.written
      ensures old(remoteIn.answers) <= remoteIn.answers && old(localOut.answers) <= localOut.answers
      ensures Stopped(old(remoteIn.answers), remoteIn.answers, old(localOut.answers), localOut.answers)
      ensures rclosed == (old(rclosed) || ReadFailed(old(remoteIn.answers), remoteIn.answers))
      ensures lclosed == (old(lclosed) || WriteFailed(old(localOut.answers), localOut.answers)
                          || (rclosed && lbuffer.data == [] && sendQueue == 0))
    {
      CopyToLocal();
      if rclosed && !lclosed && lbuffer.data == [] && sendQueue == 0 { CloseStream(Local, Drained); }
    }

    method CopyToLocal()
      requires Separate() && Inward() && Closings()
      modifies this`lclosed, this`rclosed, this`lbroken, this`log, remoteIn, localOut, lbuffer
      ensures Inward() && Closings() && old(log) <= log
      ensures old(remoteIn.read) <= remoteIn.read && old(localOut.written) <= localOut.written
      ensures old(remoteIn.answers) <= remoteIn.answers && old(localOut.answers) <= localOut.answers
      ensures Stopped(old(remoteIn.answers), remoteIn.answers, old(localOut.answers), localOut.answers)
      ensures rclosed == (old(rclosed) || ReadFailed(old(remoteIn.answers), remoteIn.answers))
      ensures lclosed == (old(lclosed) || WriteFailed(old(localOut.answers), localOut.answers))
    {
      ghost var r0, w0, b0 := remoteIn.read, localOut.written, lbuffer.data;
      var ret, lost := CopyStream(remoteIn, localOut, lbuffer);
      if !lbroken && lost == [] { Relayed([], w0, b0, r0, localOut.written, lbuffer.data, remoteIn.read); }
      match ret {
        case TxBlock | RxBlock =>
        case RxBreak => CloseStream(Remote, StreamFailed);
        case TxBreak =>
          lbroken := true;
          CloseStream(Local, StreamFailed);
      }
    }

    // Closes a side exactly when the other is closed and nothing waits.
    method CheckHalfClose()
      requires Inv()
      modifies this`lclosed, this`rclosed, this`log
      ensures Valid() && old(log) <= log
      ensures lclosed == (old(lclosed) || (old(rclosed) && lbuffer.data == []))
      ensures rclosed == (old(rclosed) || (old(lclosed) && rbuffer.data == []))
    {
      if lclosed && !rclosed && rbuffer.data == [] { CloseStream(Remote, Drained); }
      if rclosed && !lclosed && lbuffer.data == [] { CloseStream(Local, Drained); }
    }

    method DoLocal(readable: bool, writable: bool, active: bool, flushFails: bool, sendQueue: nat)
      requires Valid()
      modifies this, localIn, localOut, remoteIn, remoteOut, lbuffer, rbuffer
      ensures Valid() && old(log) <= log && (old(lclosed) ==> lclosed) && (old(rclosed) ==> rclosed)
      ensures old(localOut.written) <= localOut.written && old(remoteOut.written) <= remoteOut.written
      ensures established == old(established) && head == old(head)
      ensures readable && established ==>
        Stopped(old(localIn.answers), localIn.answers, old(remoteOut.answers), remoteOut.answers)
      ensures writable ==> Stopped(old(remoteIn.answers), remoteIn.answers, old(localOut.answers), localOut.answers)
      ensures HalfClosed(
        old(lclosed) || (readable && !established && !active)
          || Broke(old(localIn.answers), localIn.answers, old(localOut.answers), localOut.answers),
        old(rclosed) || (readable && established && flushFails)
          || Broke(old(remoteIn.answers), remoteIn.answers, old(remoteOut.answers), remoteOut.answers))
    {
      if readable { LocalToRemote(active, flushFails); }
      if writable { RemoteToLocal(sendQueue); }
      CheckHalfClose();
    }

    method DoRemote(readable: bool, writable: bool, active: bool, flushFails: bool, sendQueue: nat)
      requires Valid()
      modifies this, localIn, localOut, remoteIn, remoteOut, lbuffer, rbuffer
      ensures Valid() && old(log) <= log && (old(lclosed) ==> lclosed) && (old(rclosed) ==> rclosed)
      ensures old(localOut.written) <= localOut.written && old(remoteOut.written) <= remoteOut.written
      // the first write is the request; without it nothing is relayed
      ensures !writable || old(established) ==> established == old(established) && head == old(head)
      ensures writable && !old(established) ==>
        if old(lclosed) then rclosed && lclosed && !established && unchanged(remoteOut)
        else |old(remoteOut.answers)| < |remoteOut.answers| && Shaken(remoteOut.answers[|old(remoteOut.answers)|])
      ensures writable && !established ==> unchanged(localIn, localOut, remoteIn, lbuffer, rbuffer)
      ensures writable && established ==>
        Stopped(old(localIn.answers), localIn.answers, old(remoteOut.answers), remoteOut.answers)
      ensures readable && (established || !writable) ==>
        Stopped(old(remoteIn.answers), remoteIn.answers, old(localOut.answers), localOut.answers)
      ensures established || !writable ==>
        var request := if writable && !old(established) then 1 else 0;
        && old(remoteOut.answers) <= remoteOut.answers && |old(remoteOut.answers)| + request <= |remoteOut.answers|
        && HalfClosed(
             old(lclosed) || Broke(old(localIn.answers), localIn.answers, old(localOut.answers), localOut.answers),
             old(rclosed) || (writable && flushFails)
               || Broke(old(remoteIn.answers), remoteIn.answers,
                        remoteOut.answers[..|old(remoteOut.answers)| + request], remoteOut.answers))
    {
      if writable && !established {
        if lclosed {
          CloseStream(Remote, Unused);
          return;
        }
        SendRequest();
        if !established { return; }
      }
      Relay(readable, writable, active, flushFails, sendQueue);
    }

    // The rest of `do_remote`, with the connection established if it relays to the remote.
    method Relay(readable: bool, writable: bool, active: bool, flushFails: bool, sendQueue: nat)
      requires Inv() && (writable ==> established)
      modifies this`lclosed, this`rclosed, this`lbroken, this`rbroken, this`log
      modifies localIn, localOut, remoteIn, remoteOut, lbuffer, rbuffer
      ensures Valid() && old(log) <= log && (old(lclosed) ==> lclosed) && (old(rclosed) ==> rclosed)
      ensures old(localOut.written) <= localOut.written && old(remoteOut.written) <= remoteOut.written
      ensures old(remoteOut.answers) <= remoteOut.answers
      ensures writable ==> Stopped(old(localIn.answers), localIn.answers, old(remoteOut.answers), remoteOut.answers)
      ensures readable ==> Stopped(old(remoteIn.answers), remoteIn.answers, old(localOut.answers), localOut.answers)
      ensures HalfClosed(
        old(lclosed) || Broke(old(localIn.answers), localIn.answers, old(localOut.answers), localOut.answers),
        old(rclosed) || (writable && flushFails)
          || Broke(old(remoteIn.answers), remoteIn.answers, old(remoteOut.answers), remoteOut.answers))
    {
      if writable { LocalToRemote(active, flushFails); }
      if readable { RemoteToLocal(sendQueue); }
      CheckHalfClose();
    }

    // What the remote's answer to the request leads to.
    ghost predicate Shaken(r: WriteStep)
      reads this
    {
      if r.Accept? then established && r.n <= |request| && head == request[..r.n]
      else !established && lclosed && rclosed
    }

    method SendRequest()
      requires Inv() && !established
      modifies this`established, this`head, this`lclosed, this`rclosed, this`log, remoteOut
      ensures Inv() && old(log) <= log && old(remoteOut.written) <= remoteOut.written
      ensures |remoteOut.answers| == |old(remoteOut.answers)| + 1 && old(remoteOut.answers) <= remoteOut.answers
      ensures Shaken(remoteOut.answers[|old(remoteOut.answers)|])
      ensures established <==> remoteOut.answers[|old(remoteOut.answers)|].Accept?
      ensures remoteOut.written == old(remoteOut.written) + head && (!established ==> head == [] && lclosed && rclosed)
      ensures established ==> lclosed == old(lclosed) && rclosed == old(rclosed)
    {
      var r := remoteOut.Write(request);
      if r.Accept? {
        head := request[..r.n];
        established := true;
      } else {
        Close();
      }
    }

    method Close()
      requires Inv() && !established
      modifies this`lclosed, this`rclosed, this`log
      ensures Valid() && lclosed && rclosed && old(log) <= log
    {
      CloseStream(Local, Refused);
      CloseStream(Remote, Refused);
    }
  }
}
