// `UdpBackend` of src/server/udp_backend.rs: the incremental decoder whose sink may
// block, so that whole frames stay in the carry-over buffer.
module UdpBackends {
  import opened Common
  import opened Buffers
  import opened Proto
  import opened Frames
  import opened WireStreams
  import opened FrameStreams

  // What one call of `send_to` returns.
  datatype SendStep = Sent(size: nat) | SendBlock | SendFail

  // Why the backend shut itself down.
  datatype Cause = Running | Truncated | Failed | Malformed

  // A call of `send_to`: what it was given and what it returned.
  datatype Attempt = Attempt(datagram: Datagram, outcome: SendStep)

  predicate Full(a: Attempt) {
    a.outcome == Sent(|a.datagram.payload|)
  }

  // The calls made since `before`: all but the last one sent their datagram in full.
  predicate OneByOne(before: seq<Attempt>, now: seq<Attempt>) {
    before <= now && forall i :: |before| <= i < |now| - 1 ==> Full(now[i])
  }

  function LastSince(before: seq<Attempt>, now: seq<Attempt>): Option<Attempt> {
    if |before| < |now| then Some(now[|now| - 1]) else None
  }

  // The call behind the state the backend is left in: it was about the first datagram
  // not sent.
  predicate Because(cause: Cause, last: Option<Attempt>, p: UdpResult)
    requires p.Packet? ==> p.length <= |p.payload|
  {
    match cause
    case Running => !p.InvalidProtocol? && (p.Packet? ==> last == Some(Attempt(Front(p), SendBlock)))
    case Truncated =>
      && p.Packet? && last.Some? && last.value.datagram == Front(p)
      && last.value.outcome.Sent? && !Full(last.value)
    case Failed => p.Packet? && last == Some(Attempt(Front(p), SendFail))
    case Malformed => p.InvalidProtocol?
  }

  // What the last call leads to: a failure and a truncated datagram shut the backend
  // down, a block does not, and neither does a datagram sent.
  predicate LeadsTo(last: Attempt, cause: Cause) {
    match last.outcome
    case SendFail => cause == Failed
    case SendBlock => cause == Running
    case Sent(size) => if size != |last.datagram.payload| then cause == Truncated else cause in {Running, Malformed}
  }

  class UdpBackend {
    const parse: Parser
    const sendBuffer: BytesMut
    var script: seq<SendStep>
    var cause: Cause
    // calls of `send_to` so far; all bytes dispatched, the datagrams sent in full, and
    // the bytes behind those
    ghost var attempts: seq<Attempt>
    ghost var input: seq<Byte>
    ghost var sent: seq<Datagram>
    ghost var pending: seq<Byte>

    ghost predicate Valid()
      reads this, sendBuffer
    {
      && Incremental(parse)
      && DecodesTo(parse, input, sent, pending)
      && sendBuffer.data == (if cause.Running? then pending else [])
      && (cause.Truncated? || cause.Failed? ==> parse(pending).Packet?)
      && (cause.Malformed? <==> parse(pending).InvalidProtocol?)
    }

    constructor (text: TextIp, script: seq<SendStep>)
      ensures Valid() && fresh(sendBuffer) && parse == UdpParser(text)
      ensures input == [] && sent == [] && cause.Running? && this.script == script
    {
      UdpParserIncremental(text);
      parse := UdpParser(text);
      sendBuffer := new BytesMut();
      this.script, cause, attempts, input, sent, pending := script, Running, [], [], [], [];
    }

    // Whatever blocks, the datagrams sent followed by the decoding of the buffer are
    // the decoding of everything dispatched.  Once shut down the server dispatches no
    // more bytes, which is without effect.
    method Dispatch(buffer: seq<Byte>)
      requires Valid() && (cause.Running? || buffer == [])
      modifies this, sendBuffer
      ensures Valid() && input == old(input) + buffer && old(sent) <= sent
      ensures cause.Running? ==> var d := Decode(parse, sendBuffer.data);
        Decode(parse, input) == Decoding(sent + d.out, d.rest, d.ok)
      ensures OneByOne(old(attempts), attempts)
      ensures if old(cause).Running? then Because(cause, LastSince(old(attempts), attempts), parse(pending))
              else cause == old(cause) && attempts == old(attempts)
      ensures attempts != old(attempts) ==> LeadsTo(attempts[|attempts| - 1], cause)
    {
      Note(buffer);
      var all := buffer;
      if sendBuffer.data != [] {
        sendBuffer.Extend(buffer);
        all := sendBuffer.Split();
      }
      DoSend(all);
      DecodeThrough(parse, input, sent, pending);
    }

    ghost method Note(buffer: seq<Byte>)
      requires Valid() && (cause.Running? || buffer == [])
      modifies this`input, this`pending
      ensures input == old(input) + buffer && pending == old(pending) + buffer
      ensures DecodesTo(parse, input, sent, pending)
      ensures sendBuffer.data + buffer == if cause.Running? then pending else []
      ensures sendBuffer.data == [] ==> buffer == if cause.Running? then pending else []
      ensures !cause.Running? ==> pending == old(pending)
    {
      DecodesToExtends(parse, input, sent, pending, buffer);
      assert buffer == [] ==> pending + buffer == pending;
      assert sendBuffer.data == [] ==> sendBuffer.data + buffer == buffer;
      input, pending := input + buffer, pending + buffer;
    }

    method DoSend(buffer: seq<Byte>)
      requires Incremental(parse) && DecodesTo(parse, input, sent, pending)
      requires sendBuffer.data == [] && buffer == if cause.Running? then pending else []
      requires cause.Truncated? || cause.Failed? ==> parse(pending).Packet?
      requires !cause.Running? ==> (cause.Malformed? <==> parse(pending).InvalidProtocol?)
      modifies this`script, this`attempts, this`cause, this`sent, this`pending, sendBuffer
      ensures Valid() && old(sent) <= sent
      ensures OneByOne(old(attempts), attempts)
      ensures if old(cause).Running? then Because(cause, LastSince(old(attempts), attempts), parse(pending))
              else cause == old(cause) && attempts == old(attempts)
      ensures attempts != old(attempts) ==> LeadsTo(attempts[|attempts| - 1], cause)
    {
      var rest := buffer;
      while true
        invariant cause == old(cause) && sendBuffer.data == [] && DecodesTo(parse, input, sent, pending)
        invariant if cause.Running? then rest == pending else rest == [] && pending == old(pending)
        invariant old(sent) <= sent && old(attempts) <= attempts
        invariant forall i :: |old(attempts)| <= i < |attempts| ==> Full(attempts[i])
        invariant !cause.Running? ==> attempts == old(attempts)
        decreases |rest|
      {
        var p := parse(rest);
        match p {
          case Packet(address, length, payload) =>
            DecodesToNext(parse, input, sent, rest);
            var r := SendTo(address, payload[..length]);
            match r {
              case Sent(size) =>
                if size != length { cause := Truncated; return; }
                rest := payload[length..];
                pending := rest;
              case SendBlock =>
                sendBuffer.Extend(rest);
                break;
              case SendFail =>
                cause := Failed;
                return;
            }
          case InvalidProtocol =>
            cause := Malformed;
            return;
          case Continued =>
            sendBuffer.Extend(rest);
            break;
        }
      }
    }

    method SendTo(address: SocketAddr, data: seq<Byte>) returns (r: SendStep)
      modifies this`script, this`attempts, this`sent
      ensures attempts == old(attempts) + [Attempt(Datagram(address, data), r)]
      ensures sent == if r == Sent(|data|) then old(sent) + [Datagram(address, data)] else old(sent)
    {
      r := SendBlock;
      if script != [] { r, script := script[0], script[1..]; }
      attempts := attempts + [Attempt(Datagram(address, data), r)];
      if r == Sent(|data|) { sent := sent + [Datagram(address, data)]; }
    }

    // `finish_send`: true only when nothing complete is left to send.
    method FinishSend() returns (done: bool)
      requires Valid()
      ensures done <==> !parse(sendBuffer.data).Packet?
      ensures done && cause.Running? ==> sent == Decode(parse, input).out
    {
      DecodeThrough(parse, input, sent, pending);
      done := !parse(sendBuffer.data).Packet?;
      assert done && cause.Running? ==> Decode(parse, pending).out == [];
    }

    // Dispatching a prefix of a generated stream in any chunks, with any outcomes: the
    // datagrams sent are the first ones.  The stream is called malformed exactly when
    // all its complete frames have been sent and the bytes so far end in a bad cut
    // (never for IPv4 frames); a backend still running at a bad cut is blocked before it.
    method DispatchAll(ghost w: Wire, arrivals: seq<seq<Byte>>, ghost ds: seq<Datagram>)
      requires Valid() && input == [] && sent == [] && cause.Running? && parse == w.parse && Sound(w)
      requires AllSendable(w, ds) && Concat(arrivals) <= EncodeAll(w, ds)
      modifies this, sendBuffer
      ensures Valid() && sent <= ds && input <= Concat(arrivals)
      ensures cause.Malformed? <==> BadCut(w, ds, |input|) && sent == ds[..Complete(w, ds, |input|)]
      ensures cause.Running? && BadCut(w, ds, |input|) ==> parse(sendBuffer.data).Packet?
      ensures cause.Running? ==> input == Concat(arrivals) == EncodeAll(w, sent) + sendBuffer.data
      ensures NoBadCut(w, ds, arrivals) ==> !cause.Malformed?
    {
      for i := 0 to |arrivals|
        invariant Valid() && cause.Running?
        invariant input == Concat(arrivals[..i])
      {
        Dispatch(arrivals[i]);
        assert arrivals[..i + 1][..i] == arrivals[..i];
        assert input == Concat(arrivals[..i + 1]);
        NoBadCutPrefix(w, ds, arrivals, i + 1);
        if !cause.Running? {
          SentPrefix(w, ds, input, sent, pending);
          StoppedAt(w, ds, input, sent, pending);
          ConcatPrefix(arrivals, i + 1);
          return;
        }
      }
      assert arrivals[..|arrivals|] == arrivals;
      SentPrefix(w, ds, input, sent, pending);
      StoppedAt(w, ds, input, sent, pending);
    }
  }
}
