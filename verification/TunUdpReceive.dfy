// `Connection::remote_to_local` of src/wintun/udp.rs: the decoder that compacts one
// buffer in place (`copy_within`, `set_len`).
module TunUdpReceive {
  import opened Common
  import opened Proto
  import opened Frames
  import opened WireStreams
  import opened FrameStreams
  import opened Streams

  class Connection {
    const parse: Parser
    const remote: Reader
    // lbuffer: its storage and its length
    var storage: array<Byte>
    var len: nat
    var rclosed: bool
    // datagrams whose payloads went to the local socket, the bytes behind those, and
    // whether these are no start of a frame
    ghost var written: seq<Datagram>
    ghost var pending: seq<Byte>
    ghost var malformed: bool

    // Between events no complete frame is left in the buffer.
    ghost predicate Valid()
      reads this, storage, remote
    {
      && Incremental(parse) && PayloadIsSuffix(parse) && len <= storage.Length
      && DecodesTo(parse, remote.read, written, pending)
      && if malformed then rclosed && parse(pending).InvalidProtocol?
         else pending == LBuffer() && parse(pending).Continued?
    }

    ghost function LBuffer(): seq<Byte>
      requires len <= storage.Length
      reads this, storage
    {
      storage[..len]
    }

    constructor (text: TextIp, remote: Reader)
      requires remote.read == []
      ensures Valid() && fresh(storage) && parse == UdpParser(text) && this.remote == remote
      ensures written == [] && !rclosed && !malformed && LBuffer() == []
    {
      UdpParserIncremental(text);
      UdpParserSuffix(text);
      this.remote := remote;
      parse := UdpParser(text);
      storage := new Byte[1500](_ => 0);
      len, rclosed, written, pending, malformed := 0, false, [], [], false;
    }

    // `reserve`: room behind the contents, in new storage when there is too little.
    method Reserve(n: nat)
      requires len <= storage.Length
      modifies this`storage
      ensures storage.Length - len >= n && LBuffer() == old(LBuffer())
      ensures storage == old(storage) || fresh(storage)
    {
      if storage.Length - len < n {
        var bigger := new Byte[len + n](_ => 0);
        forall i | 0 <= i < len { bigger[i] := storage[i]; }
        storage := bigger;
      }
    }

    // `copy_within(offset.., 0)` and `set_len(len - offset)`.
    method Compact(offset: nat)
      requires offset <= len <= storage.Length
      modifies this`len, storage
      ensures len == old(len) - offset && storage == old(storage)
      ensures LBuffer() == old(LBuffer())[offset..]
    {
      var rest := len - offset;
      for i := 0 to rest
        invariant len == old(len)
        invariant forall k :: 0 <= k < i ==> storage[k] == old(storage[offset + k])
        invariant forall k :: i <= k < storage.Length ==> storage[k] == old(storage[k])
      {
        storage[i] := storage[offset + i];
      }
      len := rest;
      assert forall k :: 0 <= k < rest ==> LBuffer()[k] == old(LBuffer())[offset..][k];
    }

    method Append(bytes: seq<Byte>)
      requires len + |bytes| <= storage.Length
      modifies this`len, storage
      ensures len <= storage.Length && storage == old(storage)
      ensures LBuffer() == old(LBuffer()) + bytes
    {
      forall i | 0 <= i < |bytes| { storage[len + i] := bytes[i]; }
      len := len + |bytes|;
    }

    // `read_once` on this buffer.
    method ReadOnce() returns (ret: Outcome)
      requires len <= storage.Length
      modifies this`len, this`storage, storage, remote
      ensures len <= storage.Length && (storage == old(storage) || fresh(storage))
      ensures old(remote.read) <= remote.read
      ensures LBuffer() == old(LBuffer()) + remote.read[|old(remote.read)|..]
      ensures ret.Done? ==> |remote.script| < |old(remote.script)|
      ensures !ret.Done? ==> remote.read == old(remote.read)
      ensures ret.Blocked? <==> ReadBlocked(old(remote.answers), remote.answers)
      ensures ret.Broken? <==> ReadFailed(old(remote.answers), remote.answers)
      ensures old(remote.answers) < remote.answers
    {
      var r := remote.Read();
      match r {
        case Data(bytes) =>
          // at least 1500 bytes are offered, more when the storage is larger
          Reserve(if |bytes| < 1500 then 1500 else |bytes|);
          if bytes == [] { return Broken; }
          Append(bytes);
          return Done;
        case ReadBlock => return Blocked;
        case ReadFail => return Broken;
      }
    }

    // The inner loop: writes out every complete frame and moves the rest to the front.
    method Drain() returns (ok: bool)
      requires Incremental(parse) && PayloadIsSuffix(parse) && len <= storage.Length && !malformed
      requires DecodesTo(parse, remote.read, written, LBuffer())
      modifies this`len, this`rclosed, this`written, this`pending, this`malformed, storage
      ensures Valid() && old(written) <= written && rclosed == (old(rclosed) || malformed) && ok == !malformed
    {
      var offset := WriteFrames();
      var buffer := storage[offset..len];
      assert buffer == LBuffer()[offset..];
      pending := buffer;
      ok := parse(buffer).Continued?;
      if ok {
        if buffer == [] { len := 0; } else { Compact(offset); }
      } else {
        malformed, rclosed := true, true;
      }
    }

    // The rounds of the loop that find a packet; offset is where the next one does not.
    method WriteFrames() returns (offset: nat)
      requires Incremental(parse) && PayloadIsSuffix(parse) && len <= storage.Length
      requires DecodesTo(parse, remote.read, written, LBuffer())
      modifies this`written
      ensures offset <= len && old(written) <= written
      ensures DecodesTo(parse, remote.read, written, LBuffer()[offset..]) && !parse(LBuffer()[offset..]).Packet?
    {
      offset := 0;
      while true
        invariant offset <= len && old(written) <= written
        invariant DecodesTo(parse, remote.read, written, LBuffer()[offset..])
        decreases len - offset
      {
        var buffer := storage[offset..len];
        assert buffer == LBuffer()[offset..];
        var p := parse(buffer);
        if !p.Packet? { break; }
        NextFrame(parse, remote.read, written, LBuffer(), offset);
        WriteLocal(p.address, p.payload[..p.length]);
        offset := len - (|p.payload| - p.length);
      }
    }

    // `write` on the local socket; whatever it returns is ignored.
    method WriteLocal(ghost address: SocketAddr, data: seq<Byte>)
      modifies this`written
      ensures written == old(written) + [Datagram(address, data)]
    {
      written := written + [Datagram(address, data)];
    }

    // Reads until reading blocks or fails or a frame is malformed; the buffer is then the
    // undecoded end of everything read, and the datagrams written are the decoding of
    // what came before it.  The remote may have been closed before.
    method RemoteToLocal()
      requires Valid() && !malformed
      modifies this`len, this`rclosed, this`written, this`pending, this`malformed, this`storage, storage, remote
      ensures Valid() && (storage == old(storage) || fresh(storage))
      ensures old(remote.read) <= remote.read && old(written) <= written
      ensures !malformed ==> Decode(parse, remote.read) == Decoding(written, LBuffer(), true)
      ensures Ended(old(rclosed), old(remote.answers))
      ensures rclosed <==> old(rclosed) || malformed || ReadFailed(old(remote.answers), remote.answers)
      ensures malformed || ReadFailed(old(remote.answers), remote.answers)
        || ReadBlocked(old(remote.answers), remote.answers)
    {
      var more := true;
      while more
        invariant Valid() && (storage == old(storage) || fresh(storage))
        invariant old(remote.read) <= remote.read && old(written) <= written
        invariant old(remote.answers) <= remote.answers
        invariant if more then !malformed && rclosed == old(rclosed) else Ended(old(rclosed), old(remote.answers))
        decreases more, |remote.script|
      {
        more := Round();
      }
      if !malformed { DecodeWaiting(parse, remote.read, written, LBuffer()); }
    }

    // Why reading ended: a malformed frame, a failed read (both close the remote) or a
    // read that would block.
    ghost predicate Ended(wasClosed: bool, before: seq<ReadStep>)
      reads this, remote
    {
      && rclosed == (wasClosed || malformed || ReadFailed(before, remote.answers))
      && (malformed || ReadFailed(before, remote.answers) || ReadBlocked(before, remote.answers))
    }

    // One round of the outer loop; false to return.
    method Round() returns (more: bool)
      requires Valid() && !malformed
      modifies this`len, this`rclosed, this`written, this`pending, this`malformed, this`storage, storage, remote
      ensures Valid() && (storage == old(storage) || fresh(storage))
      ensures old(remote.read) <= remote.read && old(written) <= written && old(remote.answers) <= remote.answers
      ensures if more then !malformed && rclosed == old(rclosed) && |remote.script| < |old(remote.script)|
              else |old(remote.answers)| < |remote.answers| && Ended(old(rclosed), old(remote.answers))
    {
      var ret := Receive();
      match ret {
        case Blocked =>
          more := false;
        case Broken =>
          rclosed, more := true, false;
        case Done =>
          more := Drain();
      }
    }

    // One read; what it appends is decoded behind what is there.
    method Receive() returns (ret: Outcome)
      requires Valid() && !malformed
      modifies this`len, this`storage, storage, remote
      ensures len <= storage.Length && (storage == old(storage) || fresh(storage))
      ensures old(remote.read) <= remote.read && old(remote.answers) < remote.answers
      ensures DecodesTo(parse, remote.read, written, LBuffer())
      ensures ret.Done? ==> |remote.script| < |old(remote.script)|
      ensures !ret.Done? ==> Valid() && remote.read == old(remote.read)
      ensures ret.Blocked? <==> ReadBlocked(old(remote.answers), remote.answers)
      ensures ret.Broken? <==> ReadFailed(old(remote.answers), remote.answers)
    {
      ghost var before, buffered := remote.read, LBuffer();
      ret := ReadOnce();
      ghost var more := remote.read[|before|..];
      assert before + more == remote.read;
      DecodesToExtends(parse, before, written, buffered, more);
      assert !ret.Done? ==> more == [] && LBuffer() == buffered;
    }

    // Reading any prefix of a generated stream: the frames are called malformed exactly
    // if the bytes so far end in a bad cut.  Either way exactly the frames complete by
    // then have been written; otherwise the incomplete one is in the buffer.
    lemma ReadsGenerated(w: Wire, ds: seq<Datagram>)
      requires Valid() && parse == w.parse && WireStreams.Sound(w)
      requires AllSendable(w, ds) && remote.read <= EncodeAll(w, ds)
      ensures malformed <==> BadCut(w, ds, |remote.read|)
      ensures written == ds[..Complete(w, ds, |remote.read|)]
      ensures !malformed ==> remote.read == EncodeAll(w, written) + LBuffer()
    {
      StoppedAt(w, ds, remote.read, written, pending);
      SentPrefix(w, ds, remote.read, written, pending);
      DecodePrefix(w, ds, remote.read);
      DecodeThrough(w.parse, remote.read, written, pending);
    }
  }

  // Frames with IPv4 addresses are never malformed, however they are read.
  lemma ReadsIpv4(c: Connection, text: TextIp, ds: seq<Datagram>)
    requires c.Valid() && c.parse == UdpParser(text) && c.remote.read <= EncodeAll(UdpWire(text), ds)
    requires AllSendable(UdpWire(text), ds) && forall i :: 0 <= i < |ds| ==> ds[i].address.V4?
    ensures !c.malformed && c.written == ds[..Complete(UdpWire(text), ds, |c.remote.read|)]
  {
    UdpWireSound(text);
    NoBadCutInIpv4(text, ds, |c.remote.read|);
    c.ReadsGenerated(UdpWire(text), ds);
  }

  lemma DecodeWaiting(parse: Parser, b: seq<Byte>, out: seq<Datagram>, rest: seq<Byte>)
    requires Shrinking(parse) && DecodesTo(parse, b, out, rest) && parse(rest).Continued?
    ensures Decode(parse, b) == Decoding(out, rest, true)
  {
    DecodeThrough(parse, b, out, rest);
    assert out + [] == out;
  }

  lemma NextFrame(parse: Parser, b: seq<Byte>, out: seq<Datagram>, all: seq<Byte>, offset: nat)
    requires Incremental(parse) && PayloadIsSuffix(parse)
    requires offset <= |all| && parse(all[offset..]).Packet? && DecodesTo(parse, b, out, all[offset..])
    ensures var p := parse(all[offset..]); var next := |all| - (|p.payload| - p.length);
      offset < next <= |all| && DecodesTo(parse, b, out + [Front(p)], all[next..])
  {
    BehindPacket(parse, all, offset);
    DecodesToNext(parse, b, out, all[offset..]);
  }

  // The payload a parser returns runs to the end of the buffer.
  ghost predicate PayloadIsSuffix(parse: Parser) {
    forall b :: parse(b).Packet? ==> |parse(b).payload| <= |b| && parse(b).payload == b[|b| - |parse(b).payload|..]
  }

  lemma BehindPacket(parse: Parser, all: seq<Byte>, offset: nat)
    requires Incremental(parse) && PayloadIsSuffix(parse)
    requires offset <= |all| && parse(all[offset..]).Packet?
    ensures var p := parse(all[offset..]); var next := |all| - (|p.payload| - p.length);
      offset < next <= |all| && all[next..] == After(p)
  {}

  lemma UdpParserSuffix(text: TextIp)
    ensures PayloadIsSuffix(UdpParser(text))
  {
    var parse := UdpParser(text);
    forall b | parse(b).Packet?
      ensures |parse(b).payload| <= |b| && parse(b).payload == b[|b| - |parse(b).payload|..]
    {
      var (size, address) := ParseAddress(text, b[0], b[1..]).value;
      assert parse(b).payload == b[1..][size..][4..];
    }
  }
}
