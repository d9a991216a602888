// A growable byte buffer.
module Buffers {
  import opened Common

  class BytesMut {
    var data: seq<Byte>

    constructor ()
      ensures data == []
    {
      data := [];
    }

    // `extend_from_slice`, `put_*`
    method Extend(b: seq<Byte>)
      modifies this
      ensures data == old(data) + b
    {
      data := data + b;
    }

    method Clear()
      modifies this
      ensures data == []
    {
      data := [];
    }

    method Advance(n: nat)
      requires n <= |data|
      modifies this
      ensures data == old(data)[n..]
    {
      data := data[n..];
    }

    // `split`: takes everything out
    method Split() returns (b: seq<Byte>)
      modifies this
      ensures b == old(data) && data == []
    {
      b := data;
      data := [];
    }
  }
}

// src/utils.rs over sockets that follow an arbitrary script of outcomes.
module Streams {
  import opened Common
  import opened Buffers

  // What one call of `read` returns: Ok(bytes) (Ok(0) when empty), or an error.
  datatype ReadStep = Data(bytes: seq<Byte>) | ReadBlock | ReadFail

  // What one call of `write` returns: Ok(n) with n cut to what was offered, or an error.
  datatype WriteStep = Accept(n: nat) | WriteBlock | WriteFail

  // The source of bytes; `answers` is what its calls returned so far, `read` all the
  // bytes in them.
  class Reader {
    var script: seq<ReadStep>
    ghost var read: seq<Byte>
    ghost var answers: seq<ReadStep>

    constructor (script: seq<ReadStep>)
      ensures this.script == script && read == [] && answers == []
    {
      this.script := script;
      read, answers := [], [];
    }

    method Read() returns (r: ReadStep)
      modifies this
      ensures old(script) != [] ==> r == old(script)[0] && script == old(script)[1..]
      ensures old(script) == [] ==> r == ReadBlock && script == []
      ensures read == old(read) + if r.Data? then r.bytes else []
      ensures answers == old(answers) + [r]
    {
      r := ReadBlock;
      if script != [] { r, script := script[0], script[1..]; }
      if r.Data? { read := read + r.bytes; }
      answers := answers + [r];
    }
  }

  // The sink; `answers` is what its calls returned so far, `written` all it accepted.
  class Writer {
    var script: seq<WriteStep>
    ghost var written: seq<Byte>
    ghost var answers: seq<WriteStep>

    constructor (script: seq<WriteStep>)
      ensures this.script == script && written == [] && answers == []
    {
      this.script := script;
      written, answers := [], [];
    }

    method Write(data: seq<Byte>) returns (r: WriteStep)
      modifies this
      ensures r.Accept? ==> r.n <= |data|
      ensures written == old(written) + if r.Accept? then data[..r.n] else []
      ensures answers == old(answers) + [r]
    {
      r := WriteBlock;
      if script != [] { r, script := script[0], script[1..]; }
      if r.Accept? {
        r := Accept(if r.n <= |data| then r.n else |data|);
        written := written + data[..r.n];
      }
      answers := answers + [r];
    }
  }

  datatype Outcome = Done | Blocked | Broken

  // A call was made since `before`, and the last one would have blocked,
  ghost predicate WriteBlocked(before: seq<WriteStep>, now: seq<WriteStep>) {
    before < now && now[|now| - 1].WriteBlock?
  }

  // or failed (accepting nothing is a failure, too).
  ghost predicate WriteFailed(before: seq<WriteStep>, now: seq<WriteStep>) {
    before < now && (now[|now| - 1].WriteFail? || now[|now| - 1] == Accept(0))
  }

  ghost predicate ReadBlocked(before: seq<ReadStep>, now: seq<ReadStep>) {
    before < now && now[|now| - 1].ReadBlock?
  }

  ghost predicate ReadFailed(before: seq<ReadStep>, now: seq<ReadStep>) {
    before < now && (now[|now| - 1].ReadFail? || now[|now| - 1] == Data([]))
  }

  // What ends a copy: a stream that blocks or fails.
  ghost predicate Stopped(r: seq<ReadStep>, r': seq<ReadStep>, w: seq<WriteStep>, w': seq<WriteStep>) {
    ReadBlocked(r, r') || ReadFailed(r, r') || WriteBlocked(w, w') || WriteFailed(w, w')
  }

  // `send_all`: on an error the buffer is dropped, otherwise it keeps what was not sent.
  method SendAll(to: Writer, buffer: BytesMut) returns (ret: Outcome, ghost lost: seq<Byte>)
    modifies to, buffer
    ensures old(to.written) <= to.written
    ensures to.written + buffer.data + lost == old(to.written) + old(buffer.data)
    ensures ret.Done? ==> buffer.data == []
    ensures ret.Blocked? ==> buffer.data != []
    ensures ret.Broken? ==> buffer.data == [] && lost != []
    ensures !ret.Broken? ==> lost == []
    ensures ret.Blocked? <==> WriteBlocked(old(to.answers), to.answers)
    ensures ret.Broken? <==> WriteFailed(old(to.answers), to.answers)
    ensures old(to.answers) <= to.answers
  {
    lost := [];
    if buffer.data == [] { return Done, lost; }
    var data := buffer.data;
    var offset: nat := 0;
    ret := Done;
    while data != []
      invariant offset <= |buffer.data| && data == buffer.data[offset..] && buffer.data == old(buffer.data)
      invariant to.written == old(to.written) + buffer.data[..offset]
      invariant ret.Done? && old(to.answers) <= to.answers
      invariant !WriteBlocked(old(to.answers), to.answers) && !WriteFailed(old(to.answers), to.answers)
      decreases |data|
    {
      var r := to.Write(data);
      match r {
        case Accept(n) =>
          if n == 0 { ret := Broken; break; }
          assert buffer.data[..offset + n] == buffer.data[..offset] + data[..n];
          offset := offset + n;
          data := data[n..];
        case WriteBlock => ret := Blocked; break;
        case WriteFail => ret := Broken; break;
      }
    }
    assert old(buffer.data) == buffer.data[..offset] + data;
    if ret.Broken? {
      lost := data;
      buffer.Clear();
    } else if offset != 0 {
      buffer.Advance(offset);
    }
  }

  // `read_once`: appends what one read returns.
  method ReadOnce(from: Reader, buffer: BytesMut) returns (ret: Outcome)
    modifies from, buffer
    ensures old(from.read) <= from.read
    ensures buffer.data == old(buffer.data) + from.read[|old(from.read)|..]
    ensures ret.Done? ==> |from.script| < |old(from.script)| && buffer.data != old(buffer.data)
    ensures !ret.Done? ==> from.read == old(from.read)
    ensures ret.Blocked? <==> ReadBlocked(old(from.answers), from.answers)
    ensures ret.Broken? <==> ReadFailed(old(from.answers), from.answers)
    ensures old(from.answers) <= from.answers
  {
    var r := from.Read();
    match r {
      case Data(bytes) =>
        if bytes == [] { return Broken; }
        buffer.Extend(bytes);
        assert from.read[|old(from.read)|..] == bytes;
        return Done;
      case ReadBlock => return Blocked;
      case ReadFail => return Broken;
    }
  }

  datatype CopyResult = RxBlock | TxBlock | RxBreak | TxBreak

  // `copy_stream`: what was buffered and read is, in order, what was written and is
  // still buffered; only a broken sink loses anything, namely a non-empty end.
  method CopyStream(from: Reader, to: Writer, buffer: BytesMut) returns (ret: CopyResult, ghost lost: seq<Byte>)
    modifies from, to, buffer
    ensures old(from.read) <= from.read && old(to.written) <= to.written
    ensures to.written + buffer.data + lost == old(to.written) + old(buffer.data) + from.read[|old(from.read)|..]
    ensures ret.TxBlock? <==> buffer.data != []
    ensures ret.TxBreak? <==> lost != []
    ensures old(from.answers) <= from.answers && old(to.answers) <= to.answers
    ensures ret.TxBlock? <==> WriteBlocked(old(to.answers), to.answers)
    ensures ret.TxBreak? <==> WriteFailed(old(to.answers), to.answers)
    ensures ret.RxBlock? <==> ReadBlocked(old(from.answers), from.answers)
    ensures ret.RxBreak? <==> ReadFailed(old(from.answers), from.answers)
  {
    ghost var w0, b0, r0 := to.written, buffer.data, from.read;
    while true
      invariant old(from.answers) <= from.answers && old(to.answers) <= to.answers
      invariant !WriteBlocked(old(to.answers), to.answers) && !WriteFailed(old(to.answers), to.answers)
      invariant !ReadBlocked(old(from.answers), from.answers) && !ReadFailed(old(from.answers), from.answers)
      invariant r0 <= from.read && w0 <= to.written
      invariant to.written + buffer.data == w0 + b0 + from.read[|r0|..]
      decreases |from.script|
    {
      ghost var r1 := from.read;
      var sent;
      sent, lost := SendAll(to, buffer);
      assert to.written + buffer.data + lost == w0 + b0 + from.read[|r0|..];
      if sent.Broken? { return TxBreak, lost; }
      if sent.Blocked? { return TxBlock, []; }
      var got := ReadOnce(from, buffer);
      assert from.read[|r0|..] == r1[|r0|..] + from.read[|r1|..];
      assert w0 + b0 + from.read[|r0|..] == w0 + b0 + r1[|r0|..] + from.read[|r1|..];
      if got.Broken? { return RxBreak, []; }
      if got.Blocked? { return RxBlock, []; }
    }
  }
}
