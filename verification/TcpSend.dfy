// src/tcp_util.rs `tcp_send` and its two users: the TCP backend of the server
// (src/server/tcp_backend.rs) and the client side of the proxy (src/proxy/tcp_server.rs).
module TcpSend {
  import opened Common
  import opened Buffers
  import opened Streams
  import opened Status

  // Writes what the socket takes; on a block the rest goes behind the buffer.
  method TcpSend(conn: Writer, sendBuffer: BytesMut, data0: seq<Byte>) returns (ok: bool, ghost taken: nat)
    modifies conn, sendBuffer
    ensures taken <= |data0| && conn.written == old(conn.written) + data0[..taken]
    ensures ok ==> sendBuffer.data == old(sendBuffer.data) + data0[taken..]
    ensures !ok ==> sendBuffer.data == old(sendBuffer.data)
    ensures old(conn.answers) <= conn.answers
    ensures ok ==> taken == |data0| || WriteBlocked(old(conn.answers), conn.answers)
    ensures !ok <==> WriteFailed(old(conn.answers), conn.answers)
  {
    var data := data0;
    taken := 0;
    while true
      invariant taken <= |data0| && data == data0[taken..]
      invariant conn.written == old(conn.written) + data0[..taken] && sendBuffer.data == old(sendBuffer.data)
      invariant old(conn.answers) <= conn.answers && !WriteFailed(old(conn.answers), conn.answers)
      decreases |data|
    {
      if data == [] { return true, taken; }
      var r := conn.Write(data);
      match r {
        case Accept(size) =>
          if size == 0 { return false, taken; }
          assert data0[..taken + size] == data0[..taken] + data[..size];
          data := data[size..];
          taken := taken + size;
        case WriteBlock =>
          sendBuffer.Extend(data);
          break;
        case WriteFail =>
          return false, taken;
      }
    }
    ok := true;
  }

  // Bytes that went through a buffered socket: what it took and what is buffered are,
  // in order, what was handed in; after an error, what it took is still a prefix.
  ghost predicate InOrder(written: seq<Byte>, buffered: seq<Byte>, handed: seq<Byte>, broken: bool) {
    if broken then written <= handed else written + buffered == handed
  }

  // Bytes stay behind only because the socket blocked, and a failure is the socket's.
  ghost predicate Blamed(before: seq<WriteStep>, now: seq<WriteStep>, buffered: seq<Byte>,
                         wasBroken: bool, broken: bool) {
    && (broken <==> wasBroken || WriteFailed(before, now))
    && (buffered == [] || WriteBlocked(before, now))
  }

  class TcpBackend {
    const conn: Writer
    const sendBuffer: BytesMut
    var status: ConnStatus
    // everything dispatched; whether a send failed
    ghost var dispatched: seq<Byte>
    ghost var broken: bool

    ghost predicate Valid()
      reads this, conn, sendBuffer
    {
      && InOrder(conn.written, sendBuffer.data, dispatched, broken)
      && (broken ==> IsShutdown(status) && sendBuffer.data == [])
    }

    constructor (conn: Writer)
      requires conn.written == []
      ensures Valid() && this.conn == conn && fresh(sendBuffer)
      ensures status == Established && dispatched == [] && !broken && sendBuffer.data == []
    {
      this.conn := conn;
      sendBuffer := new BytesMut();
      status, dispatched, broken := Established, [], false;
    }

    // `Backend::dispatch`.  After a failed send the server still dispatches no bytes, once
    // behind the first dispatch and whenever the socket becomes writable.
    method Dispatch(buffer: seq<Byte>)
      requires Valid() && (broken ==> buffer == [])
      modifies this, conn, sendBuffer
      ensures Valid() && dispatched == old(dispatched) + buffer && old(conn.written) <= conn.written
      ensures status == if broken then AfterShutdown(old(status)) else old(status)
      ensures Blamed(old(conn.answers), conn.answers, sendBuffer.data, old(broken), broken)
    {
      ghost var handed := dispatched + buffer;
      if sendBuffer.data == [] {
        assert broken ==> handed == dispatched;
        DoSend(buffer, handed);
      } else {
        sendBuffer.Extend(buffer);
        var data := sendBuffer.Split();
        DoSend(data, handed);
      }
    }

    // `do_send`; handed is everything dispatched, this data included.
    method DoSend(data: seq<Byte>, ghost handed: seq<Byte>)
      requires sendBuffer.data == [] && (broken ==> data == [] && IsShutdown(status))
      requires InOrder(conn.written, data, handed, broken)
      modifies this`dispatched, this`broken, this`status, conn, sendBuffer
      ensures Valid() && dispatched == handed && old(conn.written) <= conn.written
      ensures status == if broken then AfterShutdown(old(status)) else old(status)
      ensures Blamed(old(conn.answers), conn.answers, sendBuffer.data, old(broken), broken)
    {
      ghost var w := conn.written;
      dispatched := handed;
      var ok, taken := TcpSend(conn, sendBuffer, data);
      assert w + data == conn.written + data[taken..];
      if !ok {
        broken := true;
        status := AfterShutdown(status);
      }
    }

    method Writable() returns (w: bool)
      ensures w <==> sendBuffer.data == [] && Alive(status)
    {
      w := sendBuffer.data == [] && Alive(status);
    }

    // `finish_send`: unless a send failed, true exactly when the socket has taken
    // everything dispatched.
    method FinishSend() returns (done: bool)
      requires Valid()
      ensures broken ==> done
      ensures !broken ==> (done <==> conn.written == dispatched)
    {
      done := sendBuffer.data == [];
      assert |conn.written + sendBuffer.data| == |conn.written| + |sendBuffer.data|;
    }
  }

  // The proxy's connection to its client, fed from the TLS session with the server.
  class ProxyConnection {
    const client: Writer
    const sendBuffer: BytesMut
    var status: ConnStatus
    var readServer: bool
    // what the next calls of `server_conn.do_read` return ([] for None)
    var server: seq<seq<Byte>>
    // everything read from the server, everything handed to the client side
    ghost var got: seq<Byte>
    ghost var handed: seq<Byte>
    ghost var broken: bool

    ghost predicate Valid()
      reads this, client, sendBuffer
    {
      && client as object != sendBuffer
      && InOrder(client.written, sendBuffer.data, handed, broken)
      && (status.Connecting? ==> client.written == [])
      && (broken ==> IsShutdown(status))
    }

    constructor (client: Writer, server: seq<seq<Byte>>)
      requires client.written == []
      ensures Valid() && this.client == client && fresh(sendBuffer) && this.server == server
      ensures status == Connecting && got == [] && handed == [] && !readServer
    {
      this.client := client;
      sendBuffer := new BytesMut();
      status, readServer, this.server, got, handed, broken := Connecting, false, server, [], [], false;
    }

    predicate Writable()
      reads this, sendBuffer
    {
      sendBuffer.data == [] && Alive(status)
    }

    // The server was asked for more, and what it had has come.
    ghost predicate TookUp(server0: seq<seq<Byte>>, got0: seq<Byte>)
      reads this
    {
      server0 != [] ==> |server| < |server0| && got0 + server0[0] <= got
    }

    // A failed send deregisters the client within the same event, so no more calls come.
    // Holds the bytes back while the client is connecting; otherwise sends them behind
    // what is buffered, and resumes reading from the server when all of it is gone.
    method TrySendClient(buffer: seq<Byte>)
      requires Valid() && !broken
      modifies this, client, sendBuffer
      ensures Valid() && old(got) <= got
      ensures handed == old(handed) + buffer + got[|old(got)|..]
      ensures old(client.written) <= client.written
      ensures old(status).Connecting? ==> status == old(status) && got == old(got) && readServer == old(readServer)
      ensures !old(status).Connecting? ==> Blamed(old(client.answers), client.answers, sendBuffer.data, false, broken)
      ensures status == if broken then AfterShutdown(old(status)) else old(status)
      ensures old(client.answers) <= client.answers
      ensures |server| <= |old(server)|
      // a reading put off is taken up exactly when all is gone
      ensures Writable() ==> !readServer
      ensures old(readServer) && !readServer ==> TookUp(old(server), old(got))
      ensures !old(readServer) ==> !readServer && got == old(got)
      decreases |server|, 1
    {
      ghost var w0, b0 := client.written, sendBuffer.data;
      handed := handed + buffer;
      if status.Connecting? {
        sendBuffer.Extend(buffer);
        assert client.written + sendBuffer.data == handed;
      } else {
        var data := buffer;
        if sendBuffer.data != [] {
          sendBuffer.Extend(buffer);
          data := sendBuffer.Split();
        }
        assert data == b0 + buffer && w0 + data == handed;
        DoSendClient(data);
      }
      if Writable() && readServer {
        TryReadServer();
        readServer := false;
      }
    }

    method DoSendClient(data: seq<Byte>)
      requires sendBuffer.data == [] && !status.Connecting? && !broken
      requires client.written + data == handed
      modifies this`status, this`broken, client, sendBuffer
      ensures Valid() && !status.Connecting?
      ensures old(client.written) <= client.written && old(client.answers) <= client.answers
      ensures Blamed(old(client.answers), client.answers, sendBuffer.data, false, broken)
      ensures status == if broken then AfterShutdown(old(status)) else old(status)
    {
      ghost var w := client.written;
      var ok, taken := TcpSend(client, sendBuffer, data);
      assert w + data == client.written + data[taken..];
      if !ok { status := AfterShutdown(status); broken := true; }
    }

    method TryReadServer()
      requires Valid() && !broken
      modifies this, client, sendBuffer
      ensures Valid() && old(got) <= got
      ensures handed == old(handed) + got[|old(got)|..]
      ensures old(client.written) <= client.written
      ensures |server| <= |old(server)|
      ensures TookUp(old(server), old(got))
      ensures old(client.answers) <= client.answers
      ensures status == if broken then AfterShutdown(old(status)) else old(status)
      ensures !old(status).Connecting? ==>
        if got == old(got) then unchanged(client, sendBuffer) && !broken
        else Blamed(old(client.answers), client.answers, sendBuffer.data, false, broken)
      decreases |server|, 0
    {
      var buffer := DoRead();
      if buffer != [] {
        ghost var g := got;
        TrySendClient(buffer);
        assert got[|old(got)|..] == buffer + got[|g|..];
      }
    }

    // `ready` on the client's token: the client became writable.
    method ClientWritable()
      requires Valid() && !broken
      modifies this, client, sendBuffer
      ensures Valid() && old(got) <= got && handed == old(handed) + got[|old(got)|..]
      ensures Blamed(old(client.answers), client.answers, sendBuffer.data, false, broken)
      ensures var s := if old(status).Connecting? then Established else old(status);
        status == if broken then AfterShutdown(s) else s
      ensures Writable() ==> !readServer
      ensures old(readServer) && !readServer ==> TookUp(old(server), old(got))
      ensures !old(readServer) ==> got == old(got)
    {
      if status.Connecting? { status := Established; }
      TrySendClient([]);
    }

    // `ready` on the server's token: the server became readable.
    method ServerReadable()
      requires Valid() && !broken
      modifies this, client, sendBuffer
      ensures Valid() && old(got) <= got && handed == old(handed) + got[|old(got)|..]
      ensures if old(sendBuffer.data) != [] || !Alive(old(status)) then got == old(got) && readServer
              else TookUp(old(server), old(got))
      ensures status == if broken then AfterShutdown(old(status)) else old(status)
      ensures broken ==> WriteFailed(old(client.answers), client.answers)
    {
      if Writable() { TryReadServer(); } else { readServer := true; }
    }

    method DoRead() returns (buffer: seq<Byte>)
      modifies this`server, this`got
      ensures got == old(got) + buffer && |server| <= |old(server)|
      ensures buffer != [] ==> |server| < |old(server)|
      ensures old(server) != [] ==> buffer == old(server)[0] && |server| < |old(server)|
    {
      if server == [] { return []; }
      buffer, server := server[0], server[1..];
      got := got + buffer;
    }
  }
}
