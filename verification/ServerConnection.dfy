// `Connection` of src/server/connection.rs: handshake, waiting for the DNS answer and
// forwarding to a TCP or UDP backend.
module ServerConnection {
  import opened Common
  import opened Proto
  import opened Streams
  import opened Status
  import opened UdpBackends
  import opened Backends

  datatype Phase = HandShake | DnsWait | TCPForward | UDPForward

  function PhaseRank(p: Phase): nat {
    match p
    case HandShake => 0
    case DnsWait => 1
    case _ => 2
  }

  // How setting up the backend goes: `TcpStream::connect` or `UdpSocket::bind` may
  // fail, and registering the new socket may fail; else how the new socket behaves.
  datatype Setup = SetupOk(tcp: seq<WriteStep>, udp: seq<SendStep>) | OpenError | RegisterError

  // `TrojanRequest::parse` under the configured password.
  type RequestParser = seq<Byte> -> Parsed<Request>

  function TrojanParser(pass: seq<Byte>, text: TextIp): RequestParser {
    b => ParseRequest(pass, text, b)
  }

  // What the first chunk asks for; a chunk that is no request goes, whole, to the
  // default address.
  datatype Asked = Asked(command: Byte, address: Sock5Address, payload: seq<Byte>)

  function AskedBy(parse: RequestParser, first: seq<Byte>): Asked {
    match parse(first)
    case Just(r) => Asked(r.command, r.address, r.payload)
    case _ => Asked(CONNECT, NoAddress, first)
  }

  // Where a TCP connection goes, given the resolved address of a domain.
  function TargetOf(address: Sock5Address, backAddr: Option<SocketAddr>, resolved: Option<Ip>): Option<SocketAddr> {
    match address
    case Socket(a) => Some(a)
    case NoAddress => backAddr
    case Domain(_, port) => if resolved.Some? then Some(NewSocketAddr(resolved.value, port)) else None
  }

  class Connection {
    const parse: RequestParser
    const text: TextIp
    const backAddr: Option<SocketAddr>
    var phase: Phase
    var command: Byte
    var sock5Addr: Sock5Address
    var targetAddr: Option<SocketAddr>
    var data: seq<Byte>
    var backend: Backend?
    var proxy: ConnStatus
    var readProxy: bool
    var panicked: bool
    // the first chunk and all later ones, the bytes given to the backend, the resolved
    // address and the names looked up, and whether setting up the backend lost bytes
    ghost var first: seq<Byte>
    ghost var later: seq<Byte>
    ghost var handed: seq<Byte>
    ghost var resolved: Option<Ip>
    ghost var lookups: seq<seq<Byte>>
    ghost var failed: bool

    ghost function Footprint(): set<object>
      reads this`backend
    {
      if backend == null then {} else backend.Footprint()
    }

    // The backend has been given what is recorded.
    ghost predicate Served()
      reads this`backend, this`handed, Footprint()
    {
      backend != null ==>
        this !in backend.Footprint() && backend.Valid() && backend.Handed() == handed && backend.text == text
    }

    // Bytes may be dispatched.
    ghost predicate Takes()
      reads this`backend, Footprint()
    {
      backend == null || backend.Working()
    }

    // Past the handshake, with `moving` on its way between data and the backend:
    // nothing is lost, nothing comes twice, everything is in order.
    ghost predicate Open(moving: seq<Byte>)
      reads this
    {
      var asked := AskedBy(parse, first);
      && !phase.HandShake? && first != [] && !parse(first).Panic?
      && command == asked.command && sock5Addr == asked.address
      && (!failed ==> handed + data + moving == asked.payload + later)
      && (failed ==> IsShutdown(proxy) && (command == CONNECT ==> PhaseRank(phase) == 2))
      && (command == CONNECT ==> targetAddr == TargetOf(sock5Addr, backAddr, resolved))
      && (command != CONNECT ==> data == [])
      && (command == CONNECT && sock5Addr.Domain? && resolved.None? ==> sock5Addr.name in lookups)
      && if backend == null then handed == [] && (PhaseRank(phase) == 2 ==> failed)
         else
           && data == [] && (failed ==> command != CONNECT)
           && if command == CONNECT then phase.TCPForward? && targetAddr.Some? && backend.target == targetAddr
              else phase.UDPForward? && backend.target.None?
    }

    ghost predicate Conserved()
      reads this
    {
      if phase.HandShake? then
        && first == [] && later == [] && handed == [] && data == []
        && backend == null && targetAddr.None? && resolved.None? && !failed
      else Open([])
    }

    // Between events nothing but a missing DNS answer that was asked for keeps a live
    // connection waiting.
    ghost predicate Valid()
      reads this, Footprint()
    {
      Served() && (!panicked ==> Conserved() && OnlyDnsHolds())
    }

    // The target is known, so that bytes lead to a backend being set up.
    predicate Ready()
      reads this
    {
      command != CONNECT || targetAddr.Some?
    }

    predicate OnlyDnsHolds()
      reads this
    {
      phase.DnsWait? && !IsShutdown(proxy) ==> !Ready()
    }

    constructor (pass: seq<Byte>, text: TextIp, backAddr: Option<SocketAddr>)
      ensures Valid() && phase.HandShake? && proxy.Connecting? && !panicked
      ensures parse == TrojanParser(pass, text) && this.backAddr == backAddr
    {
      parse, this.text, this.backAddr := TrojanParser(pass, text), text, backAddr;
      phase, command, sock5Addr, targetAddr, data, backend := HandShake, 0, NoAddress, None, [], null;
      proxy, readProxy, panicked := Connecting, false, false;
      first, later, handed, resolved, lookups, failed := [], [], [], None, [], false;
    }

    // The payload left after the request, or the whole chunk; cached is the answer of
    // the resolver's cache, without which resolution is started.
    method TryHandshake(buffer: seq<Byte>, cached: Option<Ip>) returns (rest: seq<Byte>)
      requires targetAddr.None? && resolved.None?
      modifies this`command, this`sock5Addr, this`targetAddr, this`panicked, this`resolved, this`lookups
      ensures panicked == (old(panicked) || parse(buffer).Panic?)
      ensures !parse(buffer).Panic? ==>
        && Asked(command, sock5Addr, rest) == AskedBy(parse, buffer)
        && (command == CONNECT ==> targetAddr == TargetOf(sock5Addr, backAddr, resolved))
        && var named := command == CONNECT && sock5Addr.Domain?;
           && resolved == (if named then cached else None)
           && lookups == old(lookups) + if named && cached.None? then [sock5Addr.name] else []
    {
      rest := buffer;
      match parse(buffer) {
        case Panic => panicked := true; return;
        case Just(r) => command, sock5Addr, rest := r.command, r.address, r.payload;
        case Nothing => command, sock5Addr := CONNECT, NoAddress;
      }
      match sock5Addr {
        case Domain(name, port) =>
          if command != CONNECT { return; }
          if cached.Some? {
            targetAddr := Some(NewSocketAddr(cached.value, port));
            resolved := cached;
          } else {
            lookups := lookups + [name];
          }
        case Socket(a) => targetAddr := Some(a);
        case NoAddress => targetAddr := backAddr;
      }
    }

    // resolver is what the caller passes: None, or its cached answer.
    method Dispatch(buffer: seq<Byte>, resolver: Option<Option<Ip>>, setup: Setup)
      requires Served() && Conserved() && !panicked && (buffer == [] || Takes())
      requires phase.HandShake? ==> resolver.Some? && buffer != []
      modifies this, Footprint()
      ensures Valid() && old(readProxy) == readProxy
      ensures panicked ==> old(phase).HandShake? && parse(buffer).Panic?
      ensures PhaseRank(old(phase)) <= PhaseRank(phase) && Rank(old(proxy)) <= Rank(proxy)
      ensures !panicked ==> old(handed) <= handed && !phase.HandShake?
      ensures if old(phase).HandShake? then first == buffer && later == []
              else first == old(first) && later == old(later) + buffer
      ensures proxy == if !panicked && PhaseRank(old(phase)) < 2 && Ready() && !setup.SetupOk?
        then AfterShutdown(old(proxy)) else old(proxy)
      ensures !old(phase).HandShake? ==> targetAddr == old(targetAddr) && sock5Addr == old(sock5Addr)
    {
      var rest := buffer;
      if phase.HandShake? {
        rest := Shake(buffer, resolver.value);
        if panicked { return; }
      } else {
        Note(buffer);
      }
      Forward(rest, setup);
    }

    // The first round of the dispatch loop.
    method Shake(buffer: seq<Byte>, cached: Option<Ip>) returns (rest: seq<Byte>)
      requires phase.HandShake? && Conserved() && !panicked && buffer != []
      modifies this`command, this`sock5Addr, this`targetAddr, this`panicked, this`resolved, this`lookups
      modifies this`first, this`phase
      ensures first == buffer && panicked == parse(buffer).Panic?
      ensures !panicked ==> phase.DnsWait? && Open(rest)
    {
      first := buffer;
      rest := TryHandshake(buffer, cached);
      if panicked { return; }
      phase := DnsWait;
      assert [] + [] + rest == rest == rest + later;
    }

    ghost method Note(buffer: seq<Byte>)
      requires Open([])
      modifies this`later
      ensures Open(buffer) && later == old(later) + buffer
    {
      ghost var payload := AskedBy(parse, first).payload;
      assert handed + data + [] + buffer == handed + data + buffer;
      assert payload + later + buffer == payload + (later + buffer);
      later := later + buffer;
    }

    // The rest of the dispatch loop, once the handshake is done.
    method Forward(buffer: seq<Byte>, setup: Setup)
      requires Served() && Open(buffer) && !panicked && (buffer == [] || Takes())
      modifies this`phase, this`data, this`backend, this`handed, this`failed, this`proxy, Footprint()
      ensures Served() && Open([]) && OnlyDnsHolds() && old(handed) <= handed
      ensures PhaseRank(old(phase)) <= PhaseRank(phase) && Rank(old(proxy)) <= Rank(proxy)
      ensures proxy == if old(phase).DnsWait? && Ready() && !setup.SetupOk?
        then AfterShutdown(old(proxy)) else old(proxy)
    {
      if phase.DnsWait? {
        if command == CONNECT { ForwardTcp(buffer, setup); } else { ForwardUdp(buffer, setup); }
      } else if backend != null {
        assert handed + data + buffer == handed + buffer + [] + [];
        Hand(buffer);
      } else {
        failed := true;
      }
    }

    // Waiting with a TCP target: the bytes are held back until the target is known.
    method ForwardTcp(buffer: seq<Byte>, setup: Setup)
      requires Open(buffer) && !panicked && phase.DnsWait? && command == CONNECT
      modifies this`phase, this`data, this`backend, this`handed, this`failed, this`proxy
      ensures Served() && Open([]) && OnlyDnsHolds()
      ensures proxy == if Ready() && !setup.SetupOk? then AfterShutdown(old(proxy)) else old(proxy)
    {
      data := data + buffer;
      assert handed + data + [] == data;
      if targetAddr.Some? { Connect(setup); }
    }

    method Connect(setup: Setup)
      requires Open([]) && !panicked && phase.DnsWait? && command == CONNECT && targetAddr.Some? && backend == null
      modifies this`phase, this`data, this`backend, this`handed, this`failed, this`proxy
      ensures Served() && Open([]) && OnlyDnsHolds()
      ensures proxy == if !setup.SetupOk? then AfterShutdown(old(proxy)) else old(proxy)
    {
      assert handed + data + [] == data;
      var ok := TrySetupTcpTarget(setup);
      if !ok { return; }
      phase := TCPForward;
      if backend == null {
        failed := true;
      } else {
        assert handed + data + [] == handed;
        Again();
      }
    }

    // Bytes held back or none at all, the backend is given no bytes once more.
    method Again()
      requires Served() && Open([]) && backend != null
      modifies this`handed, Footprint()
      ensures Served() && Open([]) && handed == old(handed) && backend.Flushed(old(backend.Tries()))
    {
      Hand([]);
      assert handed == old(handed);
    }

    // Waiting with a UDP target: only for the socket.
    method ForwardUdp(buffer: seq<Byte>, setup: Setup)
      requires Open(buffer) && !panicked && phase.DnsWait? && command != CONNECT
      modifies this`phase, this`backend, this`handed, this`failed, this`proxy
      ensures Served() && Open([]) && OnlyDnsHolds()
      ensures proxy == if !setup.SetupOk? then AfterShutdown(old(proxy)) else old(proxy)
    {
      assert handed + data + buffer == handed + buffer + [] + [];
      var ok := TrySetupUdpTarget(setup);
      if !ok {
        failed := true;
        return;
      }
      phase := UDPForward;
      if backend != null { Hand(buffer); } else { failed := true; }
    }

    // `Backend::dispatch`
    method Hand(buffer: seq<Byte>)
      requires Served() && backend != null && (buffer == [] || Takes())
      modifies this`handed, Footprint()
      ensures Served() && handed == old(handed) + buffer && backend.Flushed(old(backend.Tries()))
    {
      backend.Dispatch(buffer);
      handed := handed + buffer;
    }

    method TrySetupTcpTarget(setup: Setup) returns (ok: bool)
      requires targetAddr.Some? && backend == null && handed == []
      modifies this`data, this`handed, this`backend, this`proxy, this`failed
      ensures Served() && ok == !setup.OpenError?
      ensures if setup.SetupOk? then
          && backend != null && backend.target == targetAddr && fresh(Footprint())
          && proxy == old(proxy) && data == [] && handed == old(data)
        else backend == null && data == old(data) && handed == [] && proxy == AfterShutdown(old(proxy))
      ensures failed == (old(failed) || setup.RegisterError?)
    {
      ok := !setup.OpenError?;
      if setup.SetupOk? {
        var added := new Backend.Tcp(targetAddr.value, text, setup.tcp);
        if data != [] {
          added.Dispatch(data);
          handed := data;
          data := [];
        }
        backend := added;
      } else {
        proxy, failed := AfterShutdown(proxy), failed || setup.RegisterError?;
      }
    }

    method TrySetupUdpTarget(setup: Setup) returns (ok: bool)
      requires backend == null && handed == []
      modifies this`backend, this`proxy
      ensures Served() && ok == !setup.OpenError?
      ensures if setup.SetupOk? then
          backend != null && backend.target.None? && fresh(Footprint()) && Takes() && proxy == old(proxy)
        else backend == null && proxy == AfterShutdown(old(proxy))
    {
      ok := !setup.OpenError?;
      if setup.SetupOk? {
        backend := new Backend.Udp(text, setup.udp);
      } else {
        proxy := AfterShutdown(proxy);
      }
    }

    // `try_resolve`: the only dispatch without resolver, and never in the handshake.
    method TryResolve(ip: Option<Ip>, setup: Setup)
      requires Valid() && !panicked
      modifies this, Footprint()
      ensures Valid() && !panicked && (old(readProxy) == readProxy)
      ensures PhaseRank(old(phase)) <= PhaseRank(phase) && Rank(old(proxy)) <= Rank(proxy)
      ensures old(handed) <= handed && first == old(first) && later == old(later)
      ensures !old(phase).DnsWait? ==> phase == old(phase) && proxy == old(proxy) && handed == old(handed)
      ensures sock5Addr == old(sock5Addr)
      ensures proxy == if old(phase).DnsWait? && sock5Addr.Domain? && (ip.None? || !setup.SetupOk?)
        then AfterShutdown(old(proxy)) else old(proxy)
      ensures old(phase).DnsWait? && sock5Addr.Domain? && ip.Some? ==>
        targetAddr == Some(NewSocketAddr(ip.value, sock5Addr.port))
    {
      if phase.DnsWait? {
        match sock5Addr {
          case Domain(_, port) =>
            if ip.Some? {
              targetAddr := Some(NewSocketAddr(ip.value, port));
              resolved := ip;
              assert later + [] == later;
              Dispatch([], None, setup);
            } else {
              proxy := AfterShutdown(proxy);
            }
          case _ =>
        }
      }
    }

    // `try_read_proxy`: chunk is what `do_read` returns ([] for None), broke that it
    // shut the proxy connection down on the way.
    method TryReadProxy(chunk: seq<Byte>, broke: bool, resolver: Option<Option<Ip>>, setup: Setup)
      requires Valid() && !panicked && (chunk == [] || Takes())
      requires phase.HandShake? ==> resolver.Some?
      modifies this, Footprint()
      ensures Valid() && old(readProxy) == readProxy
      ensures panicked ==> old(phase).HandShake? && parse(chunk).Panic?
      ensures PhaseRank(old(phase)) <= PhaseRank(phase) && Rank(old(proxy)) <= Rank(proxy)
      ensures !panicked ==> old(handed) <= handed
      ensures first + later == old(first) + old(later) + chunk
      ensures proxy ==
        if broke || (chunk != [] && !panicked && PhaseRank(old(phase)) < 2 && Ready() && !setup.SetupOk?)
        then AfterShutdown(old(proxy)) else old(proxy)
    {
      if broke { proxy := AfterShutdown(proxy); }
      if chunk != [] {
        Dispatch(chunk, resolver, setup);
        assert old(first) + (old(later) + chunk) == old(first) + old(later) + chunk;
      }
    }

    // `ready`, as the event loop of src/server/tls_server.rs calls it: network events
    // come with the resolver, DNS answers without.  `got` is whether it reads from the
    // proxy.
    method OnEvent(e: Event, setup: Setup) returns (ghost got: bool)
      requires Valid() && !panicked
      modifies this, Footprint()
      ensures Valid()
      ensures panicked ==> old(phase).HandShake? && e.ProxyReadable? && parse(e.chunk).Panic?
      ensures PhaseRank(old(phase)) <= PhaseRank(phase) && Rank(old(proxy)) <= Rank(proxy)
      ensures !panicked ==> old(handed) <= handed
      ensures !panicked && !phase.HandShake? ==> AsAsked() && (!IsShutdown(proxy) ==> !failed)
      // it reads exactly if the backend can take more, and remembers otherwise
      ensures match e
        case ProxyReadable(alive, _, _, _) =>
          got == (old(backend) == null || (alive && old(backend.CanTake()))) && readProxy == (old(readProxy) || !got)
        case BackendWritable(alive, _, _, _) =>
          && (got ==> old(Wants()) && alive) && readProxy == (old(readProxy) && !got)
          && (old(Wants()) && alive && !got ==> backend != null && !backend.CanTake())
          && (old(Forwards()) && !got ==> backend != null && backend.Flushed(old(backend.Tries())))
        case DnsAnswer(_) => !got && readProxy == old(readProxy)
      ensures first + later == old(first) + old(later) + if got then e.chunk else []
      // the proxy is shut down exactly if the read breaks, the name has no address or
      // setting up the backend fails
      ensures proxy == if match e
          case DnsAnswer(ip) => old(phase).DnsWait? && old(sock5Addr).Domain? && (ip.None? || !setup.SetupOk?)
          case _ =>
            got && (e.broke || (e.chunk != [] && !panicked && PhaseRank(old(phase)) < 2 && Ready() && !setup.SetupOk?))
        then AfterShutdown(old(proxy)) else old(proxy)
    {
      got := false;
      match e {
        case ProxyReadable(alive, chunk, broke, cached) =>
          got := OnReadable(alive, chunk, broke, cached, setup);
        case BackendWritable(alive, chunk, broke, cached) =>
          if PhaseRank(phase) == 2 && backend != null {
            got := OnWritable(alive, chunk, broke, cached, setup);
          }
        case DnsAnswer(ip) => TryResolve(ip, setup);
      }
      if !panicked && !phase.HandShake? { Meaning(); }
    }

    ghost predicate Forwards()
      reads this
    {
      PhaseRank(phase) == 2 && backend != null
    }

    // A read was put off until the backend is writable.
    ghost predicate Wants()
      reads this
    {
      Forwards() && readProxy
    }

    // Past the handshake: what was passed on or is held back, where to, and what is waited
    // for, by what the first chunk was.  A chunk that is no request goes, whole, to the
    // default address; of a request only the payload is passed on.
    ghost predicate AsAsked()
      reads this
    {
      var waiting := phase.DnsWait? && !IsShutdown(proxy);
      match parse(first)
      case Panic => false
      case Nothing =>
        && (!failed ==> handed + data == first + later)
        && (backend != null ==> backend.target.Some? && backend.target == backAddr)
        && (waiting ==> backAddr.None?)
      case Just(r) =>
        && (!failed ==> handed + data == r.payload + later)
        && (backend != null ==> (backend.target.Some? <==> r.command == 1))
        && (waiting ==> r.command == 1)
        && (r.command == 1 ==>
             match r.address
             case Socket(a) => !waiting && (backend != null ==> backend.target == Some(a))
             case Domain(name, port) =>
               && (waiting ==> resolved.None? && name in lookups)
               && (backend != null ==> resolved.Some? && backend.target == Some(
                    match resolved.value
                    case Ip4(octets) => V4(octets, port)
                    case Ip6(segments) => V6(segments, port, 0, 0)))
             case NoAddress => (waiting ==> backAddr.None?) && (backend != null ==> backend.target == backAddr))
    }

    lemma Meaning()
      requires Valid() && !panicked && !phase.HandShake?
      ensures AsAsked() && (!IsShutdown(proxy) ==> !failed)
    {
      assert handed + data + [] == handed + data;
    }

    // From the first chunk to what the target's socket took, whatever failed since; for
    // TCP always, for UDP unless opening the socket failed before.
    lemma Deliver()
      requires Valid() && !panicked && !failed && backend != null
      ensures backend.Delivered((match parse(first) case Just(r) => r.payload case _ => first) + later)
    {
      Meaning();
      backend.ValidDelivers();
      assert handed + data == handed;
    }

    // The proxy connection became readable.
    method OnReadable(alive: bool, chunk: seq<Byte>, broke: bool, cached: Option<Ip>, setup: Setup)
      returns (ghost got: bool)
      requires Valid() && !panicked
      modifies this, Footprint()
      ensures Valid() && (panicked ==> old(phase).HandShake? && parse(chunk).Panic?)
      ensures PhaseRank(old(phase)) <= PhaseRank(phase) && Rank(old(proxy)) <= Rank(proxy)
      ensures !panicked ==> old(handed) <= handed
      ensures got == (old(backend) == null || (alive && old(backend.CanTake())))
      ensures readProxy == (old(readProxy) || !got)
      ensures first + later == old(first) + old(later) + if got then chunk else []
      ensures proxy ==
        if got && (broke || (chunk != [] && !panicked && PhaseRank(old(phase)) < 2 && Ready() && !setup.SetupOk?))
        then AfterShutdown(old(proxy)) else old(proxy)
    {
      got := false;
      var writable := true;
      if backend != null {
        writable := backend.Writable();
        writable := writable && alive;
      }
      if writable {
        got := true;
        TryReadProxy(chunk, broke, Some(cached), setup);
      } else {
        readProxy := true;
      }
    }

    // The backend's socket became writable.
    method OnWritable(alive: bool, chunk: seq<Byte>, broke: bool, cached: Option<Ip>, setup: Setup)
      returns (ghost got: bool)
      requires Valid() && !panicked && PhaseRank(phase) == 2 && backend != null
      modifies this, Footprint()
      ensures Valid() && !panicked && PhaseRank(phase) == 2 && old(handed) <= handed
      ensures !got ==> backend == old(backend) && backend.Flushed(old(backend.Tries()))
      ensures (got ==> old(readProxy) && alive) && readProxy == (old(readProxy) && !got)
      ensures old(readProxy) && alive && !got ==> !backend.CanTake()
      ensures first + later == old(first) + old(later) + if got then chunk else []
      ensures proxy == if got && broke then AfterShutdown(old(proxy)) else old(proxy)
    {
      got := false;
      Again();
      var writable := backend.Writable();
      if writable && alive && readProxy {
        got := true;
        ReadAgain(chunk, broke, cached, setup);
      }
    }

    // The read that was put off.
    method ReadAgain(chunk: seq<Byte>, broke: bool, cached: Option<Ip>, setup: Setup)
      requires Valid() && !panicked && PhaseRank(phase) == 2 && backend != null && Takes()
      modifies this, Footprint()
      ensures Valid() && !panicked && PhaseRank(phase) == 2 && old(handed) <= handed && !readProxy
      ensures first + later == old(first) + old(later) + chunk
      ensures proxy == if broke then AfterShutdown(old(proxy)) else old(proxy)
    {
      TryReadProxy(chunk, broke, Some(cached), setup);
      readProxy := false;
    }
  }

  // What the event loop delivers; alive is false once the backend was shut down while
  // reading, chunk and broke are what reading from the proxy gives if it comes to that.
  datatype Event =
    | ProxyReadable(alive: bool, chunk: seq<Byte>, broke: bool, cached: Option<Ip>)
    | BackendWritable(alive: bool, chunk: seq<Byte>, broke: bool, cached: Option<Ip>)
    | DnsAnswer(ip: Option<Ip>)
}
