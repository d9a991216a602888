// `UdpServer` of src/wintun/udp.rs: two indexes over the same connections and a count
// of users for every local socket.
module TunUdpServer {
  import opened Common

  type Token = nat
  type Handle = nat
  type Endpoint = nat

  class Connection {
    const token: Token
    const local: Handle
    const endpoint: Endpoint
    var rclosed: bool

    constructor (token: Token, local: Handle, endpoint: Endpoint)
      ensures this.token == token && this.local == local && this.endpoint == endpoint && !rclosed
    {
      this.token, this.local, this.endpoint, rclosed := token, local, endpoint, false;
    }
  }

  // A datagram from the tun device: who sent it, what next_token gives should a
  // connection be created for it, and whether relaying it closes the connection.
  datatype Datagram = Datagram(source: Endpoint, token: Token, closes: bool)

  datatype HandleInfo = HandleInfo(lastActive: int, users: nat)

  type ByToken = map<Token, Connection>
  type ByAddr = map<Endpoint, Connection>

  // Both indexes hold the same connections, each under its own key.
  ghost predicate Agree(t2c: ByToken, a2c: ByAddr) {
    && (forall t :: t in t2c ==> t2c[t].token == t && t2c[t].endpoint in a2c && a2c[t2c[t].endpoint] == t2c[t])
    && (forall a :: a in a2c ==> a2c[a].endpoint == a && a2c[a].token in t2c && t2c[a2c[a].token] == a2c[a])
  }

  // The live connections that use a socket.
  ghost function Users(t2c: ByToken, h: Handle): set<Token> {
    set t | t in t2c && t2c[t].local == h
  }

  ghost predicate Counted(t2c: ByToken, handles: map<Handle, HandleInfo>) {
    && (forall t :: t in t2c ==> t2c[t].local in handles)
    && (forall h :: h in handles ==> handles[h].users == |Users(t2c, h)|)
  }

  ghost predicate InStep(t2c: ByToken, a2c: ByAddr, handles: map<Handle, HandleInfo>, repr: set<Connection>) {
    Agree(t2c, a2c) && Counted(t2c, handles) && Placed(a2c, repr)
  }

  ghost predicate Placed(a2c: ByAddr, repr: set<Connection>) {
    forall a :: a in a2c ==> a2c[a] in repr && a2c[a].endpoint == a
  }

  // Known senders keep their connection, new ones get one for the socket.
  ghost predicate Grown(was: ByAddr, now: ByAddr, handle: Handle, sources: set<Endpoint>) {
    now.Keys == was.Keys + sources
    && forall a :: a in now ==> if a in was then now[a] == was[a] else now[a].local == handle
  }

  ghost predicate OneMore(was: ByAddr, now: ByAddr, handle: Handle, source: Endpoint) {
    && source in now
    && if source in was then now == was else now == was[source := now[source]] && now[source].local == handle
  }

  lemma GrownNext(was: ByAddr, before: ByAddr, now: ByAddr, handle: Handle, sources: set<Endpoint>, source: Endpoint)
    requires Grown(was, before, handle, sources) && OneMore(before, now, handle, source)
    ensures Grown(was, now, handle, sources + {source})
  {}

  // The senders of the first n datagrams, and of those whose relaying closes the connection.
  function Sources(datagrams: seq<Datagram>, n: nat): set<Endpoint>
    requires n <= |datagrams|
  {
    set k | 0 <= k < n :: datagrams[k].source
  }

  function Closers(datagrams: seq<Datagram>, n: nat): set<Endpoint>
    requires n <= |datagrams|
  {
    set k | 0 <= k < n && datagrams[k].closes :: datagrams[k].source
  }

  lemma SourcesNext(datagrams: seq<Datagram>, n: nat)
    requires n < |datagrams|
    ensures Sources(datagrams, n + 1) == Sources(datagrams, n) + {datagrams[n].source}
  {}

  lemma ClosersNext(datagrams: seq<Datagram>, n: nat)
    requires n < |datagrams|
    ensures Closers(datagrams, n + 1)
      == Closers(datagrams, n) + if datagrams[n].closes then {datagrams[n].source} else {}
  {}

  ghost function Tokens(a2c: ByAddr, endpoints: set<Endpoint>): set<Token> {
    set a | a in endpoints && a in a2c :: a2c[a].token
  }

  // What handling one more datagram does to the connections by sender, to the senders
  // whose connections are closed and to the tokens marked for removal.
  ghost predicate Stepped(before: ByAddr, now: ByAddr, closed: set<Endpoint>, closed': set<Endpoint>,
                          removed: set<Token>, removed': set<Token>, handle: Handle, d: Datagram) {
    && OneMore(before, now, handle, d.source)
    && closed' == closed + (if d.closes then {d.source} else {})
    && removed' == removed + if d.source in closed' then {now[d.source].token} else {}
  }

  // And n datagrams: known senders keep their connection, new ones get one, and exactly
  // the connections of their senders that are closed by then are marked.
  ghost predicate Handled(was: ByAddr, now: ByAddr, closed: set<Endpoint>, closed': set<Endpoint>,
                          removed: set<Token>, removed': set<Token>, handle: Handle, datagrams: seq<Datagram>, n: nat)
    requires n <= |datagrams|
  {
    && Grown(was, now, handle, Sources(datagrams, n))
    && closed' == closed + Closers(datagrams, n)
    && removed' == removed + Tokens(now, Sources(datagrams, n) * closed')
  }

  ghost predicate HandledOne(was: ByAddr, now: ByAddr, closed: set<Endpoint>, removed: set<Token>,
                             handle: Handle, d: Datagram) {
    && d.source in now && (d.closes ==> d.source in closed)
    && (d.source in closed ==> now[d.source].token in removed)
    && if d.source in was then now[d.source] == was[d.source] else now[d.source].local == handle
  }

  lemma OneOfHandled(was: ByAddr, now: ByAddr, closed: set<Endpoint>, closed': set<Endpoint>,
                     removed: set<Token>, removed': set<Token>, handle: Handle, datagrams: seq<Datagram>, i: nat)
    requires i < |datagrams|
    requires Handled(was, now, closed, closed', removed, removed', handle, datagrams, |datagrams|)
    ensures HandledOne(was, now, closed', removed', handle, datagrams[i])
  {
    var s := datagrams[i].source;
    assert s in Sources(datagrams, |datagrams|);
    if datagrams[i].closes { assert s in Closers(datagrams, |datagrams|); }
    if s in closed' { assert s in Sources(datagrams, |datagrams|) * closed'; }
  }

  lemma HandledNone(now: ByAddr, closed: set<Endpoint>, removed: set<Token>, handle: Handle, datagrams: seq<Datagram>)
    ensures Handled(now, now, closed, closed, removed, removed, handle, datagrams, 0)
  {
    assert Sources(datagrams, 0) * closed == {};
  }

  lemma HandledNext(was: ByAddr, before: ByAddr, now: ByAddr,
                    closed: set<Endpoint>, closed': set<Endpoint>, closed'': set<Endpoint>,
                    removed: set<Token>, removed': set<Token>, removed'': set<Token>,
                    handle: Handle, datagrams: seq<Datagram>, n: nat)
    requires n < |datagrams|
    requires Handled(was, before, closed, closed', removed, removed', handle, datagrams, n)
    requires Stepped(before, now, closed', closed'', removed', removed'', handle, datagrams[n])
    ensures Handled(was, now, closed, closed'', removed, removed'', handle, datagrams, n + 1)
  {
    SourcesNext(datagrams, n);
    ClosersNext(datagrams, n);
    GrownNext(was, before, now, handle, Sources(datagrams, n), datagrams[n].source);
    MarkNext(before, now, handle, Sources(datagrams, n), closed', closed'', datagrams[n].source);
  }

  // Marking the connection of one more datagram if it is closed by now.
  lemma MarkNext(before: ByAddr, now: ByAddr, handle: Handle, sources: set<Endpoint>, closed: set<Endpoint>,
                 closed': set<Endpoint>, source: Endpoint)
    requires OneMore(before, now, handle, source) && sources <= before.Keys
    requires closed <= closed' <= closed + {source}
    ensures Tokens(now, (sources + {source}) * closed')
      == Tokens(before, sources * closed) + if source in closed' then {now[source].token} else {}
  {
    var s, t := Tokens(now, (sources + {source}) * closed'), Tokens(before, sources * closed);
    forall a | a in sources * closed ensures before[a].token in s {
      assert a in (sources + {source}) * closed' && now[a] == before[a];
    }
    forall a | a in (sources + {source}) * closed' && a != source ensures now[a].token in t {
      assert a in sources * closed && before[a] == now[a];
    }
  }

  // From the i-th datagram on, a new sender comes with a token that no live connection has.
  predicate FreshTokens(known: set<Endpoint>, used: set<Token>, datagrams: seq<Datagram>, i: nat)
    requires i <= |datagrams|
    decreases |datagrams| - i
  {
    if i == |datagrams| then true else
    var d := datagrams[i];
    if d.source in known then FreshTokens(known, used, datagrams, i + 1)
    else d.token !in used && FreshTokens(known + {d.source}, used + {d.token}, datagrams, i + 1)
  }

  lemma FreshNext(before: ByAddr, now: ByAddr, handle: Handle, used: set<Token>, used': set<Token>,
                  datagrams: seq<Datagram>, i: nat)
    requires i < |datagrams| && FreshTokens(before.Keys, used, datagrams, i)
    requires OneMore(before, now, handle, datagrams[i].source)
    requires used' == if datagrams[i].source in before then used else used + {datagrams[i].token}
    ensures FreshTokens(now.Keys, used', datagrams, i + 1)
  {
    assert now.Keys == before.Keys + {datagrams[i].source};
    if datagrams[i].source in before { assert now.Keys == before.Keys; }
  }

  // A new connection under a fresh token keeps the indexes in step; under the token of
  // a live connection it does not.
  lemma AgreeAdd(t2c: ByToken, a2c: ByAddr, c: Connection)
    requires Agree(t2c, a2c) && c.endpoint !in a2c
    ensures if c.token in t2c then !Agree(t2c, a2c[c.endpoint := c]) else Agree(t2c[c.token := c], a2c[c.endpoint := c])
  {
    if c.token in t2c {
      var b := a2c[c.endpoint := c];
      assert b[c.endpoint] == c;
    }
  }

  lemma AgreeRemove(t2c: ByToken, a2c: ByAddr, t: Token)
    requires Agree(t2c, a2c) && t in t2c
    ensures Agree(t2c - {t}, a2c - {t2c[t].endpoint})
  {}

  lemma UsersAdd(t2c: ByToken, c: Connection, h: Handle)
    requires c.token !in t2c
    ensures |Users(t2c[c.token := c], h)| == |Users(t2c, h)| + if c.local == h then 1 else 0
  {
    if c.local == h { assert Users(t2c[c.token := c], h) == Users(t2c, h) + {c.token}; }
    else { assert Users(t2c[c.token := c], h) == Users(t2c, h); }
  }

  lemma UsersRemove(t2c: ByToken, t: Token, h: Handle)
    requires t in t2c
    ensures |Users(t2c, h)| == |Users(t2c - {t}, h)| + if t2c[t].local == h then 1 else 0
  {
    if t2c[t].local == h { assert Users(t2c, h) == Users(t2c - {t}, h) + {t}; }
    else { assert Users(t2c, h) == Users(t2c - {t}, h); }
  }

  // The same sockets, active when they were.
  ghost predicate SameActivity(before: map<Handle, HandleInfo>, now: map<Handle, HandleInfo>) {
    now.Keys == before.Keys && forall h :: h in before ==> now[h].lastActive == before[h].lastActive
  }

  lemma CountedAdd(t2c: ByToken, handles: map<Handle, HandleInfo>, c: Connection)
    requires Counted(t2c, handles) && c.local in handles && c.token !in t2c
    ensures Counted(t2c[c.token := c], handles[c.local := handles[c.local].(users := handles[c.local].users + 1)])
  {
    forall h | h in handles
      ensures |Users(t2c[c.token := c], h)| == |Users(t2c, h)| + if c.local == h then 1 else 0
    {
      UsersAdd(t2c, c, h);
    }
  }

  lemma CountedRemove(t2c: ByToken, handles: map<Handle, HandleInfo>, t: Token)
    requires Counted(t2c, handles) && t in t2c
    ensures var l := t2c[t].local;
      && l in handles && handles[l].users > 0
      && Counted(t2c - {t}, handles[l := handles[l].(users := handles[l].users - 1)])
  {
    forall h | h in handles
      ensures |Users(t2c, h)| == |Users(t2c - {t}, h)| + if t2c[t].local == h then 1 else 0
    {
      UsersRemove(t2c, t, h);
    }
  }

  // The state after creating a connection, the way `do_local` does it.
  lemma CreateStep(t2c: ByToken, a2c: ByAddr, handles: map<Handle, HandleInfo>, repr: set<Connection>,
                   c: Connection, t2c': ByToken, a2c': ByAddr, handles': map<Handle, HandleInfo>)
    requires InStep(t2c, a2c, handles, repr) && c.local in handles && c.endpoint !in a2c
    requires a2c' == a2c[c.endpoint := c] && t2c' == if c.token in t2c then t2c else t2c[c.token := c]
    requires handles' == handles[c.local := handles[c.local].(users := handles[c.local].users + 1)]
    ensures InStep(t2c', a2c', handles', repr + {c}) <==> c.token !in t2c
    ensures t2c'.Keys == t2c.Keys + {c.token} && SameActivity(handles, handles')
  {
    AgreeAdd(t2c, a2c, c);
    if c.token !in t2c { CountedAdd(t2c, handles, c); }
  }

  // The state after removing one, the way `remove_closed` does it.
  lemma DropStep(t2c: ByToken, a2c: ByAddr, handles: map<Handle, HandleInfo>, repr: set<Connection>,
                 t: Token, t2c': ByToken, a2c': ByAddr, handles': map<Handle, HandleInfo>)
    requires InStep(t2c, a2c, handles, repr) && t in t2c && t2c[t].local in handles && handles[t2c[t].local].users > 0
    requires a2c' == a2c - {t2c[t].endpoint} && t2c' == t2c - {t}
    requires var l := t2c[t].local; handles' == handles[l := handles[l].(users := handles[l].users - 1)]
    ensures InStep(t2c', a2c', handles', repr) && SameActivity(handles, handles')
  {
    AgreeRemove(t2c, a2c, t);
    CountedRemove(t2c, handles, t);
  }

  // The connections left when some of those marked are still to do.
  ghost predicate Dropped(was: ByToken, now: ByToken, removed: set<Token>, todo: set<Token>) {
    now == was - (removed - todo)
  }

  lemma RemoveStep(was: ByToken, now: ByToken, removed: set<Token>, todo: set<Token>, t: Token)
    requires t in todo && todo <= removed && Dropped(was, now, removed, todo)
    ensures Dropped(was, now - {t}, removed, todo - {t})
  {}

  lemma DroppedAll(was: ByToken, now: ByToken, removed: set<Token>)
    requires Dropped(was, now, removed, {})
    ensures now == was - removed
  {}

  lemma CountedOpen(t2c: ByToken, handles: map<Handle, HandleInfo>, h: Handle, now: int)
    requires Counted(t2c, handles)
    ensures Counted(t2c, handles[h := if h in handles then handles[h].(lastActive := now) else HandleInfo(now, 0)])
  {
    if h !in handles { assert Users(t2c, h) == {}; }
  }

  lemma NoUsers(t2c: ByToken, handles: map<Handle, HandleInfo>, h: Handle)
    requires Counted(t2c, handles) && h in handles && handles[h].users == 0
    ensures forall t :: t in t2c ==> t2c[t].local != h
  {
    assert Users(t2c, h) == {};
    forall t | t in t2c ensures t2c[t].local != h {
      assert t in Users(t2c, h) <==> t2c[t].local == h;
    }
  }

  class UdpServer {
    var token2conns: ByToken
    var addr2conns: ByAddr
    var handles: map<Handle, HandleInfo>
    var removed: set<Token>
    // sockets closed and removed so far; the senders whose connections are closed; the
    // live connections
    ghost var closedSockets: set<Handle>
    ghost var closed: set<Endpoint>
    ghost var repr: set<Connection>

    ghost predicate InSync()
      reads this
    {
      InStep(token2conns, addr2conns, handles, repr)
    }

    ghost predicate ClosedKnown()
      reads this, repr
    {
      && closed <= addr2conns.Keys
      && forall a :: a in addr2conns && addr2conns[a] in repr ==> (a in closed <==> addr2conns[a].rclosed)
    }

    ghost predicate Valid()
      reads this, repr
    {
      InSync() && ClosedKnown()
    }

    constructor ()
      ensures Valid() && token2conns == map[] && handles == map[] && removed == {} && fresh(repr)
    {
      token2conns, addr2conns, handles, removed, closedSockets, closed, repr := map[], map[], map[], {}, {}, {}, {};
    }

    // The body of the inner loop of `do_local`.  The indexes keep agreeing exactly when
    // no connection is created under the token of a live one.
    method OnDatagram(handle: Handle, d: Datagram)
      requires Valid() && handle in handles
      modifies this`token2conns, this`addr2conns, this`handles, this`removed, this`closed, this`repr, repr
      ensures ClosedKnown() && (InSync() <==> d.source in old(addr2conns) || d.token !in old(token2conns))
      ensures SameActivity(old(handles), handles) && old(repr) <= repr && fresh(repr - old(repr))
      ensures Stepped(old(addr2conns), addr2conns, old(closed), closed, old(removed), removed, handle, d)
      ensures if d.source in old(addr2conns) then token2conns == old(token2conns) && handles == old(handles)
              else token2conns.Keys == old(token2conns.Keys) + {d.token}
    {
      if d.source !in addr2conns { Create(handle, d); }
      Mark(d.source, d.closes);
    }

    // Relaying on the connection of the sender, as far as it closes the connection.
    method Mark(source: Endpoint, closes: bool)
      requires Placed(addr2conns, repr) && ClosedKnown() && source in addr2conns
      modifies this`removed, this`closed, repr
      ensures ClosedKnown() && closed == old(closed) + if closes then {source} else {}
      ensures removed == old(removed) + if source in closed then {addr2conns[source].token} else {}
    {
      var conn := addr2conns[source];
      if closes {
        conn.rclosed := true;
        closed := closed + {source};
      }
      if conn.rclosed { removed := removed + {conn.token}; }
    }

    // The new connection of `or_insert_with`,
    method Create(handle: Handle, d: Datagram)
      requires Valid() && handle in handles && d.source !in addr2conns
      modifies this`token2conns, this`addr2conns, this`handles, this`repr
      ensures InSync() <==> d.token !in old(token2conns)
      ensures Placed(addr2conns, repr) && ClosedKnown()
      ensures OneMore(old(addr2conns), addr2conns, handle, d.source) && fresh(addr2conns[d.source])
      ensures repr == old(repr) + {addr2conns[d.source]}
      ensures SameActivity(old(handles), handles) && token2conns.Keys == old(token2conns.Keys) + {d.token}
    {
      var conn := new Connection(d.token, handle, d.source);
      Insert(conn);
    }

    // and where it goes.
    method Insert(conn: Connection)
      requires InSync() && conn.local in handles && conn.endpoint !in addr2conns
      modifies this`token2conns, this`addr2conns, this`handles, this`repr
      ensures InSync() <==> conn.token !in old(token2conns)
      ensures addr2conns == old(addr2conns)[conn.endpoint := conn] && repr == old(repr) + {conn}
      ensures SameActivity(old(handles), handles) && token2conns.Keys == old(token2conns.Keys) + {conn.token}
    {
      handles := handles[conn.local := handles[conn.local].(users := handles[conn.local].users + 1)];
      addr2conns, repr := addr2conns[conn.endpoint := conn], repr + {conn};
      if conn.token !in token2conns { token2conns := token2conns[conn.token := conn]; }
      CreateStep(old(token2conns), old(addr2conns), old(handles), old(repr), conn, token2conns, addr2conns, handles);
    }

    // One event of `do_local`: all datagrams of a socket.  Exactly the connections of
    // their senders that are closed by then are marked for removal.
    method OnHandle(handle: Handle, datagrams: seq<Datagram>, now: int)
      requires Valid() && FreshTokens(addr2conns.Keys, token2conns.Keys, datagrams, 0)
      modifies this, repr
      ensures Valid() && handles.Keys == old(handles.Keys) + {handle} && handles[handle].lastActive == now
      ensures forall h :: h in old(handles) && h != handle ==> handles[h].lastActive == old(handles)[h].lastActive
      ensures Handled(old(addr2conns), addr2conns, old(closed), closed, old(removed), removed,
                      handle, datagrams, |datagrams|)
      // each datagram one by one
      ensures forall i :: 0 <= i < |datagrams| ==>
        var d := datagrams[i];
        && d.source in addr2conns && (d.closes ==> d.source in closed)
        && (d.source in closed ==> addr2conns[d.source].rclosed && addr2conns[d.source].token in removed)
        && (if d.source in old(addr2conns) then addr2conns[d.source] == old(addr2conns[d.source])
            else addr2conns[d.source].local == handle)
    {
      ghost var was, wasClosed, marked := addr2conns, closed, removed;
      Touch(handle, now);
      HandleAll(handle, datagrams);
      forall i | 0 <= i < |datagrams| ensures HandledOne(was, addr2conns, closed, removed, handle, datagrams[i]) {
        OneOfHandled(was, addr2conns, wasClosed, closed, marked, removed, handle, datagrams, i);
      }
    }

    method HandleAll(handle: Handle, datagrams: seq<Datagram>)
      requires Valid() && handle in handles && FreshTokens(addr2conns.Keys, token2conns.Keys, datagrams, 0)
      modifies this`token2conns, this`addr2conns, this`handles, this`removed, this`closed, this`repr, repr
      ensures Valid() && SameActivity(old(handles), handles)
      ensures Handled(old(addr2conns), addr2conns, old(closed), closed, old(removed), removed,
                      handle, datagrams, |datagrams|)
    {
      ghost var was, wasClosed, marked := addr2conns, closed, removed;
      HandledNone(was, wasClosed, marked, handle, datagrams);
      for i := 0 to |datagrams|
        invariant Valid() && SameActivity(old(handles), handles) && handle in handles
        invariant FreshTokens(addr2conns.Keys, token2conns.Keys, datagrams, i)
        invariant Handled(was, addr2conns, wasClosed, closed, marked, removed, handle, datagrams, i)
        invariant old(repr) <= repr && fresh(repr - old(repr))
      {
        HandleNext(handle, datagrams, i, was, wasClosed, marked);
      }
    }

    method HandleNext(handle: Handle, datagrams: seq<Datagram>, i: nat,
                      ghost was: ByAddr, ghost wasClosed: set<Endpoint>, ghost marked: set<Token>)
      requires Valid() && handle in handles && i < |datagrams|
      requires FreshTokens(addr2conns.Keys, token2conns.Keys, datagrams, i)
      requires Handled(was, addr2conns, wasClosed, closed, marked, removed, handle, datagrams, i)
      modifies this`token2conns, this`addr2conns, this`handles, this`removed, this`closed, this`repr, repr
      ensures Valid() && SameActivity(old(handles), handles) && old(repr) <= repr && fresh(repr - old(repr))
      ensures FreshTokens(addr2conns.Keys, token2conns.Keys, datagrams, i + 1)
      ensures Handled(was, addr2conns, wasClosed, closed, marked, removed, handle, datagrams, i + 1)
    {
      ghost var before, closed', marked', used := addr2conns, closed, removed, token2conns.Keys;
      OnDatagram(handle, datagrams[i]);
      FreshNext(before, addr2conns, handle, used, token2conns.Keys, datagrams, i);
      HandledNext(was, before, addr2conns, wasClosed, closed', closed, marked, marked', removed, handle, datagrams, i);
    }

    // The entry of the socket: there is one now, active now, with its users unchanged.
    method Touch(handle: Handle, now: int)
      requires Valid()
      modifies this`handles
      ensures Valid() && handles.Keys == old(handles.Keys) + {handle} && handles[handle].lastActive == now
      ensures forall h :: h in old(handles) && h != handle ==> handles[h] == old(handles)[h]
    {
      CountedOpen(token2conns, handles, handle, now);
      var info := if handle in handles then handles[handle] else HandleInfo(now, 0);
      handles := handles[handle := info.(lastActive := now)];
    }

    // `do_remote`, as far as the indexes are concerned.
    method OnRemote(token: Token, closes: bool)
      requires Valid()
      modifies this`removed, this`closed, repr
      ensures Valid()
      ensures closed == old(closed) + if token in token2conns && closes then {token2conns[token].endpoint} else {}
      ensures removed == old(removed) + if token in token2conns && token2conns[token].rclosed then {token} else {}
    {
      if token in token2conns {
        var conn := token2conns[token];
        if closes {
          conn.rclosed := true;
          closed := closed + {conn.endpoint};
        }
        if conn.rclosed { removed := removed + {conn.token}; }
      }
    }

    // Takes the closed connections out of both indexes; the count of a socket never
    // goes below zero.
    method RemoveClosed()
      requires Valid()
      modifies this`token2conns, this`addr2conns, this`handles, this`removed, this`closed
      ensures Valid() && removed == {} && SameActivity(old(handles), handles)
      ensures token2conns == old(token2conns) - old(removed)
    {
      var todo := removed;
      ghost var was := token2conns;
      while todo != {}
        invariant todo <= removed == old(removed) && Valid() && SameActivity(old(handles), handles)
        invariant Dropped(was, token2conns, removed, todo)
        decreases todo
      {
        var token :| token in todo;
        RemoveStep(was, token2conns, removed, todo, token);
        Remove(token);
        todo := todo - {token};
      }
      DroppedAll(was, token2conns, removed);
      removed := {};
    }

    // One round of the loop; a token without connection is skipped.
    method Remove(token: Token)
      requires Valid()
      modifies this`token2conns, this`addr2conns, this`handles, this`closed
      ensures Valid() && SameActivity(old(handles), handles)
      ensures token2conns == old(token2conns) - {token}
    {
      if token in token2conns {
        var conn := token2conns[token];
        CountedRemove(token2conns, handles, token);
        handles := handles[conn.local := handles[conn.local].(users := handles[conn.local].users - 1)];
        token2conns := token2conns - {conn.token};
        addr2conns, closed := addr2conns - {conn.endpoint}, closed - {conn.endpoint};
        DropStep(old(token2conns), old(addr2conns), old(handles), repr, token, token2conns, addr2conns, handles);
      }
    }

    // Closes the sockets idle for more than ten minutes that no connection uses.
    method CheckTimeout(now: int)
      requires Valid()
      modifies this`handles, this`closedSockets
      ensures Valid()
      ensures forall h :: h in old(handles) ==>
        (h !in handles <==> old(handles)[h].users == 0 && now - old(handles)[h].lastActive > 600)
      ensures forall h :: h in handles ==> h in old(handles) && handles[h] == old(handles)[h]
      ensures closedSockets == old(closedSockets) + (old(handles).Keys - handles.Keys)
      ensures forall h :: h in closedSockets - old(closedSockets) ==>
        forall t :: t in token2conns ==> token2conns[t].local != h
    {
      var conns := set h | h in handles && handles[h].users == 0 && now - handles[h].lastActive > 600;
      forall h | h in conns ensures forall t :: t in token2conns ==> token2conns[t].local != h {
        NoUsers(token2conns, handles, h);
      }
      closedSockets := closedSockets + conns;
      handles := handles - conns;
    }
  }
}
