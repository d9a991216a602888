// src/dns/server.rs: the relay itself, which keeps its cache and the set of routes in
// place.
module DnsServers {
  import opened Common
  import opened DnsCaches

  class DnsServer {
    const cfg: Config
    var store: map<Key, QueryResult>
    var routeAdded: set<U32>
    ghost var accepted: multiset<Entry>
    ghost var sent: seq<(Client, Message)>
    ghost var pointed: seq<Client>
    ghost var asked: seq<(bool, Query)>
    ghost var routes: seq<U32>

    ghost function State(): Cache
      reads this
    {
      Cache(store, accepted, sent, pointed, asked, routes)
    }

    ghost predicate RoutesKnown()
      reads this
    {
      forall a :: a in routeAdded <==> a in routes
    }

    ghost predicate Valid()
      reads this
    {
      Good(State()) && RoutesKnown()
    }

    constructor (cfg: Config)
      ensures Valid() && State() == EMPTY && this.cfg == cfg
    {
      this.cfg := cfg;
      store, routeAdded, accepted, sent, pointed, asked, routes := map[], {}, multiset{}, [], [], [], [];
    }

    // `dispatch_local`; false when the socket has to be registered again.
    method DispatchLocal(script: seq<LocalStep>, now: int) returns (ok: bool)
      requires Valid()
      modifies this
      ensures Valid() && Since(old(State()), State())
      ensures Ran(State(), ok, false) == LocalRun(cfg, old(State()), script, now)
      ensures ok <==> LocalError !in script
    {
      LocalRunKeeps(cfg, State(), script, now);
      LocalRunEnds(cfg, State(), script, now);
      ok := LocalLoop(script, now);
    }

    method LocalLoop(script: seq<LocalStep>, now: int) returns (ok: bool)
      requires RoutesKnown()
      modifies this`store, this`accepted, this`sent, this`pointed, this`asked
      ensures RoutesKnown() && Ran(State(), ok, false) == LocalRun(cfg, old(State()), script, now)
    {
      ghost var all := LocalRun(cfg, State(), script, now);
      for i := 0 to |script|
        invariant RoutesKnown() && LocalRun(cfg, State(), script[i..], now) == all
      {
        assert script[i..][0] == script[i] && script[i..][1..] == script[i + 1..];
        match script[i] {
          case LocalMessage(message, from, forwarded) =>
            if |message.queries| == 1 { OnQuery(message, from, forwarded, now); }
          case LocalGarbage =>
          case LocalReset =>
          case LocalError => return false;
        }
      }
      ok := true;
    }

    method OnQuery(message: Message, from: Client, forwarded: bool, now: int)
      requires |message.queries| == 1
      modifies this`store, this`accepted, this`sent, this`pointed, this`asked
      ensures State() == QueryStep(cfg, old(State()), message, from, forwarded, now)
    {
      var query := message.queries[0];
      if query.qtype == "PTR" && query.name == cfg.ptrName {
        pointed := pointed + [from];
      } else {
        OnKey(KeyOf(query), query, from, message.id, forwarded, now);
      }
    }

    method OnKey(key: Key, query: Query, from: Client, id: U16, forwarded: bool, now: int)
      modifies this`store, this`accepted, this`sent, this`asked
      ensures State() == KeyStep(cfg, old(State()), key, from, id,
                                 if forwarded then [(cfg.blocked(query.name), query)] else [], now)
    {
      var renew, respond := true, true;
      if key in store && store[key].response.Some? {
        AnswerFromCache(key, from, id);
        renew, respond := store[key].expire <= now, false;
      }
      if renew {
        var trusted := cfg.blocked(query.name);
        if !forwarded { return; }
        asked := asked + [(trusted, query)];
        if respond { AddRequest(key, from, id, now); }
      }
    }

    method AnswerFromCache(key: Key, from: Client, id: U16)
      requires key in store && store[key].response.Some?
      modifies this`store, this`accepted, this`sent
      ensures State() == FromCache(old(State()), key, from, id)
    {
      var reply := store[key].response.value.(id := id);
      store := store[key := store[key].(response := Some(reply))];
      sent := sent + [(from, reply)];
      accepted := accepted + multiset{Entry(key, from, id)};
    }

    method AddRequest(key: Key, address: Client, id: U16, now: int)
      modifies this`store, this`accepted
      ensures State() == Enqueue(cfg, old(State()), key, address, id, now)
    {
      var result := if key in store then store[key] else QueryResult([], None, now + cfg.cacheTime);
      store := store[key := result.(addresses := result.addresses + [(address, id)])];
      accepted := accepted + multiset{Entry(key, address, id)};
    }

    // `dispatch_server`; fromBlocked is true for the trusted upstream.  A message
    // without question stops the program at the index in `get_message_key`.
    method DispatchServer(script: seq<ServerStep>, fromBlocked: bool, now: int) returns (ok: bool, crashed: bool)
      requires Valid()
      modifies this`store, this`sent, this`routeAdded, this`routes
      ensures Valid() && Since(old(State()), State())
      ensures Ran(State(), ok, crashed) == ServerRun(cfg, old(State()), script, fromBlocked, now)
      ensures crashed <==> exists i :: CrashesAt(script, i)
    {
      ServerRunKeeps(cfg, State(), script, fromBlocked, now);
      ServerRunEnds(cfg, State(), script, fromBlocked, now);
      ok, crashed := ServerLoop(script, fromBlocked, now);
    }

    method ServerLoop(script: seq<ServerStep>, fromBlocked: bool, now: int) returns (ok: bool, crashed: bool)
      requires RoutesKnown()
      modifies this`store, this`sent, this`routeAdded, this`routes
      ensures RoutesKnown() && Ran(State(), ok, crashed) == ServerRun(cfg, old(State()), script, fromBlocked, now)
    {
      ghost var all := ServerRun(cfg, State(), script, fromBlocked, now);
      for i := 0 to |script|
        invariant RoutesKnown() && ServerRun(cfg, State(), script[i..], fromBlocked, now) == all
      {
        assert script[i..][0] == script[i] && script[i..][1..] == script[i + 1..];
        match script[i] {
          case ServerMessage(message, routed) =>
            if message.queries == [] { return false, true; }
            OnAnswer(message, routed, fromBlocked, now);
          case ServerGarbage =>
          case ServerReset =>
          case ServerError => return false, false;
        }
      }
      return true, false;
    }

    method OnAnswer(message0: Message, routed: seq<bool>, fromBlocked: bool, now: int)
      requires RoutesKnown() && message0.queries != []
      modifies this`store, this`sent, this`routeAdded, this`routes
      ensures RoutesKnown() && State() == AnswerStep(cfg, old(State()), message0, routed, fromBlocked, now)
    {
      var key := KeyOf(message0.queries[0]);
      if key !in store { return; }
      var message := ReplyAll(message0, store[key].addresses);
      var timeout := AddRoutes(message.answers, routed, fromBlocked);
      store := store[key := QueryResult([], Some(message), now + timeout)];
    }

    // The loop over the waiting clients.
    method ReplyAll(message0: Message, waiting: seq<(Client, U16)>) returns (message: Message)
      modifies this`sent
      ensures message == LastSent(message0, waiting) && sent == old(sent) + Replies(message0, waiting)
    {
      message := message0;
      for i := 0 to |waiting|
        invariant message == LastSent(message0, waiting[..i])
        invariant sent == old(sent) + Replies(message0, waiting[..i])
      {
        message := message.(id := waiting[i].1);
        sent := sent + [(waiting[i].0, message)];
      }
      assert waiting[..|waiting|] == waiting;
    }

    // The loop over the answers: a host route for every IPv4 answer about a blocked
    // domain, once; returns the time to live of the last answer.
    method AddRoutes(answers: seq<Answer>, routed: seq<bool>, fromBlocked: bool) returns (timeout: nat)
      requires RoutesKnown()
      modifies this`routeAdded, this`routes
      ensures RoutesKnown() && timeout == Ttl(answers)
      ensures routes == if cfg.addRoute && fromBlocked then WithRoutes(old(routes), answers, routed) else old(routes)
    {
      timeout := 0;
      for i := 0 to |answers|
        invariant RoutesKnown() && timeout == Ttl(answers[..i])
        invariant routes ==
          if cfg.addRoute && fromBlocked then WithRoutes(old(routes), answers[..i], routed) else old(routes)
      {
        assert answers[..i + 1][..i] == answers[..i];
        timeout := answers[i].ttl;
        match answers[i].ip4 {
          case Some(addr) =>
            if cfg.addRoute && fromBlocked && addr !in routeAdded && i < |routed| && routed[i] {
              routeAdded := routeAdded + {addr};
              routes := routes + [addr];
            }
          case None =>
        }
      }
      assert answers[..|answers|] == answers;
    }
  }
}
