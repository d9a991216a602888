// What the relay of src/dns/server.rs does to its cache, over any run of queries and
// upstream answers: every query is answered once, under its own ID.
module DnsCaches {
  import opened Common
  import opened Proto

  type Client = SocketAddr
  type Key = string

  datatype Query = Query(name: string, qtype: string)
  datatype Answer = Answer(ttl: nat, ip4: Option<U32>)
  // A message of section 4.1 of RFC 1035: its ID, its questions and its answers.
  datatype Message = Message(id: U16, queries: seq<Query>, answers: seq<Answer>)

  // `get_message_key`
  function KeyOf(q: Query): Key {
    q.name + "|" + q.qtype
  }

  datatype QueryResult = QueryResult(addresses: seq<(Client, U16)>, response: Option<Message>, expire: int)

  // A query taken over, or a reply sent: for which key, from or to whom, with which ID.
  datatype Entry = Entry(key: Key, client: Client, id: U16)

  // What one receive from a socket gives; the flags are how the sends go that it leads
  // to (a reply counts as attempted either way).
  datatype LocalStep =
    | LocalMessage(message: Message, from: Client, forwarded: bool)
    | LocalGarbage
    | LocalReset
    | LocalError

  datatype ServerStep =
    | ServerMessage(message: Message, routed: seq<bool>)
    | ServerGarbage
    | ServerReset
    | ServerError

  datatype Config = Config(ptrName: string, cacheTime: nat, addRoute: bool, blocked: string -> bool)

  // The cache, and what happened so far: queries answered or queued, messages sent to
  // clients, pointer queries for the server itself answered, queries forwarded (true for
  // those to the trusted upstream), routes added.
  datatype Cache = Cache(
    store: map<Key, QueryResult>,
    accepted: multiset<Entry>,
    sent: seq<(Client, Message)>,
    pointed: seq<Client>,
    asked: seq<(bool, Query)>,
    routes: seq<U32>)

  const EMPTY: Cache := Cache(map[], multiset{}, [], [], [], [])

  // ---- one step

  // A reply from the cache; the stored response keeps the ID it was sent under last.
  function FromCache(c: Cache, key: Key, from: Client, id: U16): Cache
    requires key in c.store && c.store[key].response.Some?
  {
    var reply := c.store[key].response.value.(id := id);
    c.(store := c.store[key := c.store[key].(response := Some(reply))],
       accepted := c.accepted + multiset{Entry(key, from, id)},
       sent := c.sent + [(from, reply)])
  }

  function Enqueue(cfg: Config, c: Cache, key: Key, from: Client, id: U16, now: int): Cache {
    var r := if key in c.store then c.store[key] else QueryResult([], None, now + cfg.cacheTime);
    c.(store := c.store[key := r.(addresses := r.addresses + [(from, id)])],
       accepted := c.accepted + multiset{Entry(key, from, id)})
  }

  // A query for the name of the server itself.
  predicate Pointer(cfg: Config, q: Query) {
    q.qtype == "PTR" && q.name == cfg.ptrName
  }

  // A query is answered from the cache, which is renewed when it is too old, or is
  // forwarded and queued, or (when forwarding fails) dropped.
  function QueryStep(cfg: Config, c: Cache, message: Message, from: Client, forwarded: bool, now: int): Cache
    requires |message.queries| == 1
  {
    var q := message.queries[0];
    var ask := if forwarded then [(cfg.blocked(q.name), q)] else [];
    if Pointer(cfg, q) then c.(pointed := c.pointed + [from])
    else KeyStep(cfg, c, KeyOf(q), from, message.id, ask, now)
  }

  function KeyStep(cfg: Config, c: Cache, key: Key, from: Client, id: U16, ask: seq<(bool, Query)>, now: int): Cache {
    if key in c.store && c.store[key].response.Some? then
      FromCache(c, key, from, id).(asked := c.asked + if c.store[key].expire <= now then ask else [])
    else if ask != [] then Enqueue(cfg, c, key, from, id, now).(asked := c.asked + ask)
    else c
  }

  // The message to everybody waiting, each with their own ID.
  function Replies(message: Message, waiting: seq<(Client, U16)>): seq<(Client, Message)> {
    seq(|waiting|, i requires 0 <= i < |waiting| => (waiting[i].0, message.(id := waiting[i].1)))
  }

  // The message as it is stored: with the ID it was sent under last.
  function LastSent(message: Message, waiting: seq<(Client, U16)>): Message {
    if waiting == [] then message else message.(id := waiting[|waiting| - 1].1)
  }

  function Ttl(answers: seq<Answer>): nat {
    if answers == [] then 0 else answers[|answers| - 1].ttl
  }

  // Every IPv4 answer not routed yet, if adding the route succeeds.
  function WithRoutes(routes: seq<U32>, answers: seq<Answer>, routed: seq<bool>): (r: seq<U32>) {
    if answers == [] then routes else
    var n := |answers| - 1;
    var r := WithRoutes(routes, answers[..n], routed);
    match answers[n].ip4
    case Some(a) => if a !in r && n < |routed| && routed[n] then r + [a] else r
    case None => r
  }

  // Everybody queued for the key of an upstream answer gets it, and it is stored.
  function AnswerStep(cfg: Config, c: Cache, message: Message, routed: seq<bool>, fromBlocked: bool, now: int): Cache
    requires message.queries != []
  {
    var key := KeyOf(message.queries[0]);
    if key !in c.store then c
    else Deliver(cfg, c, key, message, routed, fromBlocked, now)
  }

  function Deliver(cfg: Config, c: Cache, key: Key, message: Message, routed: seq<bool>, fromBlocked: bool, now: int)
    : Cache
    requires key in c.store
  {
    var waiting := c.store[key].addresses;
    c.(store := c.store[key := QueryResult([], Some(LastSent(message, waiting)), now + Ttl(message.answers))],
       sent := c.sent + Replies(message, waiting),
       routes := if cfg.addRoute && fromBlocked then WithRoutes(c.routes, message.answers, routed) else c.routes)
  }

  // ---- the receive loops

  datatype Ran = Ran(cache: Cache, ok: bool, crashed: bool)

  // Only messages with one question count.
  function AfterLocal(cfg: Config, c: Cache, s: LocalStep, now: int): Cache {
    if s.LocalMessage? && |s.message.queries| == 1 then QueryStep(cfg, c, s.message, s.from, s.forwarded, now) else c
  }

  function AfterServer(cfg: Config, c: Cache, s: ServerStep, fromBlocked: bool, now: int): Cache {
    if s.ServerMessage? && s.message.queries != [] then AnswerStep(cfg, c, s.message, s.routed, fromBlocked, now) else c
  }

  predicate Crashing(s: ServerStep) {
    s.ServerMessage? && s.message.queries == []
  }

  // `dispatch_local`: until a receive fails.
  function LocalRun(cfg: Config, c: Cache, script: seq<LocalStep>, now: int): Ran
    decreases |script|
  {
    if script == [] then Ran(c, true, false)
    else if script[0].LocalError? then Ran(c, false, false)
    else LocalRun(cfg, AfterLocal(cfg, c, script[0], now), script[1..], now)
  }

  // `dispatch_server`: until a receive fails; a message without question crashes it.
  function ServerRun(cfg: Config, c: Cache, script: seq<ServerStep>, fromBlocked: bool, now: int): Ran
    decreases |script|
  {
    if script == [] then Ran(c, true, false)
    else if script[0].ServerError? then Ran(c, false, false)
    else if Crashing(script[0]) then Ran(c, false, true)
    else ServerRun(cfg, AfterServer(cfg, c, script[0], fromBlocked, now), script[1..], fromBlocked, now)
  }

  datatype Event =
    | LocalReadable(local: seq<LocalStep>, now: int)
    | ServerReadable(server: seq<ServerStep>, fromBlocked: bool, now: int)

  function Handle(cfg: Config, c: Cache, e: Event): Cache {
    match e
    case LocalReadable(script, now) => LocalRun(cfg, c, script, now).cache
    case ServerReadable(script, fromBlocked, now) => ServerRun(cfg, c, script, fromBlocked, now).cache
  }

  function Run(cfg: Config, c: Cache, events: seq<Event>): Cache
    decreases |events|
  {
    if events == [] then c else Run(cfg, Handle(cfg, c, events[0]), events[1..])
  }

  // ---- what every run keeps

  // How often e waits among those queued for a key.
  function Waiting(key: Key, addresses: seq<(Client, U16)>, e: Entry): nat {
    if e.key == key then multiset(addresses)[(e.client, e.id)] else 0
  }

  function Queued(store: map<Key, QueryResult>, e: Entry): nat {
    if e.key in store then Waiting(e.key, store[e.key].addresses, e) else 0
  }

  // A message sent to a client, as a reply.
  function EntryOf(client: Client, message: Message): Entry {
    Entry(if message.queries == [] then "" else KeyOf(message.queries[0]), client, message.id)
  }

  function Replied(sent: seq<(Client, Message)>): multiset<Entry> {
    if sent == [] then multiset{}
    else
      var last := sent[|sent| - 1];
      Replied(sent[..|sent| - 1]) + multiset{EntryOf(last.0, last.1)}
  }

  // Every accepted query is replied to exactly once or still queued, under its key and
  // with its ID.
  ghost predicate Balanced(accepted: multiset<Entry>, replied: multiset<Entry>, store: map<Key, QueryResult>) {
    forall e :: accepted[e] == replied[e] + Queued(store, e)
  }

  // A stored response belongs to its key and leaves nobody waiting.
  ghost predicate Settled(key: Key, r: QueryResult) {
    r.response.Some? ==>
      r.addresses == [] && r.response.value.queries != [] && KeyOf(r.response.value.queries[0]) == key
  }

  ghost predicate AllSettled(store: map<Key, QueryResult>) {
    forall k :: k in store ==> Settled(k, store[k])
  }

  ghost predicate NoneTwice(routes: seq<U32>) {
    forall i, j :: 0 <= i < j < |routes| ==> routes[i] != routes[j]
  }

  ghost predicate Good(c: Cache) {
    Balanced(c.accepted, Replied(c.sent), c.store) && AllSettled(c.store) && NoneTwice(c.routes)
  }

  // What happened stays so.
  ghost predicate Since(c: Cache, d: Cache) {
    && c.accepted <= d.accepted && c.sent <= d.sent && c.pointed <= d.pointed && c.asked <= d.asked
    && c.routes <= d.routes && c.store.Keys <= d.store.Keys
  }

  lemma BalancedQueued(accepted: multiset<Entry>, replied: multiset<Entry>, store: map<Key, QueryResult>,
                       key: Key, r: QueryResult, e: Entry)
    requires Balanced(accepted, replied, store) && e.key == key
    requires r.addresses == (if key in store then store[key].addresses else []) + [(e.client, e.id)]
    ensures Balanced(accepted + multiset{e}, replied, store[key := r])
  {
    forall x ensures Queued(store[key := r], x) == Queued(store, x) + multiset{e}[x] {}
  }

  lemma BalancedAnswered(accepted: multiset<Entry>, replied: multiset<Entry>, store: map<Key, QueryResult>,
                         key: Key, r: QueryResult, more: multiset<Entry>)
    requires Balanced(accepted, replied, store) && key in store && r.addresses == []
    requires forall e :: more[e] == replied[e] + Waiting(key, store[key].addresses, e)
    ensures Balanced(accepted, more, store[key := r])
  {
    forall e ensures Queued(store, e) == Queued(store[key := r], e) + Waiting(key, store[key].addresses, e) {}
  }

  lemma BalancedCached(accepted: multiset<Entry>, replied: multiset<Entry>, store: map<Key, QueryResult>,
                       key: Key, r: QueryResult, e: Entry)
    requires Balanced(accepted, replied, store) && key in store && r.addresses == store[key].addresses
    ensures Balanced(accepted + multiset{e}, replied + multiset{e}, store[key := r])
  {
    forall x ensures Queued(store[key := r], x) == Queued(store, x) {}
  }

  lemma RepliedOne(sent: seq<(Client, Message)>, client: Client, message: Message)
    ensures Replied(sent + [(client, message)]) == Replied(sent) + multiset{EntryOf(client, message)}
  {
    assert (sent + [(client, message)])[..|sent|] == sent;
  }

  lemma OneMore(s: seq<(Client, Message)>, t: seq<(Client, Message)>, x: (Client, Message))
    ensures s + (t + [x]) == s + t + [x]
  {}

  lemma RepliesOne(message: Message, waiting: seq<(Client, U16)>, n: nat)
    requires |waiting| == n + 1
    ensures Replies(message, waiting) == Replies(message, waiting[..n]) + [(waiting[n].0, message.(id := waiting[n].1))]
  {}

  lemma WaitingOne(key: Key, waiting: seq<(Client, U16)>, n: nat, e: Entry)
    requires |waiting| == n + 1
    ensures Waiting(key, waiting, e)
      == Waiting(key, waiting[..n], e) + multiset{Entry(key, waiting[n].0, waiting[n].1)}[e]
  {
    assert waiting == waiting[..n] + [waiting[n]];
  }

  lemma {:induction false} RepliedAll(sent: seq<(Client, Message)>, message: Message, key: Key,
                                      waiting: seq<(Client, U16)>, e: Entry)
    requires message.queries != [] && key == KeyOf(message.queries[0])
    ensures Replied(sent + Replies(message, waiting))[e] == Replied(sent)[e] + Waiting(key, waiting, e)
    decreases |waiting|
  {
    if waiting == [] {
      assert sent + Replies(message, waiting) == sent;
    } else {
      var n := |waiting| - 1;
      var before, reply := Replies(message, waiting[..n]), message.(id := waiting[n].1);
      RepliedAll(sent, message, key, waiting[..n], e);
      RepliedOne(sent + before, waiting[n].0, reply);
      RepliesOne(message, waiting, n);
      WaitingOne(key, waiting, n, e);
      OneMore(sent, before, (waiting[n].0, reply));
    }
  }

  // Routes are added once each, and exactly those asked for and granted.
  lemma {:induction false} RoutesAdded(routes: seq<U32>, answers: seq<Answer>, routed: seq<bool>)
    ensures var r := WithRoutes(routes, answers, routed);
      && routes <= r && (NoneTwice(routes) ==> NoneTwice(r))
      && forall a :: a in r <==> a in routes || Granted(answers, routed, a)
    decreases |answers|
  {
    if answers != [] { RoutesAdded(routes, answers[..|answers| - 1], routed); }
  }

  predicate Granted(answers: seq<Answer>, routed: seq<bool>, a: U32) {
    exists i :: 0 <= i < |answers| && answers[i].ip4 == Some(a) && i < |routed| && routed[i]
  }

  lemma StillSettled(store: map<Key, QueryResult>, key: Key, r: QueryResult)
    requires AllSettled(store) && Settled(key, r)
    ensures AllSettled(store[key := r])
  {}

  lemma FromCacheKeeps(c: Cache, key: Key, from: Client, id: U16)
    requires Good(c) && key in c.store && c.store[key].response.Some?
    ensures Good(FromCache(c, key, from, id)) && Since(c, FromCache(c, key, from, id))
  {
    var reply := c.store[key].response.value.(id := id);
    var r := c.store[key].(response := Some(reply));
    assert Settled(key, c.store[key]);
    BalancedCached(c.accepted, Replied(c.sent), c.store, key, r, Entry(key, from, id));
    RepliedOne(c.sent, from, reply);
    StillSettled(c.store, key, r);
  }

  lemma EnqueueKeeps(cfg: Config, c: Cache, key: Key, from: Client, id: U16, now: int)
    requires Good(c) && (key in c.store ==> c.store[key].response.None?)
    ensures Good(Enqueue(cfg, c, key, from, id, now)) && Since(c, Enqueue(cfg, c, key, from, id, now))
  {
    var r := Enqueue(cfg, c, key, from, id, now).store[key];
    BalancedQueued(c.accepted, Replied(c.sent), c.store, key, r, Entry(key, from, id));
    StillSettled(c.store, key, r);
  }

  lemma KeyKeeps(cfg: Config, c: Cache, key: Key, from: Client, id: U16, ask: seq<(bool, Query)>, now: int)
    requires Good(c)
    ensures var d := KeyStep(cfg, c, key, from, id, ask, now); Good(d) && Since(c, d)
  {
    if key in c.store && c.store[key].response.Some? { FromCacheKeeps(c, key, from, id); }
    else { EnqueueKeeps(cfg, c, key, from, id, now); }
  }

  lemma QueryKeeps(cfg: Config, c: Cache, message: Message, from: Client, forwarded: bool, now: int)
    requires Good(c) && |message.queries| == 1
    ensures var d := QueryStep(cfg, c, message, from, forwarded, now); Good(d) && Since(c, d)
  {
    var q := message.queries[0];
    if !Pointer(cfg, q) {
      KeyKeeps(cfg, c, KeyOf(q), from, message.id, if forwarded then [(cfg.blocked(q.name), q)] else [], now);
    }
  }

  lemma AnswerKeeps(cfg: Config, c: Cache, message: Message, routed: seq<bool>, fromBlocked: bool, now: int)
    requires Good(c) && message.queries != []
    ensures var d := AnswerStep(cfg, c, message, routed, fromBlocked, now); Good(d) && Since(c, d)
  {
    var key := KeyOf(message.queries[0]);
    if key in c.store { DeliverKeeps(cfg, c, key, message, routed, fromBlocked, now); }
  }

  lemma DeliverKeeps(cfg: Config, c: Cache, key: Key, message: Message, routed: seq<bool>, fromBlocked: bool, now: int)
    requires Good(c) && key in c.store && message.queries != [] && key == KeyOf(message.queries[0])
    ensures var d := Deliver(cfg, c, key, message, routed, fromBlocked, now); Good(d) && Since(c, d)
  {
    var waiting := c.store[key].addresses;
    var d := Deliver(cfg, c, key, message, routed, fromBlocked, now);
    forall e ensures Replied(d.sent)[e] == Replied(c.sent)[e] + Waiting(key, waiting, e) {
      RepliedAll(c.sent, message, key, waiting, e);
    }
    BalancedAnswered(c.accepted, Replied(c.sent), c.store, key, d.store[key], Replied(d.sent));
    StillSettled(c.store, key, d.store[key]);
    RoutesAdded(c.routes, message.answers, routed);
  }

  lemma AfterLocalKeeps(cfg: Config, c: Cache, s: LocalStep, now: int)
    requires Good(c)
    ensures Good(AfterLocal(cfg, c, s, now)) && Since(c, AfterLocal(cfg, c, s, now))
  {
    if s.LocalMessage? && |s.message.queries| == 1 { QueryKeeps(cfg, c, s.message, s.from, s.forwarded, now); }
  }

  lemma AfterServerKeeps(cfg: Config, c: Cache, s: ServerStep, fromBlocked: bool, now: int)
    requires Good(c)
    ensures Good(AfterServer(cfg, c, s, fromBlocked, now)) && Since(c, AfterServer(cfg, c, s, fromBlocked, now))
  {
    if s.ServerMessage? && s.message.queries != [] { AnswerKeeps(cfg, c, s.message, s.routed, fromBlocked, now); }
  }

  lemma {:induction false} LocalRunKeeps(cfg: Config, c: Cache, script: seq<LocalStep>, now: int)
    requires Good(c)
    ensures var d := LocalRun(cfg, c, script, now).cache; Good(d) && Since(c, d)
    decreases |script|
  {
    if script != [] && !script[0].LocalError? {
      AfterLocalKeeps(cfg, c, script[0], now);
      LocalRunKeeps(cfg, AfterLocal(cfg, c, script[0], now), script[1..], now);
    }
  }

  lemma {:induction false} ServerRunKeeps(cfg: Config, c: Cache, script: seq<ServerStep>, fromBlocked: bool, now: int)
    requires Good(c)
    ensures var d := ServerRun(cfg, c, script, fromBlocked, now).cache; Good(d) && Since(c, d)
    decreases |script|
  {
    if script != [] && !script[0].ServerError? && !Crashing(script[0]) {
      AfterServerKeeps(cfg, c, script[0], fromBlocked, now);
      ServerRunKeeps(cfg, AfterServer(cfg, c, script[0], fromBlocked, now), script[1..], fromBlocked, now);
    }
  }

  // Over all runs of queries and answers, for every key, client and ID: accepted
  // queries are replies plus queued ones, stored responses leave nobody waiting, routes
  // are added once, and nothing that happened is undone.
  lemma {:induction false} EveryRun(cfg: Config, c: Cache, events: seq<Event>)
    requires Good(c)
    ensures Good(Run(cfg, c, events)) && Since(c, Run(cfg, c, events))
    decreases |events|
  {
    if events != [] {
      match events[0] {
        case LocalReadable(script, now) => LocalRunKeeps(cfg, c, script, now);
        case ServerReadable(script, fromBlocked, now) => ServerRunKeeps(cfg, c, script, fromBlocked, now);
      }
      EveryRun(cfg, Handle(cfg, c, events[0]), events[1..]);
    }
  }

  // Nobody gets a reply they did not ask for, nor one too many; whoever waits for a key
  // without response is still owed exactly one for each query.
  lemma NoReplyTooMany(cfg: Config, events: seq<Event>, e: Entry)
    ensures var c := Run(cfg, EMPTY, events);
      && Replied(c.sent)[e] <= c.accepted[e]
      && (e.key in c.store && c.store[e.key].response.Some? ==> Replied(c.sent)[e] == c.accepted[e])
  {
    assert Good(EMPTY);
    EveryRun(cfg, EMPTY, events);
    var c := Run(cfg, EMPTY, events);
    if e.key in c.store { assert Settled(e.key, c.store[e.key]); }
  }

  // However many upstream answers come for a key, only the first replies to anybody.
  lemma SecondAnswerSilent(cfg: Config, c: Cache, first: Message, second: Message,
                           routed: seq<bool>, routed': seq<bool>, b: bool, b': bool, now: int, now': int)
    requires first.queries != [] && second.queries != [] && KeyOf(first.queries[0]) == KeyOf(second.queries[0])
    ensures var d := AnswerStep(cfg, c, first, routed, b, now);
      AnswerStep(cfg, d, second, routed', b', now').sent == d.sent
  {
    assert Replies(second, []) == [];
  }

  // ---- what every run achieves

  // Whether a step receives e: one question, and not for the server's own pointer.
  predicate Asks(cfg: Config, s: LocalStep, e: Entry) {
    && s.LocalMessage? && |s.message.queries| == 1 && !Pointer(cfg, s.message.queries[0])
    && e == Entry(KeyOf(s.message.queries[0]), s.from, s.message.id)
  }

  // How often e is received before a receive fails; or only those times that a forward
  // would succeed.
  function Heard(cfg: Config, script: seq<LocalStep>, e: Entry, forwarded: bool): nat
    decreases |script|
  {
    if script == [] || script[0].LocalError? then 0 else
    (if Asks(cfg, script[0], e) && (forwarded ==> script[0].forwarded) then 1 else 0)
      + Heard(cfg, script[1..], e, forwarded)
  }

  function Received(cfg: Config, events: seq<Event>, e: Entry, forwarded: bool): nat
    decreases |events|
  {
    if events == [] then 0 else
    (if events[0].LocalReadable? then Heard(cfg, events[0].local, e, forwarded) else 0)
      + Received(cfg, events[1..], e, forwarded)
  }

  predicate AllForwarded(script: seq<LocalStep>) {
    forall i :: 0 <= i < |script| && script[i].LocalMessage? ==> script[i].forwarded
  }

  lemma {:induction false} HeardAll(cfg: Config, script: seq<LocalStep>, e: Entry)
    ensures Heard(cfg, script, e, true) <= Heard(cfg, script, e, false)
    ensures AllForwarded(script) ==> Heard(cfg, script, e, true) == Heard(cfg, script, e, false)
    decreases |script|
  {
    if script != [] { HeardAll(cfg, script[1..], e); }
  }

  // One key: accepted when it is forwarded or answered from the cache, and then once.
  lemma KeyAccepts(cfg: Config, c: Cache, key: Key, from: Client, id: U16, ask: seq<(bool, Query)>, now: int, e: Entry)
    ensures var d := KeyStep(cfg, c, key, from, id, ask, now); var mine := if e == Entry(key, from, id) then 1 else 0;
      && c.accepted[e] + (if ask != [] then mine else 0) <= d.accepted[e] <= c.accepted[e] + mine
  {}

  lemma StepAccepts(cfg: Config, c: Cache, s: LocalStep, now: int, e: Entry)
    ensures var d := AfterLocal(cfg, c, s, now);
      && c.accepted[e] + (if Asks(cfg, s, e) && s.forwarded then 1 else 0) <= d.accepted[e]
      && d.accepted[e] <= c.accepted[e] + if Asks(cfg, s, e) then 1 else 0
  {
    if s.LocalMessage? && |s.message.queries| == 1 && !Pointer(cfg, s.message.queries[0]) {
      var q := s.message.queries[0];
      var ask := if s.forwarded then [(cfg.blocked(q.name), q)] else [];
      KeyAccepts(cfg, c, KeyOf(q), s.from, s.message.id, ask, now, e);
    }
  }

  lemma {:induction false} LocalAccepts(cfg: Config, c: Cache, script: seq<LocalStep>, now: int, e: Entry)
    ensures var d := LocalRun(cfg, c, script, now).cache;
      c.accepted[e] + Heard(cfg, script, e, true) <= d.accepted[e] <= c.accepted[e] + Heard(cfg, script, e, false)
    decreases |script|
  {
    if script != [] && !script[0].LocalError? {
      StepAccepts(cfg, c, script[0], now, e);
      LocalAccepts(cfg, AfterLocal(cfg, c, script[0], now), script[1..], now, e);
    }
  }

  lemma {:induction false} ServerAccepts(cfg: Config, c: Cache, script: seq<ServerStep>, fromBlocked: bool, now: int)
    ensures ServerRun(cfg, c, script, fromBlocked, now).cache.accepted == c.accepted
    decreases |script|
  {
    if script != [] && !script[0].ServerError? && !Crashing(script[0]) {
      ServerAccepts(cfg, AfterServer(cfg, c, script[0], fromBlocked, now), script[1..], fromBlocked, now);
    }
  }

  // Over all runs, for every key, client and ID: no query is accepted that was not
  // received, and every query that was received and could be forwarded is accepted.
  lemma {:induction false} AcceptedReceived(cfg: Config, c: Cache, events: seq<Event>, e: Entry)
    ensures var d := Run(cfg, c, events);
      && c.accepted[e] + Received(cfg, events, e, true) <= d.accepted[e]
      && d.accepted[e] <= c.accepted[e] + Received(cfg, events, e, false)
    decreases |events|
  {
    if events != [] {
      match events[0] {
        case LocalReadable(script, now) => LocalAccepts(cfg, c, script, now, e);
        case ServerReadable(script, fromBlocked, now) => ServerAccepts(cfg, c, script, fromBlocked, now);
      }
      AcceptedReceived(cfg, Handle(cfg, c, events[0]), events[1..], e);
    }
  }

  // When every forward succeeds, exactly the queries received are accepted, each of them
  // replied to once or still waiting.
  lemma AllAccounted(cfg: Config, events: seq<Event>, e: Entry)
    requires forall i :: 0 <= i < |events| && events[i].LocalReadable? ==> AllForwarded(events[i].local)
    ensures var c := Run(cfg, EMPTY, events);
      Received(cfg, events, e, false) == c.accepted[e] == Replied(c.sent)[e] + Queued(c.store, e)
  {
    ReceivedAll(cfg, events, e);
    AcceptedReceived(cfg, EMPTY, events, e);
    assert Good(EMPTY);
    EveryRun(cfg, EMPTY, events);
  }

  lemma {:induction false} ReceivedAll(cfg: Config, events: seq<Event>, e: Entry)
    requires forall i :: 0 <= i < |events| && events[i].LocalReadable? ==> AllForwarded(events[i].local)
    ensures Received(cfg, events, e, true) == Received(cfg, events, e, false)
    decreases |events|
  {
    if events != [] {
      if events[0].LocalReadable? { HeardAll(cfg, events[0].local, e); }
      ReceivedAll(cfg, events[1..], e);
    }
  }

  // After an upstream answer for a key somebody asked for, it is stored, and nobody who
  // asked for this key waits any longer.
  lemma AnswerSettles(cfg: Config, c: Cache, message: Message, routed: seq<bool>, fromBlocked: bool, now: int, e: Entry)
    requires Good(c) && message.queries != [] && KeyOf(message.queries[0]) in c.store
    ensures var key := KeyOf(message.queries[0]); var d := AnswerStep(cfg, c, message, routed, fromBlocked, now);
      && key in d.store && d.store[key].response.Some?
      && d.store[key].response.value == message.(id := d.store[key].response.value.id)
      && (e.key == key ==> Replied(d.sent)[e] == d.accepted[e] == c.accepted[e])
      && c.sent <= d.sent
      && (forall i :: |c.sent| <= i < |d.sent| ==> d.sent[i].1 == message.(id := d.sent[i].1.id))
      // for as long as the last of its answers lives
      && (message.answers == [] ==> d.store[key].expire == now)
      && (message.answers != [] ==> d.store[key].expire == now + message.answers[|message.answers| - 1].ttl)
      // and no other key is concerned
      && d.store.Keys == c.store.Keys && forall k :: k in c.store && k != key ==> d.store[k] == c.store[k]
  {
    AnswerKeeps(cfg, c, message, routed, fromBlocked, now);
  }

  // Answers from the trusted upstream about blocked domains lead to routes, if wanted.
  lemma AnswerRoutes(cfg: Config, c: Cache, message: Message, routed: seq<bool>, fromBlocked: bool, now: int)
    requires Good(c) && message.queries != []
    ensures var d := AnswerStep(cfg, c, message, routed, fromBlocked, now);
      && (cfg.addRoute && fromBlocked && KeyOf(message.queries[0]) in c.store ==>
           forall a :: a in d.routes <==> a in c.routes || Granted(message.answers, routed, a))
      && (!(cfg.addRoute && fromBlocked && KeyOf(message.queries[0]) in c.store) ==> d.routes == c.routes)
  {
    RoutesAdded(c.routes, message.answers, routed);
  }

  // A stored response stays the same, but for the ID it was sent under last, and lives
  // as long, until an upstream answer replaces it.
  lemma QueryKeepsStored(cfg: Config, c: Cache, message: Message, from: Client, forwarded: bool, now: int, k: Key)
    requires |message.queries| == 1 && k in c.store && c.store[k].response.Some?
    ensures var d := QueryStep(cfg, c, message, from, forwarded, now);
      && k in d.store && d.store[k].response.Some?
      && d.store[k].response.value == c.store[k].response.value.(id := d.store[k].response.value.id)
      && d.store[k].expire == c.store[k].expire && d.store[k].addresses == c.store[k].addresses
  {}

  // Keys tell names and types apart: types are words without a bar.
  lemma KeysApart(q: Query, r: Query)
    requires '|' !in q.qtype && '|' !in r.qtype
    ensures KeyOf(q) == KeyOf(r) <==> q == r
  {
    if KeyOf(q) == KeyOf(r) { BarPosition(q, r); }
  }

  lemma BarPosition(q: Query, r: Query)
    requires '|' !in q.qtype && '|' !in r.qtype && KeyOf(q) == KeyOf(r)
    ensures q == r
  {
    var k := KeyOf(q);
    BarAt(q, k);
    BarAt(r, k);
    var i := |q.name|;
    NoBarAfter(q, k, |r.name|);
    NoBarAfter(r, k, i);
    assert q.name == k[..i] == r.name && q.qtype == k[i + 1..] == r.qtype;
  }

  lemma NoBarAfter(q: Query, k: Key, x: nat)
    requires '|' !in q.qtype && k == KeyOf(q) && x < |k| && k[x] == '|'
    ensures x <= |q.name|
  {
    BarAt(q, k);
    forall y | |q.name| < y < |k| ensures k[y] != '|' { assert k[y] == q.qtype[y - |q.name| - 1]; }
  }

  lemma BarAt(q: Query, k: Key)
    requires k == KeyOf(q)
    ensures |k| == |q.name| + 1 + |q.qtype| && k[|q.name|] == '|'
    ensures k[..|q.name|] == q.name && k[|q.name| + 1..] == q.qtype
    ensures forall x :: |q.name| < x < |k| ==> k[x] == q.qtype[x - |q.name| - 1]
  {}

  // So a query is only ever answered with a response to the same question.
  lemma SameQuestion(c: Cache, q: Query)
    requires Good(c) && KeyOf(q) in c.store && c.store[KeyOf(q)].response.Some?
    ensures var r := c.store[KeyOf(q)].response.value;
      r.queries != [] && ('|' !in q.qtype && '|' !in r.queries[0].qtype ==> r.queries[0] == q)
  {
    assert Settled(KeyOf(q), c.store[KeyOf(q)]);
    var r := c.store[KeyOf(q)].response.value;
    if '|' !in q.qtype && '|' !in r.queries[0].qtype { KeysApart(q, r.queries[0]); }
  }

  // The server's own name, asked for as a pointer, is answered by itself; nothing else is.
  lemma OwnPointer(cfg: Config, c: Cache, message: Message, from: Client, forwarded: bool, now: int)
    requires |message.queries| == 1
    ensures var q := message.queries[0]; var d := QueryStep(cfg, c, message, from, forwarded, now);
      if q.qtype == "PTR" && q.name == cfg.ptrName then d == c.(pointed := c.pointed + [from])
      else d.pointed == c.pointed
  {}

  // A query for a stored response is answered with it, under the ID of the query, at
  // once; no other query is answered before the upstream has answered.
  lemma QueryReplies(cfg: Config, c: Cache, message: Message, from: Client, forwarded: bool, now: int)
    requires |message.queries| == 1
    ensures var q := message.queries[0]; var k := KeyOf(q);
      QueryStep(cfg, c, message, from, forwarded, now).sent
      == c.sent + if !Pointer(cfg, q) && k in c.store && c.store[k].response.Some?
                  then [(from, c.store[k].response.value.(id := message.id))] else []
  {}

  // Whatever is in the cache was asked for, and everything asked for at the upstream
  // that the list of blocked domains says.
  ghost predicate AskedFor(cfg: Config, c: Cache) {
    && (forall k :: k in c.store ==> AskedKey(c.asked, k))
    && (forall i :: 0 <= i < |c.asked| ==> c.asked[i].0 == cfg.blocked(c.asked[i].1.name))
  }

  predicate AskedKey(asked: seq<(bool, Query)>, key: Key) {
    exists i :: 0 <= i < |asked| && KeyOf(asked[i].1) == key
  }

  lemma AskedStays(asked: seq<(bool, Query)>, more: seq<(bool, Query)>, key: Key)
    requires AskedKey(asked, key) && asked <= more
    ensures AskedKey(more, key)
  {
    var i :| 0 <= i < |asked| && KeyOf(asked[i].1) == key;
    assert more[i] == asked[i];
  }

  lemma QueryAsks(cfg: Config, c: Cache, message: Message, from: Client, forwarded: bool, now: int)
    requires AskedFor(cfg, c) && |message.queries| == 1
    ensures AskedFor(cfg, QueryStep(cfg, c, message, from, forwarded, now))
  {
    var q := message.queries[0];
    var d := QueryStep(cfg, c, message, from, forwarded, now);
    forall k | k in d.store ensures AskedKey(d.asked, k) {
      if k in c.store { AskedStays(c.asked, d.asked, k); }
      else { assert d.asked[|c.asked|] == (cfg.blocked(q.name), q); }
    }
  }

  // A query is forwarded, if that succeeds, exactly unless it is for the server itself
  // or a response not yet too old is stored.
  lemma QueryForwarded(cfg: Config, c: Cache, message: Message, from: Client, forwarded: bool, now: int)
    requires |message.queries| == 1
    ensures var q := message.queries[0]; var k := KeyOf(q);
      var live := k in c.store && c.store[k].response.Some? && c.store[k].expire > now;
      QueryStep(cfg, c, message, from, forwarded, now).asked
      == c.asked + if forwarded && !Pointer(cfg, q) && !live then [(cfg.blocked(q.name), q)] else []
  {}

  lemma {:induction false} LocalAsks(cfg: Config, c: Cache, script: seq<LocalStep>, now: int)
    requires AskedFor(cfg, c)
    ensures AskedFor(cfg, LocalRun(cfg, c, script, now).cache)
    decreases |script|
  {
    if script != [] && !script[0].LocalError? {
      var s := script[0];
      if s.LocalMessage? && |s.message.queries| == 1 { QueryAsks(cfg, c, s.message, s.from, s.forwarded, now); }
      LocalAsks(cfg, AfterLocal(cfg, c, s, now), script[1..], now);
    }
  }

  lemma {:induction false} ServerAsks(cfg: Config, c: Cache, script: seq<ServerStep>, fromBlocked: bool, now: int)
    requires AskedFor(cfg, c)
    ensures AskedFor(cfg, ServerRun(cfg, c, script, fromBlocked, now).cache)
    decreases |script|
  {
    if script != [] && !script[0].ServerError? && !Crashing(script[0]) {
      ServerAsks(cfg, AfterServer(cfg, c, script[0], fromBlocked, now), script[1..], fromBlocked, now);
    }
  }

  // Over all runs nobody waits for an answer that was not asked for.
  lemma {:induction false} EveryRunAsks(cfg: Config, c: Cache, events: seq<Event>)
    requires AskedFor(cfg, c)
    ensures AskedFor(cfg, Run(cfg, c, events))
    decreases |events|
  {
    if events != [] {
      match events[0] {
        case LocalReadable(script, now) => LocalAsks(cfg, c, script, now);
        case ServerReadable(script, fromBlocked, now) => ServerAsks(cfg, c, script, fromBlocked, now);
      }
      EveryRunAsks(cfg, Handle(cfg, c, events[0]), events[1..]);
    }
  }

  // ---- how the receive loops end

  predicate CrashesAt(script: seq<ServerStep>, i: int) {
    0 <= i < |script| && Crashing(script[i]) && forall j :: 0 <= j < i ==> !script[j].ServerError?
  }

  lemma CrashesLater(script: seq<ServerStep>)
    requires script != []
    ensures (exists i :: CrashesAt(script, i))
      <==> Crashing(script[0]) || (!script[0].ServerError? && exists i :: CrashesAt(script[1..], i))
  {
    if i :| CrashesAt(script, i) { if i > 0 { assert CrashesAt(script[1..], i - 1); } }
    if Crashing(script[0]) { assert CrashesAt(script, 0); }
    else if !script[0].ServerError? {
      if i :| CrashesAt(script[1..], i) {
        assert forall j :: 0 < j <= i ==> script[j] == script[1..][j - 1];
        assert CrashesAt(script, i + 1);
      }
    }
  }

  // The loop gives up exactly at the first failed receive, and crashes exactly at the
  // first message without question, whichever comes first.
  lemma {:induction false} ServerRunEnds(cfg: Config, c: Cache, script: seq<ServerStep>, fromBlocked: bool, now: int)
    ensures var r := ServerRun(cfg, c, script, fromBlocked, now);
      && (r.crashed <==> exists i :: CrashesAt(script, i))
      && (r.ok <==> forall i :: 0 <= i < |script| ==> !script[i].ServerError? && !Crashing(script[i]))
    decreases |script|
  {
    if script != [] {
      ServerRunEnds(cfg, AfterServer(cfg, c, script[0], fromBlocked, now), script[1..], fromBlocked, now);
      CrashesLater(script);
    }
  }

  lemma {:induction false} LocalRunEnds(cfg: Config, c: Cache, script: seq<LocalStep>, now: int)
    ensures LocalRun(cfg, c, script, now).ok <==> LocalError !in script
    ensures !LocalRun(cfg, c, script, now).crashed
    decreases |script|
  {
    if script != [] {
      LocalRunEnds(cfg, AfterLocal(cfg, c, script[0], now), script[1..], now);
    }
  }
}
