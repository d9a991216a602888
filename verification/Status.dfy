// src/status.rs: the life of one endpoint, and two endpoints coupled after every event
// as in src/server/connection.rs and src/proxy/tcp_server.rs.
module Status {
  import opened Common

  datatype ConnStatus = Connecting | Established | PeerClosed | Shutdown | Deregistered

  function Rank(s: ConnStatus): nat {
    match s
    case Connecting => 0
    case Established => 1
    case PeerClosed => 2
    case Shutdown => 3
    case Deregistered => 4
  }

  predicate IsShutdown(s: ConnStatus) { s.Shutdown? || s.Deregistered? }

  predicate Alive(s: ConnStatus) { s.PeerClosed? || s.Established? }

  // The calls that release the connection.
  datatype Call = CloseConn | Deregister

  // close_conn, then deregister, each when its status is reached and never again.
  function CallsAt(s: ConnStatus): seq<Call> {
    match s
    case Shutdown => [CloseConn]
    case Deregistered => [CloseConn, Deregister]
    case _ => []
  }

  class Endpoint {
    var status: ConnStatus
    ghost var calls: seq<Call>

    ghost predicate Valid()
      reads this
    {
      calls == CallsAt(status)
    }

    constructor (status: ConnStatus)
      requires !IsShutdown(status)
      ensures Valid() && this.status == status
    {
      this.status := status;
      calls := [];
    }

    method PeerClose()
      requires Valid()
      modifies this
      ensures Valid() && status == if Rank(old(status)) < Rank(PeerClosed) then PeerClosed else old(status)
    {
      match status {
        case Established | Connecting => status := PeerClosed;
        case _ =>
      }
    }

    method Establish()
      requires Valid()
      modifies this
      ensures Valid() && status == if old(status).Connecting? then Established else old(status)
    {
      if status.Connecting? { status := Established; }
    }

    // Every implementation of close_conn and deregister returns true.
    method CloseConnection() returns (ok: bool)
      modifies this`calls
      ensures ok && calls == old(calls) + [CloseConn]
    {
      calls := calls + [CloseConn];
      ok := true;
    }

    method Unregister() returns (ok: bool)
      modifies this`calls
      ensures ok && calls == old(calls) + [Deregister]
    {
      calls := calls + [Deregister];
      ok := true;
    }

    method ShutDown() returns (ok: bool)
      requires Valid()
      modifies this
      ensures Valid() && ok && status == AfterShutdown(old(status))
      ensures if old(status).Shutdown? || old(status).Deregistered? then status == old(status) && calls == old(calls)
              else status == Shutdown && calls == old(calls) + [CloseConn]
    {
      match status {
        case Established | PeerClosed | Connecting =>
          var closed := CloseConnection();
          if closed { status := Shutdown; } else { return false; }
        case Shutdown | Deregistered =>
      }
      ok := true;
    }

    // The loop of `check_status`; finished is what `finish_send` says.
    method CheckStatus(finished: bool)
      requires Valid()
      modifies this
      ensures Valid() && status == AfterCheck(old(status), finished)
      ensures match old(status)
        case Connecting => status == Connecting && calls == old(calls)
        case Established => status == Established && calls == old(calls)
        case PeerClosed =>
          if finished then status == Deregistered && calls == old(calls) + [CloseConn, Deregister]
          else status == PeerClosed && calls == old(calls)
        case Shutdown => status == Deregistered && calls == old(calls) + [Deregister]
        case Deregistered => status == Deregistered && calls == old(calls)
    {
      while true
        invariant Valid() && AfterCheck(status, finished) == AfterCheck(old(status), finished)
        invariant status == old(status) || (old(status).PeerClosed? && finished && status.Shutdown?)
        decreases 4 - Rank(status)
      {
        match status {
          case Established | Connecting =>
          case PeerClosed =>
            if finished {
              var ok := ShutDown();
              if ok { continue; }
            }
          case Shutdown =>
            var ok := Unregister();
            if ok { status := Deregistered; }
          case Deregistered =>
        }
        break;
      }
    }
  }

  function AfterShutdown(s: ConnStatus): ConnStatus {
    if IsShutdown(s) then s else Shutdown
  }

  function AfterPeerClosed(s: ConnStatus): ConnStatus {
    if Rank(s) < 2 then PeerClosed else s
  }

  function AfterCheck(s: ConnStatus, finished: bool): ConnStatus {
    if s.Shutdown? || (s.PeerClosed? && finished) then Deregistered else s
  }

  // ---- two endpoints

  // What the handlers inside `ready` may do to either endpoint before the coupling;
  // the server attaches its second endpoint (the backend) late.
  datatype Op = EstablishFirst | EstablishSecond | ShutFirst | ShutSecond | Attach

  datatype Event =
    | Ready(ops: seq<Op>, firstFinished: bool, secondFinished: bool)
    | Destroy(firstFinished: bool, secondFinished: bool)

  datatype Pair = Pair(first: ConnStatus, second: Option<ConnStatus>)

  function Perform(p: Pair, op: Op): Pair {
    match op
    case EstablishFirst => p.(first := if p.first.Connecting? then Established else p.first)
    case ShutFirst => p.(first := AfterShutdown(p.first))
    case EstablishSecond => if p.second == Some(Connecting) then p.(second := Some(Established)) else p
    case ShutSecond => if p.second.Some? then p.(second := Some(AfterShutdown(p.second.value))) else p
    case Attach => if p.second.None? then p.(second := Some(Established)) else p
  }

  function PerformAll(p: Pair, ops: seq<Op>): Pair
    decreases |ops|
  {
    if ops == [] then p else PerformAll(Perform(p, ops[0]), ops[1..])
  }

  // The tail of `ready`: a shut-down side tells the other, the first tells first.
  function Couple(p: Pair): Pair {
    match p.second
    case None => p
    case Some(s) =>
      var s' := if IsShutdown(p.first) then AfterPeerClosed(s) else s;
      Pair(if IsShutdown(s') then AfterPeerClosed(p.first) else p.first, Some(s'))
  }

  function Check(p: Pair, firstFinished: bool, secondFinished: bool): Pair {
    Pair(AfterCheck(p.first, firstFinished),
         if p.second.Some? then Some(AfterCheck(p.second.value, secondFinished)) else None)
  }

  function Step(p: Pair, e: Event): Pair {
    match e
    case Ready(ops, f, s) => Check(Couple(PerformAll(p, ops)), f, s)
    case Destroy(f, s) =>
      Check(Pair(AfterShutdown(p.first), if p.second.Some? then Some(AfterShutdown(p.second.value)) else None), f, s)
  }

  function Run(p: Pair, events: seq<Event>): Pair
    decreases |events|
  {
    if events == [] then p else Run(Step(p, events[0]), events[1..])
  }

  // A side is told its peer is closed only when the other side is shut down, and a
  // shut-down side has always told the other.
  predicate Coupled(p: Pair) {
    match p.second
    case None => !p.first.PeerClosed?
    case Some(s) =>
      && (p.first.PeerClosed? ==> IsShutdown(s)) && (s.PeerClosed? ==> IsShutdown(p.first))
      && (IsShutdown(p.first) ==> Rank(s) >= 2) && (IsShutdown(s) ==> Rank(p.first) >= 2)
  }

  // Half of it holds between the handlers and the coupling as well.
  predicate Founded(p: Pair) {
    match p.second
    case None => !p.first.PeerClosed?
    case Some(s) => (p.first.PeerClosed? ==> IsShutdown(s)) && (s.PeerClosed? ==> IsShutdown(p.first))
  }

  // No status ever goes back, and an attached endpoint stays.
  predicate Ahead(p: Pair, q: Pair) {
    && Rank(p.first) <= Rank(q.first)
    && (p.second.Some? ==> q.second.Some? && Rank(p.second.value) <= Rank(q.second.value))
  }

  lemma {:induction false} HandlersKeep(p: Pair, ops: seq<Op>)
    requires Founded(p)
    ensures Founded(PerformAll(p, ops)) && Ahead(p, PerformAll(p, ops))
    decreases |ops|
  {
    if ops != [] { HandlersKeep(Perform(p, ops[0]), ops[1..]); }
  }

  lemma {:induction false} EveryRun(p: Pair, events: seq<Event>)
    requires Coupled(p)
    ensures Coupled(Run(p, events)) && Ahead(p, Run(p, events))
    decreases |events|
  {
    if events != [] {
      if events[0].Ready? { HandlersKeep(p, events[0].ops); }
      EveryRun(Step(p, events[0]), events[1..]);
    }
  }

  // At any time exactly one of: connecting, alive, shut down.
  lemma OneOfThree(s: ConnStatus)
    ensures s.Connecting? <==> !Alive(s) && !IsShutdown(s)
    ensures Alive(s) <==> s == Established || s == PeerClosed
    ensures IsShutdown(s) <==> s == Shutdown || s == Deregistered
  {}

  // What the handlers leave of the first side: shut down if one of them did that, else
  // established if one of them did that and it was connecting, else as it was.
  lemma {:induction false} HandlersFirst(p: Pair, ops: seq<Op>)
    ensures PerformAll(p, ops).first ==
      if p.first.Shutdown? || p.first.Deregistered? then p.first
      else if ShutFirst in ops then Shutdown
      else if p.first.Connecting? && EstablishFirst in ops then Established
      else p.first
    decreases |ops|
  {
    if ops != [] {
      assert ops == [ops[0]] + ops[1..];
      HandlersFirst(Perform(p, ops[0]), ops[1..]);
    }
  }

  lemma {:induction false} HandlersSecond(p: Pair, ops: seq<Op>)
    requires p.second.Some?
    ensures var s := p.second.value; PerformAll(p, ops).second == Some(
      if s.Shutdown? || s.Deregistered? then s
      else if ShutSecond in ops then Shutdown
      else if s.Connecting? && EstablishSecond in ops then Established
      else s)
    decreases |ops|
  {
    if ops != [] {
      assert ops == [ops[0]] + ops[1..];
      HandlersSecond(Perform(p, ops[0]), ops[1..]);
    }
  }

  // A second side is there exactly if it was or was attached; it starts established.
  lemma {:induction false} HandlersAttach(p: Pair, ops: seq<Op>)
    requires p.second.None?
    ensures PerformAll(p, ops).second.Some? <==> Attach in ops
    ensures Attach in ops && ShutSecond !in ops ==> PerformAll(p, ops).second == Some(Established)
    decreases |ops|
  {
    if ops != [] {
      assert ops == [ops[0]] + ops[1..];
      var q := Perform(p, ops[0]);
      if q.second.None? { HandlersAttach(q, ops[1..]); } else { HandlersSecond(q, ops[1..]); }
    }
  }

  // What an event leaves alone while the first side still has something to send: neither
  // a shutdown of that side nor a destroy.
  predicate SparesFirst(e: Event) {
    e.Ready? && ShutFirst !in e.ops && !e.firstFinished
  }

  predicate SparesSecond(e: Event) {
    e.Ready? && ShutSecond !in e.ops && !e.secondFinished
  }

  // A side told that its peer is closed is released only by being shut down, by destroy
  // or once it has finished sending; until then it stays as it is, over any run.
  lemma {:induction false} FirstFinishesSending(p: Pair, events: seq<Event>)
    requires p.first.PeerClosed? && forall i :: 0 <= i < |events| ==> SparesFirst(events[i])
    ensures Run(p, events).first.PeerClosed?
    decreases |events|
  {
    if events != [] {
      assert SparesFirst(events[0]);
      HandlersFirst(p, events[0].ops);
      FirstFinishesSending(Step(p, events[0]), events[1..]);
    }
  }

  lemma {:induction false} SecondFinishesSending(p: Pair, events: seq<Event>)
    requires p.second == Some(PeerClosed) && forall i :: 0 <= i < |events| ==> SparesSecond(events[i])
    ensures Run(p, events).second == Some(PeerClosed)
    decreases |events|
  {
    if events != [] {
      assert SparesSecond(events[0]);
      HandlersSecond(p, events[0].ops);
      SecondFinishesSending(Step(p, events[0]), events[1..]);
    }
  }

  // And a live side without cause stays alive: it is neither shut down nor told that its
  // peer is closed unless that is so.
  lemma LiveStays(p: Pair, e: Event)
    requires Coupled(p) && p.second.Some? && e.Ready? && ShutFirst !in e.ops && ShutSecond !in e.ops
    requires p.first.Established? && p.second == Some(Established)
    ensures Step(p, e) == p
  {
    HandlersFirst(p, e.ops);
    HandlersSecond(p, e.ops);
  }

  // When one side is shut down, the other, if live, is told and goes on sending.
  lemma PartnerGoesOn(p: Pair, e: Event)
    requires p.second.Some? && e.Ready?
    ensures var q := Step(p, e);
      && (ShutFirst in e.ops && Rank(p.second.value) <= 2 && SparesSecond(e) ==>
           q == Pair(Deregistered, Some(PeerClosed)))
      && (ShutSecond in e.ops && Rank(p.first) <= 2 && SparesFirst(e) ==>
           q == Pair(PeerClosed, Some(Deregistered)))
  {
    HandlersFirst(p, e.ops);
    HandlersSecond(p, e.ops);
  }

  // Whatever the state, destroying leaves nothing registered.
  lemma DestroyEnds(p: Pair, f: bool, s: bool)
    ensures var q := Step(p, Destroy(f, s));
      q.first.Deregistered? && q.second == if p.second.Some? then Some(Deregistered) else None
  {}

  // Once one side is shut down and the other has nothing left to send, one more event
  // finishes both.
  lemma OneMoreEventFinishes(p: Pair, events: seq<Event>)
    requires Coupled(p)
    ensures var q := Run(p, events);
      q.second.Some? && (IsShutdown(q.first) || IsShutdown(q.second.value))
      ==> Step(q, Ready([], true, true)) == Pair(Deregistered, Some(Deregistered))
  {
    EveryRun(p, events);
  }

  // The connection objects that do this in place.
  class Connection {
    const first: Endpoint
    var second: Endpoint?

    ghost predicate Valid()
      reads this, first, second
    {
      first.Valid() && (second != null ==> second != first && second.Valid())
    }

    ghost function State(): Pair
      reads this, first, second
    {
      Pair(first.status, if second == null then None else Some(second.status))
    }

    // src/server/connection.rs starts without backend, src/proxy/tcp_server.rs with both.
    constructor (first: Endpoint, second: Endpoint?)
      requires first.Valid() && (second != null ==> second.Valid() && second != first)
      ensures Valid() && this.first == first && this.second == second
    {
      this.first := first;
      this.second := second;
    }

    method Handle(op: Op)
      requires Valid()
      modifies this, first, second
      ensures Valid() && State() == Perform(old(State()), op)
      ensures second == old(second) || fresh(second)
    {
      match op {
        case EstablishFirst => first.Establish();
        case ShutFirst => var _ := first.ShutDown();
        case EstablishSecond => if second != null { second.Establish(); }
        case ShutSecond => if second != null { var _ := second.ShutDown(); }
        case Attach => if second == null { second := new Endpoint(Established); }
      }
    }

    // `ready`: handlers, then coupling, then both checks.
    method OnReady(ops: seq<Op>, firstFinished: bool, secondFinished: bool)
      requires Valid()
      modifies this, first, second
      ensures Valid() && State() == Step(old(State()), Ready(ops, firstFinished, secondFinished))
      ensures second == old(second) || fresh(second)
    {
      ghost var start := State();
      for i := 0 to |ops|
        invariant Valid() && (second == old(second) || fresh(second))
        invariant PerformAll(State(), ops[i..]) == PerformAll(start, ops)
      {
        assert ops[i..][0] == ops[i] && ops[i..][1..] == ops[i + 1..];
        Handle(ops[i]);
      }
      if second != null {
        if IsShutdown(first.status) { second.PeerClose(); }
        if IsShutdown(second.status) { first.PeerClose(); }
      }
      first.CheckStatus(firstFinished);
      if second != null { second.CheckStatus(secondFinished); }
    }

    method OnDestroy(firstFinished: bool, secondFinished: bool)
      requires Valid()
      modifies this, first, second
      ensures Valid() && State() == Step(old(State()), Destroy(firstFinished, secondFinished))
      ensures second == old(second)
      ensures first.calls == [CloseConn, Deregister] && (second != null ==> second.calls == [CloseConn, Deregister])
    {
      var _ := first.ShutDown();
      first.CheckStatus(firstFinished);
      if second != null {
        var _ := second.ShutDown();
        second.CheckStatus(secondFinished);
      }
    }
  }
}
