/** Whole visits of clients: arrival, a confirmation that decides what follows, departure;
    and what visits that end badly add up to. */
module WsClients {
  import opened Wrappers
  import opened WsRegistry
  import opened WsProtocol

  // ----- Runs, piece by piece -----

  lemma RunFirst(w: World, e: Event, rest: seq<Event>)
    ensures Run(w, [e] + rest) == Run(Next(w, e), rest)
  {
    assert ([e] + rest)[1..] == rest;
  }

  lemma RunOne(w: World, e: Event)
    ensures Run(w, [e]) == Next(w, e)
  {
    assert Run(Next(w, e), []) == Next(w, e);
  }

  lemma {:induction false} RunConcat(w: World, first: seq<Event>, second: seq<Event>)
    ensures Run(w, first + second) == Run(Run(w, first), second)
    decreases |first|
  {
    if first == [] {
      assert first + second == second;
    } else {
      assert (first + second)[1..] == first[1..] + second;
      RunConcat(Next(w, first[0]), first[1..], second);
    }
  }

  // ----- Arrival -----

  /** What a handler does up to its confirmation. */
  function Arrival(socket: Socket, path: string, ip: string, id: nat): seq<Event> {
    [Open(socket, path, Some(Lower(Strip(path))), ip), Own(id), FirstSubscribe(id)]
  }

  /** The world has one more connection, in the given phase; nothing else of the handlers
      has changed. */
  predicate Joined(w: World, v: World, socket: Socket, owner: string, ip: string, phase: Phase) {
    && v.sockets == w.sockets + [socket] && v.owners == w.owners + [owner]
    && v.ips == w.ips + [ip] && v.phases == w.phases + [phase]
  }

  lemma OpenJoins(w: World, socket: Socket, path: string, ip: string)
    requires Connect(w.reg, ip).Ok? && w.reg.nextId == |w.phases|
    ensures
      var owner, n := Lower(Strip(path)), |w.phases|;
      var v := Next(w, Open(socket, path, Some(owner), ip));
      && Joined(w, v, socket, owner, ip, Opened)
      && v.reg.subscriptions == w.reg.subscriptions
      && n in v.reg.connAddresses && v.reg.connAddresses[n] == {}
  {
  }

  /** The handler of `id` has moved on; no other has. */
  predicate Moved(w: World, v: World, id: nat, phase: Phase)
    requires id < |w.phases|
  {
    && v.phases == w.phases[id := phase]
    && v.sockets == w.sockets && v.owners == w.owners && v.ips == w.ips
  }

  lemma OwnMoves(w: World, id: nat)
    requires Known(w, id) && w.phases[id].Opened?
    ensures
      var v := Next(w, Own(id));
      && Moved(w, v, id, Owned)
      && v.reg.subscriptions == w.reg.subscriptions && v.reg.connAddresses == w.reg.connAddresses
  {
  }

  lemma SubscribeMoves(w: World, id: nat)
    requires Known(w, id) && w.phases[id].Owned? && Lower(w.owners[id]) == w.owners[id]
    requires id in w.reg.connAddresses && w.reg.connAddresses[id] == {}
    requires |Members(w.reg.subscriptions, w.owners[id])| < MAX_SUBS_PER_ADDRESS
    ensures Moved(w, Next(w, FirstSubscribe(id)), id, Confirming)
  {
    assert SubscribeCheck(w.reg, id, w.owners[id]).Subscribed?;
  }

  lemma RunThree(w: World, a: Event, b: Event, c: Event)
    ensures Run(w, [a, b, c]) == Next(Next(Next(w, a), b), c)
  {
    assert [a, b, c] == [a] + ([b] + [c]);
    RunFirst(w, a, [b] + [c]);
    RunFirst(Next(w, a), b, [c]);
    RunOne(Next(Next(w, a), b), c);
  }

  lemma ArrivalJoins(w: World, socket: Socket, path: string, ip: string)
    requires Connect(w.reg, ip).Ok?
    requires |w.owners| == |w.sockets| == |w.phases| == w.reg.nextId
    requires |Members(w.reg.subscriptions, Lower(Strip(path)))| < MAX_SUBS_PER_ADDRESS
    ensures Joined(w, Run(w, Arrival(socket, path, ip, |w.phases|)), socket, Lower(Strip(path)), ip, Confirming)
  {
    var n, owner := |w.phases|, Lower(Strip(path));
    var open := Open(socket, path, Some(owner), ip);
    var v1 := Next(w, open);
    var v2 := Next(v1, Own(n));
    OpenJoins(w, socket, path, ip);
    OwnMoves(v1, n);
    LowerIdempotent(Strip(path));
    SubscribeMoves(v2, n);
    RunThree(w, open, Own(n), FirstSubscribe(n));
  }

  /** A client with a token for its path gets as far as its confirmation whenever the caps
      leave room. */
  lemma Arrives(w: World, socket: Socket, path: string, ip: string)
    requires WorldValid(w) && Connect(w.reg, ip).Ok?
    requires |Members(w.reg.subscriptions, Lower(Strip(path)))| < MAX_SUBS_PER_ADDRESS
    ensures
      var v := Run(w, Arrival(socket, path, ip, |w.phases|));
      WorldValid(v) && Joined(w, v, socket, Lower(Strip(path)), ip, Confirming)
  {
    ArrivalJoins(w, socket, path, ip);
    RunValid(w, Arrival(socket, path, ip, |w.phases|));
  }

  // ----- Departure -----

  function Departure(id: nat, owner: string): seq<Event> {
    [Leave(id), CloseOne(id, owner), Drop(id)]
  }

  lemma LeaveMoves(w: World, id: nat, owner: string)
    requires Known(w, id) && w.phases[id] == Serving({owner})
    ensures Moved(w, Next(w, Leave(id)), id, Closing({owner}))
    ensures Moved(w, Next(Next(w, Leave(id)), CloseOne(id, owner)), id, Closing({}))
  {
    assert {owner} - {owner} == {};
  }

  lemma DropMoves(w: World, id: nat)
    requires Known(w, id) && w.phases[id] == Closing({})
    ensures Moved(w, Next(w, Drop(id)), id, Gone)
  {
  }

  lemma Departs(w: World, id: nat, owner: string)
    requires Known(w, id) && w.phases[id] == Serving({owner})
    ensures Moved(w, Run(w, Departure(id, owner)), id, Gone)
  {
    LeaveMoves(w, id, owner);
    DropMoves(Next(Next(w, Leave(id)), CloseOne(id, owner)), id);
    RunThree(w, Leave(id), CloseOne(id, owner), Drop(id));
  }

  lemma Released(w: World, id: nat)
    requires WorldValid(w) && id < |w.phases|
    ensures id in w.reg.connAddresses <==> Live(w.phases[id])
  {
  }

  lemma DeliveredReleases(w: World, id: nat)
    requires WorldValid(w) && Enabled(w, Confirm(id, true))
    ensures id !in Run(Next(w, Confirm(id, true)), Departure(id, w.owners[id])).reg.connAddresses
  {
    var v := Next(w, Confirm(id, true));
    var u := Run(v, Departure(id, w.owners[id]));
    Departs(v, id, w.owners[id]);
    assert WorldValid(u) by {
      NextValid(w, Confirm(id, true));
      RunValid(v, Departure(id, w.owners[id]));
    }
    Released(u, id);
  }

  lemma FailedKeeps(w: World, id: nat, events: seq<Event>)
    requires WorldValid(w) && Enabled(w, Confirm(id, false))
    ensures id in Run(Next(w, Confirm(id, false)), events).reg.connAddresses
  {
    NextValid(w, Confirm(id, false));
    EndedHandlerReleasedIff(Next(w, Confirm(id, false)), events, id);
  }

  /** The confirmation decides: if it is delivered the client can leave and is released; if
      it fails, no later event, of whatever kind, ever releases the connection. */
  lemma ConfirmationDecides(w: World, id: nat, delivered: bool)
    requires WorldValid(w) && Enabled(w, Confirm(id, delivered))
    ensures (exists events :: id !in Run(Next(w, Confirm(id, delivered)), events).reg.connAddresses) <==> delivered
  {
    if delivered {
      DeliveredReleases(w, id);
    } else {
      forall events
        ensures id in Run(Next(w, Confirm(id, delivered)), events).reg.connAddresses
      {
        FailedKeeps(w, id, events);
      }
    }
  }

  // ----- Leaks -----

  /** A word of `n` letters: distinct paths and addresses for distinct clients. */
  function Word(c: char, n: nat): (s: string)
    ensures |s| == n
    ensures forall i :: 0 <= i < n ==> s[i] == c
  {
    if n == 0 then [] else [c] + Word(c, n - 1)
  }

  lemma {:induction false} LowerWord(c: char, n: nat)
    requires LowerChar(c) == c
    ensures Lower(Word(c, n)) == Word(c, n)
  {
    if n > 0 {
      LowerWord(c, n - 1);
    }
  }

  lemma PlainWord(n: nat)
    ensures Lower(Strip(Word('a', n))) == Word('a', n)
  {
    var s := Word('a', n);
    assert n > 0 ==> s[0] == 'a' && s[n - 1] == 'a';
    assert StripLeft(s) == s && StripRight(s) == s;
    LowerWord('a', n);
  }

  /** The n-th client: its own address and IP, and a confirmation that fails. */
  function Leak(n: nat): seq<Event> {
    Arrival(Socket(n), Word('a', n + 20), Word('1', n + 1), n) + [Confirm(n, false)]
  }

  function Leaks(n: nat): seq<Event> {
    if n == 0 then [] else Leaks(n - 1) + Leak(n - 1)
  }

  predicate AllLeaked(w: World, n: nat) {
    && |w.phases| == |w.owners| == |w.ips| == n
    && (forall i :: 0 <= i < n ==>
          w.phases[i] == Leaked && w.owners[i] == Word('a', i + 20) && w.ips[i] == Word('1', i + 1))
  }

  function Below(n: nat): (s: set<nat>)
    ensures |s| == n
    ensures forall i: nat :: i in s <==> i < n
  {
    if n == 0 then {} else Below(n - 1) + {n - 1}
  }

  lemma NewIp(g: Registry, ips: seq<string>, ip: string)
    requires IpsOk(g, ips) && forall i :: 0 <= i < |ips| ==> ips[i] != ip
    ensures Members(g.ipConnections, ip) == {}
  {
    assert forall c: nat :: c in Members(g.ipConnections, ip) ==> c in Held(ips, g.connIps.Keys);
    assert forall c: nat :: c !in Members(g.ipConnections, ip);
  }

  lemma SubscribedToOwner(w: World, a: string, s: Sub)
    requires WorldValid(w) && s in Members(w.reg.subscriptions, a)
    ensures s.id < |w.owners| && w.owners[s.id] == a
  {
    assert a in w.reg.connAddresses[s.id];
  }

  lemma NewAddress(w: World, a: string)
    requires WorldValid(w) && forall i :: 0 <= i < |w.owners| ==> w.owners[i] != a
    ensures Members(w.reg.subscriptions, a) == {}
  {
    var subs := Members(w.reg.subscriptions, a);
    if subs != {} {
      var s :| s in subs;
      SubscribedToOwner(w, a, s);
    }
  }

  lemma AtMostAll(w: World)
    requires WorldValid(w)
    ensures |w.reg.connAddresses| <= |w.phases|
  {
    FewerMembers(w.reg.connAddresses.Keys, Below(|w.phases|));
    assert |w.reg.connAddresses| == |w.reg.connAddresses.Keys|;
  }

  /** There is room for a client with a new IP while fewer than 200 have come. */
  lemma RoomForIp(w: World, ip: string)
    requires WorldValid(w) && |w.phases| < MAX_CONNECTIONS_GLOBAL
    requires forall i :: 0 <= i < |w.ips| ==> w.ips[i] != ip
    ensures Connect(w.reg, ip).Ok?
  {
    AtMostAll(w);
    NewIp(w.reg, w.ips, ip);
  }

  lemma RoomForLeak(w: World, n: nat)
    requires WorldValid(w) && AllLeaked(w, n) && n < MAX_CONNECTIONS_GLOBAL
    ensures Connect(w.reg, Word('1', n + 1)).Ok?
    ensures Members(w.reg.subscriptions, Word('a', n + 20)) == {}
  {
    RoomForIp(w, Word('1', n + 1));
    NewAddress(w, Word('a', n + 20));
  }

  lemma ConfirmJoins(w: World, v: World, socket: Socket, owner: string, ip: string, delivered: bool)
    requires Joined(w, v, socket, owner, ip, Confirming) && |w.owners| == |w.sockets| == |w.phases|
    ensures Joined(w, Next(v, Confirm(|w.phases|, delivered)), socket, owner, ip,
                   if delivered then Serving({owner}) else Leaked)
  {
  }

  lemma LeakArrives(w: World, n: nat)
    requires WorldValid(w) && AllLeaked(w, n) && n < MAX_CONNECTIONS_GLOBAL
    ensures |w.owners| == |w.sockets| == |w.phases| == n
    ensures Joined(w, Run(w, Arrival(Socket(n), Word('a', n + 20), Word('1', n + 1), n)),
                   Socket(n), Word('a', n + 20), Word('1', n + 1), Confirming)
  {
    RoomForLeak(w, n);
    PlainWord(n + 20);
    Arrives(w, Socket(n), Word('a', n + 20), Word('1', n + 1));
  }

  lemma LeakMoves(w: World, n: nat)
    requires WorldValid(w) && AllLeaked(w, n) && n < MAX_CONNECTIONS_GLOBAL
    ensures Joined(w, Run(w, Leak(n)), Socket(n), Word('a', n + 20), Word('1', n + 1), Leaked)
  {
    var arrival := Arrival(Socket(n), Word('a', n + 20), Word('1', n + 1), n);
    var v := Run(w, arrival);
    LeakArrives(w, n);
    ConfirmJoins(w, v, Socket(n), Word('a', n + 20), Word('1', n + 1), false);
    assert Run(w, Leak(n)) == Next(v, Confirm(n, false)) by {
      RunConcat(w, arrival, [Confirm(n, false)]);
      RunOne(v, Confirm(n, false));
    }
  }

  lemma OneMoreLeaked(w: World, v: World, n: nat)
    requires AllLeaked(w, n) && Joined(w, v, Socket(n), Word('a', n + 20), Word('1', n + 1), Leaked)
    ensures AllLeaked(v, n + 1)
  {
  }

  lemma LeakStep(start: World, n: nat)
    requires WorldValid(start) && n < MAX_CONNECTIONS_GLOBAL
    requires AllLeaked(Run(start, Leaks(n)), n)
    ensures AllLeaked(Run(start, Leaks(n + 1)), n + 1)
  {
    var w := Run(start, Leaks(n));
    var v := Run(w, Leak(n));
    assert Joined(w, v, Socket(n), Word('a', n + 20), Word('1', n + 1), Leaked) by {
      RunValid(start, Leaks(n));
      LeakMoves(w, n);
    }
    OneMoreLeaked(w, v, n);
    RunConcat(start, Leaks(n), Leak(n));
  }

  lemma {:induction false} LeaksReachable(start: World, n: nat)
    requires WorldValid(start) && AllLeaked(start, 0) && n <= MAX_CONNECTIONS_GLOBAL
    ensures AllLeaked(Run(start, Leaks(n)), n)
  {
    if n > 0 {
      LeaksReachable(start, n - 1);
      LeakStep(start, n - 1);
    }
  }

  /** Two hundred leaked connections leave no room for another, ever. */
  lemma LeaksBlock(
      w: World, ids: set<nat>, later: seq<Event>,
      socket: Socket, path: string, subject: Option<string>, ip: string)
    requires WorldValid(w) && |ids| >= MAX_CONNECTIONS_GLOBAL
    requires forall c :: c in ids ==> c < |w.phases| && w.phases[c].Leaked?
    ensures OpenStep(Run(w, later), socket, path, subject, ip) == Run(w, later)
  {
    var v := Run(w, later);
    RunValid(w, later);
    RunKeepsIds(w, later);
    assert ids <= v.reg.connAddresses.Keys;
    FewerMembers(ids, v.reg.connAddresses.Keys);
    assert |v.reg.connAddresses| == |v.reg.connAddresses.Keys|;
  }

  lemma LeakedBlock(
      w: World, n: nat, later: seq<Event>, socket: Socket, path: string, subject: Option<string>, ip: string)
    requires WorldValid(w) && AllLeaked(w, n) && n >= MAX_CONNECTIONS_GLOBAL
    ensures OpenStep(Run(w, later), socket, path, subject, ip) == Run(w, later)
  {
    LeaksBlock(w, Below(n), later, socket, path, subject, ip);
  }

  /** And two hundred failed confirmations bring that about: afterwards no client is ever
      accepted, whatever happens. */
  lemma LeaksCloseServer(
      n: nat, later: seq<Event>, socket: Socket, path: string, subject: Option<string>, ip: string)
    requires n == MAX_CONNECTIONS_GLOBAL
    ensures
      var v := Run(Run(START, Leaks(n)), later);
      OpenStep(v, socket, path, subject, ip) == v
  {
    StartValid();
    LeaksReachable(START, n);
    RunValid(START, Leaks(n));
    LeakedBlock(Run(START, Leaks(n)), n, later, socket, path, subject, ip);
  }

  // ----- Empty IP texts -----

  /** The n-th client without an IP text comes, is served and leaves. */
  function Visit(n: nat): seq<Event> {
    Arrival(Socket(n), "a", "", n) + ([Confirm(n, true)] + Departure(n, "a"))
  }

  function Visits(n: nat): seq<Event> {
    if n == 0 then [] else Visits(n - 1) + Visit(n - 1)
  }

  predicate AllVisited(w: World, n: nat) {
    && |w.phases| == |w.ips| == n
    && (forall i :: 0 <= i < n ==> w.phases[i] == Gone && w.ips[i] == "")
  }

  lemma NobodySubscribed(g: Registry, sockets: seq<Socket>)
    requires Valid(g, sockets)
    ensures g.connAddresses == map[] ==> g.subscriptions == map[]
  {
    forall a | a in g.subscriptions
      ensures exists c :: c in g.connAddresses
    {
      var s :| s in g.subscriptions[a];
      assert s.id in g.connAddresses;
    }
  }

  lemma NobodyLeft(w: World, n: nat)
    requires WorldValid(w) && AllVisited(w, n)
    ensures w.reg.connAddresses == map[] && w.reg.subscriptions == map[]
  {
    forall c: nat
      ensures c !in w.reg.connAddresses
    {
      if c < n {
        Released(w, c);
      }
    }
    NobodySubscribed(w.reg, w.sockets);
  }

  /** There is room for one more, although every visit is still counted. */
  lemma RoomForVisit(w: World, n: nat)
    requires WorldValid(w) && AllVisited(w, n) && n < MAX_CONNECTIONS_PER_IP
    ensures Connect(w.reg, "").Ok?
    ensures Members(w.reg.subscriptions, "a") == {}
  {
    NobodyLeft(w, n);
    VisitsCounted(w.reg, w.ips);
  }

  lemma VisitsCounted(g: Registry, ips: seq<string>)
    requires IpsOk(g, ips)
    ensures |Members(g.ipConnections, "")| <= |ips|
  {
    var counted := Members(g.ipConnections, "");
    assert forall c: nat :: c in counted ==> c in Held(ips, g.connIps.Keys);
    assert counted <= Below(|ips|);
    FewerMembers(counted, Below(|ips|));
  }

  lemma VisitArrives(w: World, n: nat)
    requires WorldValid(w) && AllVisited(w, n) && n < MAX_CONNECTIONS_PER_IP
    ensures |w.owners| == |w.sockets| == |w.phases| == n
    ensures Joined(w, Run(w, Arrival(Socket(n), "a", "", n)), Socket(n), "a", "", Confirming)
  {
    assert Word('a', 1) == "a";
    PlainWord(1);
    RoomForVisit(w, n);
    Arrives(w, Socket(n), "a", "");
  }

  lemma DepartJoins(w: World, v: World, socket: Socket, owner: string, ip: string)
    requires Joined(w, v, socket, owner, ip, Serving({owner})) && |w.owners| == |w.sockets| == |w.phases|
    ensures Joined(w, Run(v, Departure(|w.phases|, owner)), socket, owner, ip, Gone)
  {
    Departs(v, |w.phases|, owner);
  }

  lemma VisitMoves(w: World, n: nat)
    requires WorldValid(w) && AllVisited(w, n) && n < MAX_CONNECTIONS_PER_IP
    ensures Joined(w, Run(w, Visit(n)), Socket(n), "a", "", Gone)
  {
    var arrival := Arrival(Socket(n), "a", "", n);
    var v := Run(w, arrival);
    var u := Next(v, Confirm(n, true));
    VisitArrives(w, n);
    ConfirmJoins(w, v, Socket(n), "a", "", true);
    DepartJoins(w, u, Socket(n), "a", "");
    assert Run(w, Visit(n)) == Run(u, Departure(n, "a")) by {
      RunConcat(w, arrival, [Confirm(n, true)] + Departure(n, "a"));
      RunFirst(v, Confirm(n, true), Departure(n, "a"));
    }
  }

  lemma VisitStep(start: World, n: nat)
    requires WorldValid(start) && n < MAX_CONNECTIONS_PER_IP
    requires AllVisited(Run(start, Visits(n)), n)
    ensures AllVisited(Run(start, Visits(n + 1)), n + 1)
  {
    var w := Run(start, Visits(n));
    RunValid(start, Visits(n));
    VisitMoves(w, n);
    RunConcat(start, Visits(n), Visit(n));
  }

  lemma {:induction false} VisitsReachable(start: World, n: nat)
    requires WorldValid(start) && AllVisited(start, 0) && n <= MAX_CONNECTIONS_PER_IP
    ensures AllVisited(Run(start, Visits(n)), n)
  {
    if n > 0 {
      VisitsReachable(start, n - 1);
      VisitStep(start, n - 1);
    }
  }

  /** After five clients without an IP text have come and gone nobody is connected, and yet
      no other client without one is ever accepted. */
  lemma EmptyIpExhausted(n: nat, later: seq<Event>, socket: Socket, path: string, subject: Option<string>)
    requires n == MAX_CONNECTIONS_PER_IP
    ensures
      var w := Run(START, Visits(n));
      && w.reg.connAddresses == map[]
      && OpenStep(Run(w, later), socket, path, subject, "") == Run(w, later)
  {
    var w := Run(START, Visits(n));
    StartValid();
    VisitsReachable(START, n);
    RunValid(START, Visits(n));
    NobodyLeft(w, n);
    EmptyIpBlocked(w, later, Below(n), socket, path, subject);
  }
}
