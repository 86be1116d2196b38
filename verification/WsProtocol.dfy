/** Every interleaving of the WebSocket route handlers with broadcasts. A handler is the
    only client of the manager for its connection; each event is one atomic step: a lock
    section, or work between two awaits. Broadcasts snapshot under the lock, send without
    it, and re-enter it to clean up, so any event may come in between. */
module WsProtocol {
  import opened Wrappers
  import opened WsRegistry

  // ----- Handlers -----

  /** `Confirming`: subscribed, the confirmation not yet sent. `Serving` and `Closing` carry
      the handler's own list of addresses. `Leaked`: the confirmation failed, before the
      protected part of the handler began, so nothing disconnects the connection. */
  datatype Phase =
    | Opened | Owned | Confirming | Rejected
    | Serving(tracked: set<string>)
    | Closing(rest: set<string>)
    | Gone
    | Leaked

  /** `results[i]` tells how the i-th send went; `address` is absent for a global broadcast. */
  datatype Flight = Flight(address: Option<string>, targets: seq<Sub>, results: seq<bool>, open: bool)

  /** `sockets`, `ips`, `owners` and `phases` are indexed by connection id. */
  datatype World = World(
    reg: Registry, sockets: seq<Socket>, ips: seq<string>, owners: seq<string>, phases: seq<Phase>,
    flights: seq<Flight>)

  datatype Event =
    | Open(socket: Socket, path: string, subject: Option<string>, ip: string)
    | Own(id: nat)
    | FirstSubscribe(id: nat)
    | Confirm(id: nat, delivered: bool)
    | SubscribeMessage(id: nat, text: string)
    | UnsubscribeMessage(id: nat, text: string)
    | Leave(id: nat)
    | CloseOne(id: nat, address: string)
    | Drop(id: nat)
    | StartAddress(address: string, order: seq<Sub>)
    | StartGlobal(order: seq<Sub>)
    | Send(flight: nat, delivered: bool)
    | Finish(flight: nat)

  // ----- Text -----

  predicate IsSpace(c: char) {
    c == ' ' || '\t' <= c <= '\r' || '\U{1c}' <= c <= '\U{1f}'
  }

  function StripLeft(s: string): string {
    if s != [] && IsSpace(s[0]) then StripLeft(s[1..]) else s
  }

  function StripRight(s: string): string {
    if s != [] && IsSpace(s[|s| - 1]) then StripRight(s[..|s| - 1]) else s
  }

  function Strip(s: string): string {
    StripRight(StripLeft(s))
  }

  /** `split(",")[0]` */
  function FirstField(s: string): string {
    if s == [] || s[0] == ',' then [] else [s[0]] + FirstField(s[1..])
  }

  /** `_get_client_ip`: the first forwarded address, else the peer's, else a word. */
  function ClientIp(forwarded: Option<string>, host: Option<string>): string {
    if forwarded.Some? && forwarded.value != "" then Strip(FirstField(forwarded.value))
    else if host.Some? then host.value
    else "unknown"
  }

  // ----- Steps -----

  function OpenStep(w: World, socket: Socket, path: string, subject: Option<string>, ip: string): World {
    if subject.None? || Lower(Strip(path)) != subject.value then w
    else
      var r := Connect(w.reg, ip);
      if r.Err? then w
      else w.(reg := r.value, sockets := w.sockets + [socket], ips := w.ips + [ip],
              owners := w.owners + [subject.value], phases := w.phases + [Opened])
  }

  predicate Known(w: World, id: nat) {
    id < |w.phases| && id < |w.sockets| && id < |w.owners|
  }

  function WithPhase(w: World, id: nat, phase: Phase): World
    requires Known(w, id)
  {
    w.(phases := w.phases[id := phase])
  }

  function FirstSubscribeStep(w: World, id: nat): World
    requires Known(w, id)
  {
    var outcome := SubscribeCheck(w.reg, id, w.owners[id]);
    WithPhase(w, id, if outcome.Subscribed? then Confirming else Rejected)
      .(reg := Subscribe(w.reg, id, w.owners[id], w.sockets[id]))
  }

  /** Only the connection's own address passes, and only if it is 20 characters or more. */
  function SubscribeMessageStep(w: World, id: nat, text: string): World
    requires Known(w, id) && w.phases[id].Serving?
  {
    var address := Lower(Strip(text));
    if |address| < 20 || address != w.owners[id] then w
    else
      var tracked := w.phases[id].tracked;
      var outcome := SubscribeCheck(w.reg, id, address);
      WithPhase(w, id, Serving(if outcome.Subscribed? then tracked + {address} else tracked))
        .(reg := Subscribe(w.reg, id, address, w.sockets[id]))
  }

  function UnsubscribeMessageStep(w: World, id: nat, text: string): World
    requires Known(w, id) && w.phases[id].Serving?
  {
    if text == "" then w
    else WithPhase(w, id, Serving(w.phases[id].tracked - {text})).(reg := Unsubscribe(w.reg, id, text))
  }

  function FinishStep(w: World, i: nat): World
    requires i < |w.flights| && |w.flights[i].results| == |w.flights[i].targets|
  {
    var f := w.flights[i];
    var dead := Failed(f.targets, f.results);
    w.(reg := if f.address.Some? then CleanAddress(w.reg, f.address.value, dead) else CleanGlobal(w.reg, dead),
       flights := w.flights[i := f.(open := false)])
  }

  /** When an event can happen: the handler is at that point, the snapshot is one of the
      current registry, the send or cleanup is due. */
  ghost predicate Enabled(w: World, e: Event) {
    match e
    case Open(_, _, _, _) => true
    case Own(id) => Known(w, id) && w.phases[id].Opened?
    case FirstSubscribe(id) => Known(w, id) && w.phases[id].Owned?
    case Confirm(id, _) => Known(w, id) && w.phases[id].Confirming?
    case SubscribeMessage(id, _) => Known(w, id) && w.phases[id].Serving?
    case UnsubscribeMessage(id, _) => Known(w, id) && w.phases[id].Serving?
    case Leave(id) => Known(w, id) && w.phases[id].Serving?
    case CloseOne(id, address) => Known(w, id) && w.phases[id].Closing? && address in w.phases[id].rest
    case Drop(id) => Known(w, id) && (w.phases[id].Rejected? || w.phases[id] == Closing({}))
    case StartAddress(address, order) => IsSnapshot(w.reg, Lower(address), order)
    case StartGlobal(order) => IsGlobalSnapshot(w.reg, order)
    case Send(i, _) => i < |w.flights| && w.flights[i].open && |w.flights[i].results| < |w.flights[i].targets|
    case Finish(i) => i < |w.flights| && w.flights[i].open && |w.flights[i].results| == |w.flights[i].targets|
  }

  /** An event that cannot happen changes nothing. */
  ghost function Next(w: World, e: Event): World {
    if !Enabled(w, e) then w
    else
      match e
      case Open(socket, path, subject, ip) => OpenStep(w, socket, path, subject, ip)
      case Own(id) => WithPhase(w, id, Owned).(reg := SetOwner(w.reg, id, w.owners[id]))
      case FirstSubscribe(id) => FirstSubscribeStep(w, id)
      case Confirm(id, delivered) => WithPhase(w, id, if delivered then Serving({w.owners[id]}) else Leaked)
      case SubscribeMessage(id, text) => SubscribeMessageStep(w, id, text)
      case UnsubscribeMessage(id, text) => UnsubscribeMessageStep(w, id, text)
      case Leave(id) => WithPhase(w, id, Closing(w.phases[id].tracked))
      case CloseOne(id, address) =>
        WithPhase(w, id, Closing(w.phases[id].rest - {address})).(reg := Unsubscribe(w.reg, id, address))
      case Drop(id) => WithPhase(w, id, Gone).(reg := Disconnect(w.reg, id))
      case StartAddress(address, order) =>
        w.(flights := w.flights + [Flight(Some(Lower(address)), order, [], true)])
      case StartGlobal(order) => w.(flights := w.flights + [Flight(None, order, [], true)])
      case Send(i, delivered) =>
        var f := w.flights[i];
        w.(flights := w.flights[i := f.(results := f.results + [delivered])])
      case Finish(i) => FinishStep(w, i)
  }

  ghost function Run(w: World, events: seq<Event>): World
    decreases |events|
  {
    if events == [] then w else Run(Next(w, events[0]), events[1..])
  }

  const START: World := World(EMPTY, [], [], [], [], [])

  // ----- Invariant -----

  /** The handler has not finished with the connection, or has lost it. */
  predicate Live(phase: Phase) {
    !phase.Gone?
  }

  predicate HasOwner(phase: Phase) {
    !phase.Opened? && !phase.Gone?
  }

  /** A connection is registered exactly while its handler has not let go of it. */
  ghost predicate LiveOk(addresses: map<nat, set<string>>, phases: seq<Phase>) {
    forall id :: 0 <= id < |phases| ==> (id in addresses <==> Live(phases[id]))
  }

  /** It is locked to its authenticated address from the moment it is owned. */
  ghost predicate OwnersOk(connOwner: map<nat, string>, owners: seq<string>, phases: seq<Phase>) {
    && |owners| == |phases|
    && (forall id :: 0 <= id < |phases| ==> (id in connOwner <==> HasOwner(phases[id])))
    && (forall id :: id in connOwner ==> id < |owners| && connOwner[id] == owners[id])
    && (forall id :: 0 <= id < |owners| ==> Lower(owners[id]) == owners[id])
  }

  /** SEC-A1: it is subscribed to nothing but that address. */
  ghost predicate OnlyOwnAddress(addresses: map<nat, set<string>>, owners: seq<string>) {
    forall id :: id in addresses ==> id < |owners| && addresses[id] <= {owners[id]}
  }

  ghost predicate FlightOk(f: Flight, sockets: seq<Socket>) {
    && |f.results| <= |f.targets|
    && Remembered(f.targets, sockets)
    && (forall i, j :: 0 <= i < j < |f.targets| ==> f.targets[i].id != f.targets[j].id)
  }

  ghost predicate FlightsOk(flights: seq<Flight>, sockets: seq<Socket>) {
    forall i :: 0 <= i < |flights| ==> FlightOk(flights[i], sockets)
  }

  ghost predicate HandlersOk(w: World) {
    && |w.owners| == |w.phases| == |w.sockets|
    && LiveOk(w.reg.connAddresses, w.phases)
    && OwnersOk(w.reg.connOwner, w.owners, w.phases)
    && OnlyOwnAddress(w.reg.connAddresses, w.owners)
    && FlightsOk(w.flights, w.sockets)
  }

  /** The connections an IP's entry counts: the registered ones, and for the empty text
      every one there ever was. */
  function Held(ips: seq<string>, live: set<nat>): map<nat, string> {
    map c: nat | c < |ips| && (c in live || ips[c] == "") :: ips[c]
  }

  ghost predicate IpsOk(g: Registry, ips: seq<string>) {
    && |ips| == g.nextId
    && (forall c :: c in g.connIps ==> c < |ips| && g.connIps[c] == ips[c])
    && IpInverse(g.ipConnections, Held(ips, g.connIps.Keys))
  }

  ghost predicate WorldValid(w: World) {
    Valid(w.reg, w.sockets) && IpsOk(w.reg, w.ips) && HandlersOk(w)
  }

  // ----- Registry part of each step -----

  lemma StartValid()
    ensures WorldValid(START)
  {
    WsRegistry.EmptyValid();
    assert Held([], {}) == map[];
  }

  lemma OpenFlights(flights: seq<Flight>, sockets: seq<Socket>, socket: Socket)
    requires FlightsOk(flights, sockets)
    ensures FlightsOk(flights, sockets + [socket])
  {
    forall i | 0 <= i < |flights|
      ensures FlightOk(flights[i], sockets + [socket])
    {
      assert FlightOk(flights[i], sockets);
    }
  }

  lemma OpenHandlers(w: World, v: World, socket: Socket, owner: string)
    requires HandlersOk(w) && w.reg.nextId == |w.sockets| && Lower(owner) == owner
    requires v.reg.connAddresses == w.reg.connAddresses[w.reg.nextId := {}]
    requires v.reg.connOwner == w.reg.connOwner && v.flights == w.flights
    requires v.sockets == w.sockets + [socket] && v.owners == w.owners + [owner]
    requires v.phases == w.phases + [Opened]
    ensures HandlersOk(v)
  {
    assert FlightsOk(v.flights, v.sockets) by {
      OpenFlights(w.flights, w.sockets, socket);
    }
  }

  lemma HeldMore(ips: seq<string>, live: set<nat>, ip: string)
    requires forall c :: c in live ==> c < |ips|
    ensures Held(ips + [ip], live + {|ips|}) == Held(ips, live)[|ips| := ip]
  {
  }

  lemma OpenHeld(byIp: map<string, set<nat>>, ips: seq<string>, live: set<nat>, ip: string)
    requires IpInverse(byIp, Held(ips, live)) && forall c :: c in live ==> c < |ips|
    ensures IpInverse(byIp[ip := Members(byIp, ip) + {|ips|}], Held(ips + [ip], live + {|ips|}))
  {
    HeldMore(ips, live, ip);
    ConnectedIps(byIp, Held(ips, live), ip, |ips|);
  }

  lemma OpenAgrees(ips: seq<string>, connIps: map<nat, string>, ip: string)
    requires forall c :: c in connIps ==> c < |ips| && connIps[c] == ips[c]
    ensures forall c :: c in connIps[|ips| := ip] ==>
              c < |ips + [ip]| && connIps[|ips| := ip][c] == (ips + [ip])[c]
    ensures connIps[|ips| := ip].Keys == connIps.Keys + {|ips|}
  {
  }

  lemma OpenIps(g: Registry, ips: seq<string>, ip: string)
    requires IpsOk(g, ips) && Connect(g, ip).Ok?
    ensures IpsOk(Connect(g, ip).value, ips + [ip])
  {
    OpenAgrees(ips, g.connIps, ip);
    OpenHeld(g.ipConnections, ips, g.connIps.Keys, ip);
    IpsFrom(Connect(g, ip).value, ips + [ip], g.connIps.Keys + {|ips|});
  }

  lemma IpsFrom(h: Registry, ips: seq<string>, live: set<nat>)
    requires |ips| == h.nextId && h.connIps.Keys == live
    requires forall c :: c in h.connIps ==> c < |ips| && h.connIps[c] == ips[c]
    requires IpInverse(h.ipConnections, Held(ips, live))
    ensures IpsOk(h, ips)
  {
  }

  lemma OpenAccepted(w: World, v: World, socket: Socket, owner: string, ip: string)
    requires WorldValid(w) && Connect(w.reg, ip).Ok? && Lower(owner) == owner
    requires v == World(Connect(w.reg, ip).value, w.sockets + [socket], w.ips + [ip], w.owners + [owner],
                        w.phases + [Opened], w.flights)
    ensures WorldValid(v)
  {
    assert Valid(v.reg, v.sockets) by {
      ConnectValid(w.reg, w.sockets, ip, socket);
    }
    assert IpsOk(v.reg, v.ips) by {
      OpenIps(w.reg, w.ips, ip);
    }
    assert HandlersOk(v) by {
      OpenHandlers(w, v, socket, owner);
    }
  }

  lemma OpenValid(w: World, socket: Socket, path: string, subject: Option<string>, ip: string)
    requires WorldValid(w)
    ensures WorldValid(OpenStep(w, socket, path, subject, ip))
  {
    if subject == Some(Lower(Strip(path))) && Connect(w.reg, ip).Ok? {
      LowerIdempotent(Strip(path));
      OpenAccepted(w, OpenStep(w, socket, path, subject, ip), socket, subject.value, ip);
    }
  }

  /** A step of one live handler that changes only its own subscriptions and phase. */
  lemma HandlerStepOk(w: World, v: World, id: nat, phase: Phase)
    requires HandlersOk(w) && Known(w, id)
    requires v == w.(reg := v.reg, phases := w.phases[id := phase])
    requires Live(phase) == Live(w.phases[id]) && HasOwner(phase) == HasOwner(w.phases[id])
    requires v.reg.connOwner == w.reg.connOwner
    requires v.reg.connAddresses.Keys == w.reg.connAddresses.Keys
    requires forall c :: c in w.reg.connAddresses && c != id ==> v.reg.connAddresses[c] == w.reg.connAddresses[c]
    requires id in v.reg.connAddresses ==> v.reg.connAddresses[id] <= {w.owners[id]}
    ensures HandlersOk(v)
  {
    assert LiveOk(v.reg.connAddresses, v.phases);
    assert OwnersOk(v.reg.connOwner, v.owners, v.phases);
  }

  lemma SubscribeHandlers(w: World, id: nat, phase: Phase)
    requires HandlersOk(w) && Known(w, id) && id in w.reg.connAddresses
    requires Live(phase) == Live(w.phases[id]) && HasOwner(phase) == HasOwner(w.phases[id])
    ensures HandlersOk(WithPhase(w, id, phase).(reg := Subscribe(w.reg, id, w.owners[id], w.sockets[id])))
  {
    var v := WithPhase(w, id, phase).(reg := Subscribe(w.reg, id, w.owners[id], w.sockets[id]));
    assert v.reg.connAddresses.Keys == w.reg.connAddresses.Keys;
    HandlerStepOk(w, v, id, phase);
  }

  /** A section that leaves the IP maps alone. */
  lemma SameIps(g: Registry, h: Registry, ips: seq<string>)
    requires IpsOk(g, ips)
    requires h.connIps == g.connIps && h.ipConnections == g.ipConnections && h.nextId == g.nextId
    ensures IpsOk(h, ips)
  {
  }

  lemma SubscribeIps(g: Registry, ips: seq<string>, id: nat, address: string, socket: Socket)
    requires IpsOk(g, ips)
    ensures IpsOk(Subscribe(g, id, address, socket), ips)
  {
    SameIps(g, Subscribe(g, id, address, socket), ips);
  }

  lemma LiveKnown(w: World, id: nat)
    requires HandlersOk(w) && Known(w, id) && Live(w.phases[id])
    ensures id in w.reg.connAddresses
  {
  }

  /** The same with the handler moving on. */
  lemma SubscribeStepValid(w: World, v: World, id: nat, phase: Phase)
    requires WorldValid(w) && Known(w, id) && Live(w.phases[id]) && HasOwner(w.phases[id])
    requires Live(phase) && HasOwner(phase)
    requires v == WithPhase(w, id, phase).(reg := Subscribe(w.reg, id, w.owners[id], w.sockets[id]))
    ensures WorldValid(v)
  {
    LiveKnown(w, id);
    assert Valid(v.reg, v.sockets) by {
      SubscribeValid(w.reg, w.sockets, id, w.owners[id]);
    }
    assert IpsOk(v.reg, v.ips) by {
      SubscribeIps(w.reg, w.ips, id, w.owners[id], w.sockets[id]);
    }
    assert HandlersOk(v) by {
      SubscribeHandlers(w, id, phase);
    }
  }

  lemma UnsubscribeHandlers(w: World, id: nat, phase: Phase, address: string)
    requires HandlersOk(w) && Known(w, id)
    requires Live(phase) == Live(w.phases[id]) && HasOwner(phase) == HasOwner(w.phases[id])
    ensures HandlersOk(WithPhase(w, id, phase).(reg := Unsubscribe(w.reg, id, address)))
  {
    HandlerStepOk(w, WithPhase(w, id, phase).(reg := Unsubscribe(w.reg, id, address)), id, phase);
  }

  lemma UnsubscribeStepValid(w: World, id: nat, phase: Phase, address: string)
    requires WorldValid(w) && Known(w, id) && Live(w.phases[id]) && HasOwner(w.phases[id])
    requires Live(phase) && HasOwner(phase)
    ensures WorldValid(WithPhase(w, id, phase).(reg := Unsubscribe(w.reg, id, address)))
  {
    UnsubscribeHandlers(w, id, phase, address);
    UnsubscribeValid(w.reg, w.sockets, id, address);
  }

  /** A step that leaves the registry alone. */
  lemma PhaseStepValid(w: World, id: nat, phase: Phase)
    requires WorldValid(w) && Known(w, id)
    requires Live(phase) == Live(w.phases[id]) && HasOwner(phase) == HasOwner(w.phases[id])
    ensures WorldValid(WithPhase(w, id, phase))
  {
    HandlerStepOk(w, WithPhase(w, id, phase), id, phase);
  }

  lemma OwnHandlers(w: World, id: nat)
    requires HandlersOk(w) && Known(w, id) && w.phases[id].Opened?
    ensures HandlersOk(WithPhase(w, id, Owned).(reg := SetOwner(w.reg, id, w.owners[id])))
  {
    var v := WithPhase(w, id, Owned).(reg := SetOwner(w.reg, id, w.owners[id]));
    assert LiveOk(v.reg.connAddresses, v.phases);
  }

  lemma OwnRegistry(g: Registry, sockets: seq<Socket>, id: nat, address: string)
    requires Valid(g, sockets) && id in g.connAddresses
    ensures Valid(SetOwner(g, id, address), sockets)
  {
  }

  lemma OwnValid(w: World, id: nat)
    requires WorldValid(w) && Known(w, id) && w.phases[id].Opened?
    ensures WorldValid(WithPhase(w, id, Owned).(reg := SetOwner(w.reg, id, w.owners[id])))
  {
    var v := WithPhase(w, id, Owned).(reg := SetOwner(w.reg, id, w.owners[id]));
    LiveKnown(w, id);
    assert Valid(v.reg, v.sockets) by {
      OwnRegistry(w.reg, w.sockets, id, w.owners[id]);
    }
    assert IpsOk(v.reg, v.ips) by {
      SameIps(w.reg, v.reg, w.ips);
    }
    assert HandlersOk(v) by {
      OwnHandlers(w, id);
    }
  }

  lemma DropHandlers(w: World, id: nat)
    requires HandlersOk(w) && Known(w, id)
    ensures HandlersOk(WithPhase(w, id, Gone).(reg := Disconnect(w.reg, id)))
  {
    var v := WithPhase(w, id, Gone).(reg := Disconnect(w.reg, id));
    assert LiveOk(v.reg.connAddresses, v.phases);
    assert OwnersOk(v.reg.connOwner, v.owners, v.phases);
  }

  lemma DropIps(g: Registry, ips: seq<string>, id: nat)
    requires IpsOk(g, ips)
    ensures IpsOk(Disconnect(g, id), ips)
  {
    var held, held' := Held(ips, g.connIps.Keys), Held(ips, (g.connIps - {id}).Keys);
    if id in g.connIps && g.connIps[id] != "" {
      assert held' == held - {id};
      IpWithout(g.ipConnections, held, id);
    } else {
      assert held' == held;
    }
  }

  lemma DropValid(w: World, id: nat)
    requires WorldValid(w) && Known(w, id)
    ensures WorldValid(WithPhase(w, id, Gone).(reg := Disconnect(w.reg, id)))
  {
    DropHandlers(w, id);
    DropIps(w.reg, w.ips, id);
    DisconnectValid(w.reg, w.sockets, id);
  }

  /** A step that only starts or advances a broadcast. */
  lemma FlightStepValid(w: World, flights: seq<Flight>)
    requires WorldValid(w) && FlightsOk(flights, w.sockets)
    ensures WorldValid(w.(flights := flights))
  {
  }

  lemma StartAddressValid(w: World, a: string, order: seq<Sub>)
    requires WorldValid(w) && IsSnapshot(w.reg, a, order)
    ensures FlightOk(Flight(Some(a), order, [], true), w.sockets)
  {
    forall s | s in order
      ensures s.id < |w.sockets| && s.socket == w.sockets[s.id]
    {
      assert s in w.reg.subscriptions[a];
    }
    SnapshotDistinctIds(order, w.sockets);
  }

  lemma FailedRemembered(f: Flight, sockets: seq<Socket>)
    requires FlightOk(f, sockets) && |f.results| == |f.targets|
    ensures Remembered(Failed(f.targets, f.results), sockets)
  {
    FailedMeaning(f.targets, f.results);
  }

  /** The registry of a cleanup, seen from any connection: the failed ones lose addresses,
      the others keep theirs, and nothing but subscriptions changes. */
  ghost predicate OnlyLosses(g: Registry, h: Registry, sockets: seq<Socket>, dead: seq<Sub>) {
    && Valid(h, sockets)
    && h.connAddresses.Keys == g.connAddresses.Keys
    && h.connIps == g.connIps && h.ipConnections == g.ipConnections && h.connOwner == g.connOwner
    && h.nextId == g.nextId
    && (forall c :: c !in DeadIds(dead) ==> Members(h.connAddresses, c) == Members(g.connAddresses, c))
    && (forall c :: Members(h.connAddresses, c) <= Members(g.connAddresses, c))
  }

  lemma AddressLosses(g: Registry, sockets: seq<Socket>, a: string, dead: seq<Sub>)
    requires Valid(g, sockets) && Remembered(dead, sockets)
    ensures OnlyLosses(g, CleanAddress(g, a, dead), sockets, dead)
  {
    CleanAddressValid(g, sockets, a, dead);
    CleanAddressFrame(g, sockets, a, dead);
  }

  lemma GlobalLosses(g: Registry, sockets: seq<Socket>, dead: seq<Sub>)
    requires Valid(g, sockets) && Remembered(dead, sockets)
    ensures OnlyLosses(g, CleanGlobal(g, dead), sockets, dead)
  {
    CleanGlobalValid(g, sockets, dead);
    CleanGlobalFrame(g, sockets, dead);
  }

  lemma CleanupFrame(w: World, i: nat)
    requires WorldValid(w) && Enabled(w, Finish(i))
    ensures OnlyLosses(w.reg, FinishStep(w, i).reg, w.sockets, Failed(w.flights[i].targets, w.flights[i].results))
  {
    var f := w.flights[i];
    var dead := Failed(f.targets, f.results);
    FailedRemembered(f, w.sockets);
    if f.address.Some? {
      AddressLosses(w.reg, w.sockets, f.address.value, dead);
    } else {
      GlobalLosses(w.reg, w.sockets, dead);
    }
  }

  lemma FinishHandlers(w: World, i: nat)
    requires HandlersOk(w) && Enabled(w, Finish(i))
    requires FinishStep(w, i).reg.connAddresses.Keys == w.reg.connAddresses.Keys
    requires FinishStep(w, i).reg.connOwner == w.reg.connOwner
    requires forall c :: Members(FinishStep(w, i).reg.connAddresses, c) <= Members(w.reg.connAddresses, c)
    ensures HandlersOk(FinishStep(w, i))
  {
    var v := FinishStep(w, i);
    forall c: nat | c in v.reg.connAddresses
      ensures c < |v.owners| && v.reg.connAddresses[c] <= {v.owners[c]}
    {
      assert Members(v.reg.connAddresses, c) <= Members(w.reg.connAddresses, c);
    }
    assert FlightOk(v.flights[i], v.sockets);
  }

  lemma FinishValid(w: World, i: nat)
    requires WorldValid(w) && Enabled(w, Finish(i))
    ensures WorldValid(FinishStep(w, i))
  {
    CleanupFrame(w, i);
    SameIps(w.reg, FinishStep(w, i).reg, w.ips);
    FinishHandlers(w, i);
  }

  // ----- Every step, every run -----

  lemma SubscribeMessageValid(w: World, id: nat, text: string)
    requires WorldValid(w) && Known(w, id) && w.phases[id].Serving?
    ensures WorldValid(SubscribeMessageStep(w, id, text))
  {
    var v := SubscribeMessageStep(w, id, text);
    if v != w {
      SubscribeStepValid(w, v, id, v.phases[id]);
    }
  }

  lemma StartAddressStepValid(w: World, address: string, order: seq<Sub>)
    requires WorldValid(w) && Enabled(w, StartAddress(address, order))
    ensures WorldValid(Next(w, StartAddress(address, order)))
  {
    StartAddressValid(w, Lower(address), order);
    FlightStepValid(w, w.flights + [Flight(Some(Lower(address)), order, [], true)]);
  }

  lemma StartGlobalStepValid(w: World, order: seq<Sub>)
    requires WorldValid(w) && Enabled(w, StartGlobal(order))
    ensures WorldValid(Next(w, StartGlobal(order)))
  {
    GlobalSnapshotReach(w.reg, w.sockets, order);
    FlightStepValid(w, w.flights + [Flight(None, order, [], true)]);
  }

  lemma SendStepValid(w: World, i: nat, delivered: bool)
    requires WorldValid(w) && Enabled(w, Send(i, delivered))
    ensures WorldValid(Next(w, Send(i, delivered)))
  {
    var f := w.flights[i];
    assert FlightOk(f, w.sockets);
    FlightStepValid(w, w.flights[i := f.(results := f.results + [delivered])]);
  }

  /** A step of a handler. */
  lemma HandlerEventValid(w: World, e: Event)
    requires WorldValid(w) && Enabled(w, e)
    requires e.FirstSubscribe? || e.Confirm? || e.SubscribeMessage? || e.UnsubscribeMessage? || e.Leave? || e.CloseOne?
    ensures WorldValid(Next(w, e))
  {
    match e
    case FirstSubscribe(id) => SubscribeStepValid(w, Next(w, e), id, Next(w, e).phases[id]);
    case Confirm(id, delivered) => PhaseStepValid(w, id, if delivered then Serving({w.owners[id]}) else Leaked);
    case SubscribeMessage(id, text) => SubscribeMessageValid(w, id, text);
    case UnsubscribeMessage(id, text) =>
      UnsubscribeStepValid(w, id, Serving(w.phases[id].tracked - {text}), text);
    case Leave(id) => PhaseStepValid(w, id, Closing(w.phases[id].tracked));
    case CloseOne(id, address) =>
      UnsubscribeStepValid(w, id, Closing(w.phases[id].rest - {address}), address);
  }

  lemma NextValid(w: World, e: Event)
    requires WorldValid(w)
    ensures WorldValid(Next(w, e))
  {
    if Enabled(w, e) {
      match e
      case Open(socket, path, subject, ip) => OpenValid(w, socket, path, subject, ip);
      case Own(id) => OwnValid(w, id);
      case Drop(id) => DropValid(w, id);
      case StartAddress(address, order) => StartAddressStepValid(w, address, order);
      case StartGlobal(order) => StartGlobalStepValid(w, order);
      case Send(i, delivered) => SendStepValid(w, i, delivered);
      case Finish(i) => FinishValid(w, i);
      case _ => HandlerEventValid(w, e);
    }
  }

  /** In every interleaving, whatever the clients and the network do, subscriptions and
      addresses stay exact inverses, all caps hold, the IP index counts the registered
      connections and those with an empty IP, and every connection is subscribed to nothing
      but its owner's address. */
  lemma {:induction false} RunValid(w: World, events: seq<Event>)
    requires WorldValid(w)
    ensures WorldValid(Run(w, events))
    decreases |events|
  {
    if events != [] {
      NextValid(w, events[0]);
      RunValid(Next(w, events[0]), events[1..]);
    }
  }

  /** The IP indexes are exact inverses, and the IP sets together count the connections,
      exactly when no connection that is gone had an empty IP text. */
  predicate NoneLostEmpty(w: World)
    requires |w.ips| == |w.phases|
  {
    forall c :: 0 <= c < |w.phases| && w.phases[c].Gone? ==> w.ips[c] != ""
  }

  /** With no lost connection the IP entries count the registered ones. */
  lemma HeldAll(ips: seq<string>, connIps: map<nat, string>)
    requires forall c :: c in connIps ==> c < |ips| && connIps[c] == ips[c]
    requires forall c :: 0 <= c < |ips| && ips[c] == "" ==> c in connIps
    ensures Held(ips, connIps.Keys) == connIps
  {
  }

  lemma StrayMember(byIp: map<string, set<nat>>, ips: map<nat, string>, ip: string, c: nat)
    requires ip in byIp && c in byIp[ip] && c !in ips
    ensures !IpInverse(byIp, ips)
  {
  }

  /** A lost one is counted too. */
  lemma HeldLost(byIp: map<string, set<nat>>, ips: seq<string>, connIps: map<nat, string>, c: nat)
    requires IpInverse(byIp, Held(ips, connIps.Keys))
    requires forall d :: d in connIps ==> d < |ips|
    requires c < |ips| && ips[c] == "" && c !in connIps
    ensures !IpInverse(byIp, connIps)
    ensures |Held(ips, connIps.Keys).Keys| > |connIps.Keys|
  {
    var held := Held(ips, connIps.Keys);
    assert c in held && held[c] == "";
    StrayMember(byIp, connIps, "", c);
    FewerMembers(connIps.Keys + {c}, held.Keys);
  }

  lemma HeldExact(byIp: map<string, set<nat>>, ips: seq<string>, connIps: map<nat, string>)
    requires IpInverse(byIp, Held(ips, connIps.Keys))
    requires forall c :: c in connIps ==> c < |ips| && connIps[c] == ips[c]
    ensures
      var exact := forall c :: 0 <= c < |ips| && ips[c] == "" ==> c in connIps;
      && (IpInverse(byIp, connIps) <==> exact)
      && (|Pairs(byIp)| == |connIps.Keys| <==> exact)
  {
    assert |Pairs(byIp)| == |Held(ips, connIps.Keys).Keys| by {
      IpPairs(byIp, Held(ips, connIps.Keys));
    }
    if c :| 0 <= c < |ips| && ips[c] == "" && c !in connIps {
      HeldLost(byIp, ips, connIps, c);
    } else {
      HeldAll(ips, connIps);
    }
  }

  lemma IpExactIff(w: World)
    requires WorldValid(w)
    ensures IpExact(w.reg) <==> NoneLostEmpty(w)
    ensures |Pairs(w.reg.ipConnections)| == |w.reg.connAddresses| <==> NoneLostEmpty(w)
  {
    HeldExact(w.reg.ipConnections, w.ips, w.reg.connIps);
    assert |w.reg.connAddresses| == |w.reg.connAddresses.Keys| == |w.reg.connIps.Keys|;
    assert forall c :: 0 <= c < |w.phases| ==> (c in w.reg.connIps <==> !w.phases[c].Gone?);
  }

  /** Reachable states: caps, counters and ownership in the terms of the statistics. */
  lemma Reachable(events: seq<Event>)
    ensures
      var w := Run(START, events);
      && |w.reg.connAddresses| <= 200
      && (forall ip :: ip in w.reg.ipConnections ==> 0 < |w.reg.ipConnections[ip]| <= 5)
      && (forall a :: a in w.reg.subscriptions ==> 0 < |w.reg.subscriptions[a]| <= 10)
      && (forall c :: c in w.reg.connAddresses ==> c < |w.owners| && w.reg.connAddresses[c] <= {w.owners[c]})
      && |Pairs(w.reg.subscriptions)| == |Pairs(w.reg.connAddresses)|
      && |w.ips| == |w.phases|
      && (|Pairs(w.reg.ipConnections)| == |w.reg.connAddresses| <==> NoneLostEmpty(w))
  {
    var w := Run(START, events);
    StartValid();
    RunValid(START, events);
    SubscriptionsCountedOnce(w.reg, w.sockets);
    IpExactIff(w);
  }

  /** Once five connections had an empty IP text no other is ever accepted with one, even
      after all five are gone. */
  lemma EmptyIpBlocked(
      w: World, events: seq<Event>, ids: set<nat>, socket: Socket, path: string, subject: Option<string>)
    requires WorldValid(w) && |ids| == MAX_CONNECTIONS_PER_IP
    requires forall c :: c in ids ==> c < |w.ips| && w.ips[c] == ""
    ensures OpenStep(Run(w, events), socket, path, subject, "") == Run(w, events)
  {
    var v := Run(w, events);
    RunValid(w, events);
    RunKeepsIds(w, events);
    forall c | c in ids
      ensures c in Members(v.reg.ipConnections, "")
    {
      assert v.ips[c] == w.ips[c];
      assert c in Held(v.ips, v.reg.connIps.Keys);
    }
    FewerMembers(ids, Members(v.reg.ipConnections, ""));
  }

  /** A handler only ever subscribes a live connection, so the half-done subscription of an
      unknown connection does not happen. */
  lemma HandlersSubscribeLive(w: World, e: Event)
    requires WorldValid(w) && Enabled(w, e) && (e.FirstSubscribe? || e.SubscribeMessage?)
    ensures e.id in w.reg.connAddresses
    ensures !SubscribeCheck(w.reg, e.id, w.owners[e.id]).UnknownConnection?
  {
  }

  // ----- Ids -----

  /** Ids keep their socket, IP and owner, and what is gone or leaked stays so. */
  predicate Extends(w: World, v: World) {
    && w.sockets <= v.sockets && w.owners <= v.owners && w.ips <= v.ips
    && |w.phases| <= |v.phases|
    && (forall id :: 0 <= id < |w.phases| && w.phases[id].Gone? ==> v.phases[id].Gone?)
    && (forall id :: 0 <= id < |w.phases| && w.phases[id].Leaked? ==> v.phases[id].Leaked?)
  }

  lemma NextKeepsIds(w: World, e: Event)
    ensures Extends(w, Next(w, e))
  {
  }

  lemma ExtendsTransitive(u: World, v: World, w: World)
    requires Extends(u, v) && Extends(v, w)
    ensures Extends(u, w)
  {
  }

  /** Ids are never reused: over any run an id keeps its socket, IP and owner for ever, and
      a connection that is gone stays gone. */
  lemma {:induction false} RunKeepsIds(w: World, events: seq<Event>)
    ensures Extends(w, Run(w, events))
    decreases |events|
  {
    if events != [] {
      var next := Next(w, events[0]);
      var v := Run(next, events[1..]);
      assert v == Run(w, events);
      NextKeepsIds(w, events[0]);
      RunKeepsIds(next, events[1..]);
      ExtendsTransitive(w, next, v);
    }
  }

  lemma GoneIps(g: Registry, ips: seq<string>, id: nat)
    requires IpsOk(g, ips) && id < |ips| && id !in g.connIps
    ensures forall ip :: ip in g.ipConnections ==> (id in g.ipConnections[ip] <==> ip == "" && ips[id] == "")
  {
    var held := Held(ips, g.connIps.Keys);
    assert id in held <==> ips[id] == "";
    assert id in held ==> held[id] == "" && "" in g.ipConnections && id in g.ipConnections[""];
    forall ip | ip in g.ipConnections
      ensures id in g.ipConnections[ip] <==> ip == "" && ips[id] == ""
    {
      if id in g.ipConnections[ip] {
        assert id in held && held[id] == ip;
      }
    }
  }

  /** A connection that is gone is in no index, now and in every later state, whatever late
      cleanup names it: but for the IP index if its IP text was empty. */
  lemma GoneForEver(w: World, events: seq<Event>, id: nat)
    requires WorldValid(w)
    requires id < |w.phases| && w.phases[id].Gone?
    ensures id < |w.ips|
    ensures
      var g := Run(w, events).reg;
      && id !in g.connAddresses && id !in g.connIps && id !in g.connOwner
      && (forall a :: a in g.subscriptions ==> OfConnection(g.subscriptions[a], id) == {})
      && (forall ip :: ip in g.ipConnections ==> (id in g.ipConnections[ip] <==> ip == "" && w.ips[id] == ""))
  {
    var v := Run(w, events);
    RunValid(w, events);
    RunKeepsIds(w, events);
    assert id !in v.reg.connAddresses;
    assert v.ips[id] == w.ips[id];
    DeadNowhere(v.reg, v.sockets, id);
    GoneIps(v.reg, v.ips, id);
  }

  /** When its handler has ended, a connection has been released unless it leaked; then it
      stays registered in every later state. */
  lemma EndedHandlerReleasedIff(w: World, events: seq<Event>, id: nat)
    requires WorldValid(w)
    requires id < |w.phases| && (w.phases[id].Gone? || w.phases[id].Leaked?)
    ensures id in Run(w, events).reg.connAddresses <==> w.phases[id].Leaked?
  {
    RunValid(w, events);
    RunKeepsIds(w, events);
  }

  // ----- Broadcasts -----

  /** A cleanup, however late, takes addresses only from connections whose own send failed:
      any other connection keeps its addresses, IP and owner. */
  lemma LateCleanupHarmless(w: World, i: nat, c: nat)
    requires WorldValid(w) && Enabled(w, Finish(i))
    requires c !in DeadIds(Failed(w.flights[i].targets, w.flights[i].results))
    ensures
      var v := Next(w, Finish(i));
      && Members(v.reg.connAddresses, c) == Members(w.reg.connAddresses, c)
      && (c in v.reg.connAddresses <==> c in w.reg.connAddresses)
      && v.reg.connIps == w.reg.connIps && v.reg.ipConnections == w.reg.ipConnections
      && v.reg.connOwner == w.reg.connOwner
  {
    CleanupFrame(w, i);
  }

  /** After the cleanup of a global broadcast no connection whose send failed is subscribed
      to any address, whatever happened since the snapshot. */
  lemma GlobalCleanupComplete(w: World, i: nat, s: Sub)
    requires WorldValid(w) && Enabled(w, Finish(i)) && w.flights[i].address.None?
    requires s in Failed(w.flights[i].targets, w.flights[i].results)
    ensures
      var g := Next(w, Finish(i)).reg;
      && Members(g.connAddresses, s.id) == {}
      && (forall a :: a in g.subscriptions ==> OfConnection(g.subscriptions[a], s.id) == {})
  {
    var f := w.flights[i];
    var dead := Failed(f.targets, f.results);
    FailedRemembered(f, w.sockets);
    CleanGlobalFrame(w.reg, w.sockets, dead);
    CleanGlobalValid(w.reg, w.sockets, dead);
    var g := CleanGlobal(w.reg, dead);
    assert s.id in DeadIds(dead);
    forall a, t: Sub | a in g.subscriptions && t in g.subscriptions[a]
      ensures t.id != s.id
    {
      assert a in Members(g.connAddresses, t.id);
    }
  }

  /** The same for one address and the connections it failed to reach. */
  lemma AddressCleanupComplete(w: World, i: nat, s: Sub)
    requires WorldValid(w) && Enabled(w, Finish(i)) && w.flights[i].address.Some?
    requires s in Failed(w.flights[i].targets, w.flights[i].results)
    ensures
      var g, a := Next(w, Finish(i)).reg, w.flights[i].address.value;
      a !in Members(g.connAddresses, s.id) && s !in Members(g.subscriptions, a)
  {
    var f := w.flights[i];
    FailedRemembered(f, w.sockets);
    CleanAddressFrame(w.reg, w.sockets, f.address.value, Failed(f.targets, f.results));
  }

  lemma NextKeepsTargets(w: World, e: Event, i: nat)
    requires i < |w.flights|
    ensures i < |Next(w, e).flights|
    ensures Next(w, e).flights[i].targets == w.flights[i].targets
    ensures Next(w, e).flights[i].address == w.flights[i].address
  {
  }

  lemma {:induction false} RunKeepsTargets(w: World, events: seq<Event>, i: nat)
    requires i < |w.flights|
    ensures i < |Run(w, events).flights|
    ensures Run(w, events).flights[i].targets == w.flights[i].targets
    ensures Run(w, events).flights[i].address == w.flights[i].address
    decreases |events|
  {
    if events != [] {
      NextKeepsTargets(w, events[0], i);
      RunKeepsTargets(Next(w, events[0]), events[1..], i);
    }
  }

  /** The connections a global broadcast is for. */
  function Subscribed(g: Registry): set<nat> {
    set c | c in g.connAddresses && g.connAddresses[c] != {}
  }

  /** What the end of a global broadcast does: the sends that succeeded, its return value,
      and the failed ones make up the targets; the failed connections lose every address
      and the others keep theirs. */
  ghost predicate EndsWell(w: World, i: nat)
    requires i < |w.flights|
  {
    Enabled(w, Finish(i)) ==>
      var f := w.flights[i];
      var failed := Failed(f.targets, f.results);
      var after := Next(w, Finish(i)).reg.connAddresses;
      && Delivered(f.results) + |failed| == |f.targets|
      && (forall c: nat :: Members(after, c) == if c in DeadIds(failed) then {} else Members(w.reg.connAddresses, c))
  }

  lemma GlobalFinish(w: World, i: nat)
    requires WorldValid(w) && i < |w.flights| && w.flights[i].address.None?
    ensures EndsWell(w, i)
  {
    if Enabled(w, Finish(i)) {
      var f := w.flights[i];
      FailedMeaning(f.targets, f.results);
      FailedRemembered(f, w.sockets);
      CleanGlobalFrame(w.reg, w.sockets, Failed(f.targets, f.results));
    }
  }

  lemma GlobalRun(w: World, order: seq<Sub>, events: seq<Event>) returns (v: World)
    requires WorldValid(w) && IsGlobalSnapshot(w.reg, order)
    ensures v == Run(Next(w, StartGlobal(order)), events) && WorldValid(v)
    ensures |w.flights| < |v.flights| && v.flights[|w.flights|].targets == order
    ensures v.flights[|w.flights|].address == None
  {
    var w1 := Next(w, StartGlobal(order));
    assert w1.flights == w.flights + [Flight(None, order, [], true)];
    v := Run(w1, events);
    NextValid(w, StartGlobal(order));
    RunValid(w1, events);
    RunKeepsTargets(w1, events, |w.flights|);
  }

  /** A whole global broadcast, with any events in between: it is for each connection that
      held a subscription at the snapshot, once, and for no other: not for every connected
      client; and when it ends it ends well. */
  lemma GlobalBroadcast(w: World, order: seq<Sub>, events: seq<Event>)
    requires WorldValid(w) && IsGlobalSnapshot(w.reg, order)
    ensures
      var i := |w.flights|;
      var v := Run(Next(w, StartGlobal(order)), events);
      && i < |v.flights| && EndsWell(v, i)
      && DeadIds(v.flights[i].targets) == Subscribed(w.reg)
      && |v.flights[i].targets| == |Subscribed(w.reg)|
  {
    var v := GlobalRun(w, order, events);
    GlobalFinish(v, |w.flights|);
    GlobalSnapshotReach(w.reg, w.sockets, order);
  }

  // ----- Client addresses -----

  lemma {:induction false} StripBlank(s: string)
    ensures Strip(s) == "" <==> forall i :: 0 <= i < |s| ==> IsSpace(s[i])
  {
    StripLeftBlank(s);
    var t := StripLeft(s);
    if t != "" {
      StripRightKeeps(t);
    }
  }

  lemma {:induction false} StripLeftBlank(s: string)
    ensures StripLeft(s) == "" <==> forall i :: 0 <= i < |s| ==> IsSpace(s[i])
    ensures StripLeft(s) != "" ==> !IsSpace(StripLeft(s)[0])
  {
    if s != [] && IsSpace(s[0]) {
      StripLeftBlank(s[1..]);
      assert forall i :: 0 < i < |s| ==> s[i] == s[1..][i - 1];
    }
  }

  lemma {:induction false} StripRightKeeps(s: string)
    requires s != "" && !IsSpace(s[0])
    ensures StripRight(s) != ""
  {
    if IsSpace(s[|s| - 1]) {
      StripRightKeeps(s[..|s| - 1]);
    }
  }

  /** When the IP text is empty: a forwarded header whose first field is blank, or a peer
      with an empty host name. */
  lemma EmptyIpIff(forwarded: Option<string>, host: Option<string>)
    ensures ClientIp(forwarded, host) == "" <==>
              if forwarded.Some? && forwarded.value != ""
              then forall i :: 0 <= i < |FirstField(forwarded.value)| ==> IsSpace(FirstField(forwarded.value)[i])
              else host == Some("")
  {
    if forwarded.Some? {
      StripBlank(FirstField(forwarded.value));
    }
  }
}
