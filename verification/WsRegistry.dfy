/** The connection manager's six fields as one value, and what each lock section does to
    them. `defaultdict` entries that a section creates and deletes again do not appear. */
module WsRegistry {
  import opened Wrappers

  const MAX_CONNECTIONS_GLOBAL: nat := 200
  const MAX_CONNECTIONS_PER_IP: nat := 5
  const MAX_SUBS_PER_ADDRESS: nat := 10
  const MAX_ADDRESSES_PER_CONN: nat := 5

  datatype Socket = Socket(handle: nat)

  /** A subscriber: the pair stored under an address. */
  datatype Sub = Sub(socket: Socket, id: nat)

  datatype Registry = Registry(
    subscriptions: map<string, set<Sub>>,
    connAddresses: map<nat, set<string>>,
    connIps: map<nat, string>,
    ipConnections: map<string, set<nat>>,
    connOwner: map<nat, string>,
    nextId: nat)

  datatype Limit = GlobalLimit | IpLimit | AddressLimit | ConnectionLimit

  /** `UnknownConnection` is the KeyError of a subscription for a connection that is gone,
      raised after the address has already gained its subscriber. */
  datatype SubscribeOutcome = Subscribed | Refused(limit: Limit) | UnknownConnection

  const EMPTY: Registry := Registry(map[], map[], map[], map[], map[], 0)

  // ----- Text -----

  function LowerChar(c: char): char {
    if 'A' <= c <= 'Z' then c - 'A' + 'a' else c
  }

  function Lower(s: string): (r: string)
    ensures |r| == |s|
  {
    if s == [] then [] else [LowerChar(s[0])] + Lower(s[1..])
  }

  lemma {:induction false} LowerIdempotent(s: string)
    ensures Lower(Lower(s)) == Lower(s)
  {
    if s != [] {
      LowerIdempotent(s[1..]);
      assert Lower(s)[1..] == Lower(s[1..]);
    }
  }

  /** Capital ASCII letters move up by 32, everything else stays. */
  lemma {:induction false} LowerMeaning(s: string, i: nat)
    requires i < |s|
    ensures Lower(s)[i] as int == s[i] as int + (if 'A' <= s[i] <= 'Z' then 32 else 0)
  {
    if i > 0 {
      LowerMeaning(s[1..], i - 1);
    }
  }

  // ----- Sets under a key -----

  function Members<K, V>(m: map<K, set<V>>, k: K): set<V> {
    if k in m then m[k] else {}
  }

  /** `m[k] -= gone`, then the entry is deleted if nothing is left. */
  function Without<K, V>(m: map<K, set<V>>, k: K, gone: set<V>): map<K, set<V>> {
    var left := Members(m, k) - gone;
    if left == {} then m - {k} else m[k := left]
  }

  function OfConnection(subs: set<Sub>, id: nat): set<Sub> {
    set s | s in subs && s.id == id
  }

  // ----- Lock sections -----

  function Connect(g: Registry, ip: string): Result<Registry, Limit> {
    if |g.connAddresses| >= MAX_CONNECTIONS_GLOBAL then Err(GlobalLimit)
    else if |Members(g.ipConnections, ip)| >= MAX_CONNECTIONS_PER_IP then Err(IpLimit)
    else Ok(g.(
      nextId := g.nextId + 1,
      connAddresses := g.connAddresses[g.nextId := {}],
      connIps := g.connIps[g.nextId := ip],
      ipConnections := g.ipConnections[ip := Members(g.ipConnections, ip) + {g.nextId}]))
  }

  function SubscribeCheck(g: Registry, id: nat, address: string): SubscribeOutcome {
    if |Members(g.subscriptions, Lower(address))| >= MAX_SUBS_PER_ADDRESS then Refused(AddressLimit)
    else if id !in g.connAddresses then UnknownConnection
    else if |g.connAddresses[id]| >= MAX_ADDRESSES_PER_CONN then Refused(ConnectionLimit)
    else Subscribed
  }

  function Subscribe(g: Registry, id: nat, address: string, socket: Socket): Registry {
    var a := Lower(address);
    var subs := g.subscriptions[a := Members(g.subscriptions, a) + {Sub(socket, id)}];
    match SubscribeCheck(g, id, address)
    case Refused(_) => g
    case UnknownConnection => g.(subscriptions := subs)
    case Subscribed => g.(subscriptions := subs,
                          connAddresses := g.connAddresses[id := Members(g.connAddresses, id) + {a}])
  }

  /** `if id in conn_addresses: conn_addresses[id].discard(a)` */
  function Discard(addresses: map<nat, set<string>>, id: nat, gone: set<string>): map<nat, set<string>> {
    if id in addresses then addresses[id := addresses[id] - gone] else addresses
  }

  function Unsubscribe(g: Registry, id: nat, address: string): Registry {
    var a := Lower(address);
    g.(subscriptions := Without(g.subscriptions, a, OfConnection(Members(g.subscriptions, a), id)),
       connAddresses := Discard(g.connAddresses, id, {a}))
  }

  /** Taking a connection's subscribers out of the given addresses. */
  function DropConnection(subs: map<string, set<Sub>>, addresses: set<string>, id: nat): map<string, set<Sub>> {
    map a | a in subs && (a !in addresses || subs[a] - OfConnection(subs[a], id) != {})
      :: if a in addresses then subs[a] - OfConnection(subs[a], id) else subs[a]
  }

  function Disconnect(g: Registry, id: nat): Registry {
    g.(connIps := g.connIps - {id},
       ipConnections :=
         if id in g.connIps && g.connIps[id] != "" then Without(g.ipConnections, g.connIps[id], {id})
         else g.ipConnections,
       connOwner := g.connOwner - {id},
       connAddresses := g.connAddresses - {id},
       subscriptions := DropConnection(g.subscriptions, Members(g.connAddresses, id), id))
  }

  function SetOwner(g: Registry, id: nat, address: string): Registry {
    g.(connOwner := g.connOwner[id := Lower(address)])
  }

  function DeadSet(dead: seq<Sub>): set<Sub> {
    set s | s in dead
  }

  function DeadIds(dead: seq<Sub>): set<nat> {
    set s | s in dead :: s.id
  }

  /** The address leaves every one of the connections that is still there. */
  function DiscardAll(addresses: map<nat, set<string>>, ids: set<nat>, a: string): map<nat, set<string>> {
    map c | c in addresses :: if c in ids then addresses[c] - {a} else addresses[c]
  }

  /** The second lock section of `broadcast_to_address`; skipped when nothing failed. */
  function CleanAddress(g: Registry, a: string, dead: seq<Sub>): Registry {
    if dead == [] then g
    else g.(
      subscriptions := Without(g.subscriptions, a, DeadSet(dead)),
      connAddresses := DiscardAll(g.connAddresses, DeadIds(dead), a))
  }

  /** Taking one pair out of the given addresses. */
  function DropPair(subs: map<string, set<Sub>>, addresses: set<string>, d: Sub): map<string, set<Sub>> {
    map a | a in subs && (a !in addresses || subs[a] - {d} != {})
      :: if a in addresses then subs[a] - {d} else subs[a]
  }

  /** One failed connection of `broadcast_global`: every address is visited. */
  function Purge(g: Registry, d: Sub): Registry {
    g.(subscriptions := DropPair(g.subscriptions, g.subscriptions.Keys, d),
       connAddresses := Discard(g.connAddresses, d.id, g.subscriptions.Keys))
  }

  function CleanGlobal(g: Registry, dead: seq<Sub>): Registry
    decreases |dead|
  {
    if dead == [] then g else CleanGlobal(Purge(g, dead[0]), dead[1..])
  }

  lemma DiscardAllMore(addresses: map<nat, set<string>>, ids: set<nat>, id: nat, a: string)
    ensures DiscardAll(addresses, ids + {id}, a) == Discard(DiscardAll(addresses, ids, a), id, {a})
  {
    var once, twice := DiscardAll(addresses, ids + {id}, a), Discard(DiscardAll(addresses, ids, a), id, {a});
    forall c | c in addresses
      ensures once[c] == twice[c]
    {
    }
    assert once.Keys == twice.Keys;
  }

  lemma DiscardTwice(addresses: map<nat, set<string>>, id: nat, first: set<string>, second: set<string>)
    ensures Discard(Discard(addresses, id, first), id, second) == Discard(addresses, id, first + second)
    ensures Discard(addresses, id, {}) == addresses
  {
    if id in addresses {
      assert addresses[id] - first - second == addresses[id] - (first + second);
      assert addresses[id] - {} == addresses[id];
    }
  }

  lemma DropConnectionMore(subs: map<string, set<Sub>>, done: set<string>, a: string, id: nat)
    requires a !in done
    requires forall b :: b in subs ==> subs[b] != {}
    ensures
      var now := DropConnection(subs, done, id);
      DropConnection(subs, done + {a}, id) == Without(now, a, OfConnection(Members(now, a), id))
  {
  }

  lemma DropConnectionNone(subs: map<string, set<Sub>>, id: nat)
    ensures DropConnection(subs, {}, id) == subs
  {
  }

  lemma DropPairMore(subs: map<string, set<Sub>>, done: set<string>, a: string, d: Sub)
    requires a in subs && a !in done
    ensures DropPair(subs, done + {a}, d) == Without(DropPair(subs, done, d), a, {d})
  {
  }

  // ----- Consistency -----

  /** `subscriptions` and `connAddresses` are inverse; no address keeps an empty set; every
      subscriber is the one socket its connection was accepted with. */
  ghost predicate SubsInverse(subs: map<string, set<Sub>>, addresses: map<nat, set<string>>, sockets: seq<Socket>) {
    && (forall c :: c in addresses ==> c < |sockets|)
    && (forall a :: a in subs ==> subs[a] != {})
    && (forall a, s :: a in subs && s in subs[a] ==>
          s.id in addresses && a in addresses[s.id] && s.socket == sockets[s.id])
    && (forall c, a :: c in addresses && a in addresses[c] ==>
          a in subs && Sub(sockets[c], c) in subs[a])
  }

  /** `ipConnections` and `connIps` are inverse; no IP keeps an empty set. */
  ghost predicate IpInverse(byIp: map<string, set<nat>>, ips: map<nat, string>) {
    && (forall ip :: ip in byIp ==> byIp[ip] != {})
    && (forall ip, c :: ip in byIp && c in byIp[ip] ==> c in ips && ips[c] == ip)
    && (forall c :: c in ips ==> ips[c] in byIp && c in byIp[ips[c]])
  }

  ghost predicate WithinCaps(g: Registry) {
    && |g.connAddresses| <= MAX_CONNECTIONS_GLOBAL
    && (forall ip :: ip in g.ipConnections ==> |g.ipConnections[ip]| <= MAX_CONNECTIONS_PER_IP)
    && (forall a :: a in g.subscriptions ==> |g.subscriptions[a]| <= MAX_SUBS_PER_ADDRESS)
    && (forall c :: c in g.connAddresses ==> |g.connAddresses[c]| <= MAX_ADDRESSES_PER_CONN)
  }

  /** `sockets[i]` is the websocket that was given id i; the list only grows. */
  ghost predicate Valid(g: Registry, sockets: seq<Socket>) {
    && |sockets| == g.nextId
    && g.connAddresses.Keys == g.connIps.Keys
    && g.connOwner.Keys <= g.connAddresses.Keys
    && SubsInverse(g.subscriptions, g.connAddresses, sockets)
    && WithinCaps(g)
  }

  /** The IP indexes are exact. Kept apart from `Valid`, because a disconnection can break it. */
  ghost predicate IpExact(g: Registry) {
    IpInverse(g.ipConnections, g.connIps)
  }

  // ----- What each section does, pair by pair -----

  /** Some pair of an index. */
  predicate Holds<K, V>(m: map<K, set<V>>, k: K, v: V) {
    k in m && v in m[k]
  }

  lemma AddedPair<K, V>(m: map<K, set<V>>, k: K, v: V)
    ensures forall x, y :: Holds(m[k := Members(m, k) + {v}], x, y) <==> Holds(m, x, y) || (x == k && y == v)
  {
    var n := m[k := Members(m, k) + {v}];
    forall x, y
      ensures Holds(n, x, y) <==> Holds(m, x, y) || (x == k && y == v)
    {
      if x == k {
        assert n[x] == Members(m, k) + {v};
      }
    }
  }

  lemma RemovedPairs<K, V>(m: map<K, set<V>>, k: K, gone: set<V>)
    ensures forall x, y :: Holds(Without(m, k, gone), x, y) <==> Holds(m, x, y) && !(x == k && y in gone)
  {
    var left := Members(m, k) - gone;
    forall x, y
      ensures Holds(Without(m, k, gone), x, y) <==> Holds(m, x, y) && !(x == k && y in gone)
    {
      if x == k {
        assert y in left <==> Holds(m, k, y) && y !in gone;
      }
    }
  }

  /** A connection is accepted exactly below both limits, each with its own refusal. */
  lemma ConnectOutcomeMeaning(g: Registry, ip: string)
    ensures Connect(g, ip).Ok? <==> |g.connAddresses| < 200 && |Members(g.ipConnections, ip)| < 5
    ensures Connect(g, ip) == Err(GlobalLimit) <==> |g.connAddresses| >= 200
    ensures Connect(g, ip) == Err(IpLimit) <==> |g.connAddresses| < 200 && |Members(g.ipConnections, ip)| >= 5
  {
  }

  /** It then has the next id, no address, its IP, and one more place under that IP. */
  lemma ConnectMeaning(g: Registry, ip: string)
    requires Connect(g, ip).Ok?
    ensures
      var h, n := Connect(g, ip).value, g.nextId;
      && h.nextId == n + 1
      && h.connAddresses == g.connAddresses[n := {}]
      && h.connIps == g.connIps[n := ip]
      && (forall i: string, c: nat :: Holds(h.ipConnections, i, c) <==>
                                      Holds(g.ipConnections, i, c) || (i == ip && c == n))
      && h.subscriptions == g.subscriptions && h.connOwner == g.connOwner
  {
    AddedPair(g.ipConnections, ip, g.nextId);
  }

  /** The outcome of a subscription, in the order of the tests. */
  lemma SubscribeOutcomeMeaning(g: Registry, id: nat, address: string)
    ensures
      var outcome := SubscribeCheck(g, id, address);
      var full := |Members(g.subscriptions, Lower(address))| >= 10;
      && (outcome == Refused(AddressLimit) <==> full)
      && (outcome == UnknownConnection <==> !full && id !in g.connAddresses)
      && (outcome == Refused(ConnectionLimit) <==>
            !full && id in g.connAddresses && |g.connAddresses[id]| >= 5)
      && (outcome == Subscribed <==> !full && id in g.connAddresses && |g.connAddresses[id]| < 5)
  {
  }

  /** A successful subscription adds its pair to both indexes and no other pair; a refused
      one changes nothing; and for an unknown connection only the address gains the pair. */
  lemma SubscribeMeaning(g: Registry, id: nat, address: string, socket: Socket)
    ensures
      var h, a, outcome := Subscribe(g, id, address, socket), Lower(address), SubscribeCheck(g, id, address);
      && (outcome.Refused? ==> h == g)
      && (!outcome.Refused? ==> forall b: string, s: Sub :: Holds(h.subscriptions, b, s) <==>
            Holds(g.subscriptions, b, s) || (b == a && s == Sub(socket, id)))
      && (outcome.Subscribed? ==> forall c: nat, b: string :: Holds(h.connAddresses, c, b) <==>
            Holds(g.connAddresses, c, b) || (c == id && b == a))
      && (outcome.UnknownConnection? ==> h.connAddresses == g.connAddresses)
      && h.connAddresses.Keys == g.connAddresses.Keys
      && h.connIps == g.connIps && h.ipConnections == g.ipConnections
      && h.connOwner == g.connOwner && h.nextId == g.nextId
  {
    var a := Lower(address);
    AddedPair(g.subscriptions, a, Sub(socket, id));
    AddedPair(g.connAddresses, id, a);
  }

  lemma SubscribedHolds(g: Registry, id: nat, address: string, socket: Socket)
    ensures
      var h, a, outcome := Subscribe(g, id, address, socket), Lower(address), SubscribeCheck(g, id, address);
      && (outcome.Subscribed? ==> a in Members(h.connAddresses, id) && Sub(socket, id) in Members(h.subscriptions, a))
      && (outcome.Refused? ==> h == g)
  {
    SubscribeMeaning(g, id, address, socket);
  }

  /** An unsubscription removes the connection's pairs at that address from both indexes and
      no other pair. */
  lemma UnsubscribeMeaning(g: Registry, id: nat, address: string)
    ensures
      var h, a := Unsubscribe(g, id, address), Lower(address);
      && (forall b: string, s: Sub :: Holds(h.subscriptions, b, s) <==>
            Holds(g.subscriptions, b, s) && !(b == a && s.id == id))
      && (forall c: nat, b: string :: Holds(h.connAddresses, c, b) <==>
            Holds(g.connAddresses, c, b) && !(c == id && b == a))
      && h.connAddresses.Keys == g.connAddresses.Keys
      && h.connIps == g.connIps && h.ipConnections == g.ipConnections
      && h.connOwner == g.connOwner && h.nextId == g.nextId
  {
    var a := Lower(address);
    RemovedPairs(g.subscriptions, a, OfConnection(Members(g.subscriptions, a), id));
    DiscardedPairs(g.connAddresses, id, a);
  }

  lemma DiscardedPairs(addresses: map<nat, set<string>>, id: nat, a: string)
    ensures Discard(addresses, id, {a}).Keys == addresses.Keys
    ensures forall c: nat, b: string :: Holds(Discard(addresses, id, {a}), c, b) <==>
              Holds(addresses, c, b) && !(c == id && b == a)
  {
  }

  /** The owner is recorded in lower case and nothing else changes. */
  lemma SetOwnerMeaning(g: Registry, id: nat, address: string)
    ensures
      var h := SetOwner(g, id, address);
      && id in h.connOwner && h.connOwner[id] == Lower(address)
      && h.connOwner.Keys == g.connOwner.Keys + {id}
      && (forall c :: c in g.connOwner && c != id ==> h.connOwner[c] == g.connOwner[c])
      && h == g.(connOwner := h.connOwner)
  {
  }

  // ----- Each section keeps the registry consistent -----

  lemma EmptyValid()
    ensures Valid(EMPTY, []) && IpExact(EMPTY)
  {
  }

  lemma ConnectedSubs(g: Registry, sockets: seq<Socket>, socket: Socket)
    requires |sockets| == g.nextId && SubsInverse(g.subscriptions, g.connAddresses, sockets)
    ensures SubsInverse(g.subscriptions, g.connAddresses[g.nextId := {}], sockets + [socket])
  {
  }

  lemma ConnectedIps(byIp: map<string, set<nat>>, ips: map<nat, string>, ip: string, id: nat)
    requires IpInverse(byIp, ips) && id !in ips
    ensures IpInverse(byIp[ip := Members(byIp, ip) + {id}], ips[id := ip])
  {
  }

  lemma ConnectedCaps(g: Registry, ip: string)
    requires WithinCaps(g) && g.nextId !in g.connAddresses && Connect(g, ip).Ok?
    ensures WithinCaps(Connect(g, ip).value)
  {
    GrownMap(g.connAddresses, g.nextId, {});
    GrownSet(Members(g.ipConnections, ip), g.nextId);
  }

  lemma GrownMap<K, V>(m: map<K, V>, k: K, v: V)
    requires k !in m
    ensures |m[k := v]| == |m| + 1
  {
    assert m[k := v].Keys == m.Keys + {k};
    assert |m[k := v]| == |m[k := v].Keys| == |m.Keys| + 1;
  }

  lemma GrownSet<T>(s: set<T>, x: T)
    ensures |s + {x}| <= |s| + 1
  {
  }

  /** The parts of consistency. */
  lemma Assemble(h: Registry, sockets: seq<Socket>)
    requires |sockets| == h.nextId && h.connAddresses.Keys == h.connIps.Keys
    requires h.connOwner.Keys <= h.connAddresses.Keys
    requires SubsInverse(h.subscriptions, h.connAddresses, sockets)
    requires WithinCaps(h)
    ensures Valid(h, sockets)
  {
  }

  lemma ConnectedKeys(g: Registry, ip: string)
    requires g.connAddresses.Keys == g.connIps.Keys && g.connOwner.Keys <= g.connAddresses.Keys
    requires Connect(g, ip).Ok?
    ensures
      var h := Connect(g, ip).value;
      h.connAddresses.Keys == h.connIps.Keys && h.connOwner.Keys <= h.connAddresses.Keys
  {
  }

  lemma ConnectValid(g: Registry, sockets: seq<Socket>, ip: string, socket: Socket)
    requires Valid(g, sockets) && Connect(g, ip).Ok?
    ensures Valid(Connect(g, ip).value, sockets + [socket])
  {
    var h := Connect(g, ip).value;
    assert g.nextId !in g.connAddresses;
    assert SubsInverse(h.subscriptions, h.connAddresses, sockets + [socket]) by {
      ConnectedSubs(g, sockets, socket);
    }
    assert WithinCaps(h) by {
      ConnectedCaps(g, ip);
    }
    ConnectedKeys(g, ip);
    Assemble(h, sockets + [socket]);
  }

  lemma ConnectIpExact(g: Registry, sockets: seq<Socket>, ip: string)
    requires Valid(g, sockets) && IpExact(g) && Connect(g, ip).Ok?
    ensures IpExact(Connect(g, ip).value)
  {
    assert g.nextId !in g.connIps;
    ConnectedIps(g.ipConnections, g.connIps, ip, g.nextId);
  }

  lemma SubscribedInverse(g: Registry, sockets: seq<Socket>, id: nat, a: string)
    requires SubsInverse(g.subscriptions, g.connAddresses, sockets) && id in g.connAddresses
    ensures SubsInverse(
              g.subscriptions[a := Members(g.subscriptions, a) + {Sub(sockets[id], id)}],
              g.connAddresses[id := g.connAddresses[id] + {a}], sockets)
  {
  }

  lemma SubscribeValid(g: Registry, sockets: seq<Socket>, id: nat, address: string)
    requires Valid(g, sockets) && id in g.connAddresses
    ensures Valid(Subscribe(g, id, address, sockets[id]), sockets)
  {
    var a := Lower(address);
    if SubscribeCheck(g, id, address).Subscribed? {
      SubscribedInverse(g, sockets, id, a);
    }
  }

  /** A subscription leaves the registry consistent exactly when the address is full or
      the connection is live; otherwise the address gains a subscriber no connection knows. */
  lemma SubscribeValidIff(g: Registry, sockets: seq<Socket>, id: nat, address: string)
    requires Valid(g, sockets) && id < |sockets|
    ensures Valid(Subscribe(g, id, address, sockets[id]), sockets)
            <==> id in g.connAddresses
                 || |Members(g.subscriptions, Lower(address))| >= MAX_SUBS_PER_ADDRESS
  {
    if id in g.connAddresses {
      SubscribeValid(g, sockets, id, address);
    } else if SubscribeCheck(g, id, address).UnknownConnection? {
      var h := Subscribe(g, id, address, sockets[id]);
      var a := Lower(address);
      assert a in h.subscriptions && Sub(sockets[id], id) in h.subscriptions[a];
    }
  }

  lemma FewerMembers<T>(a: set<T>, b: set<T>)
    requires a <= b
    ensures |a| <= |b|
  {
    assert b == a + (b - a);
  }

  /** Removing the subscribers of some connections at one address. */
  lemma WithoutInverse(g: Registry, sockets: seq<Socket>, a: string, gone: set<Sub>, addresses: map<nat, set<string>>)
    requires SubsInverse(g.subscriptions, g.connAddresses, sockets)
    requires addresses.Keys == g.connAddresses.Keys
    requires forall c, b :: c in addresses && b != a ==> (b in addresses[c] <==> b in g.connAddresses[c])
    requires forall c :: c in addresses ==>
               (a in addresses[c] <==> a in g.connAddresses[c] && Sub(sockets[c], c) !in gone)
    ensures SubsInverse(Without(g.subscriptions, a, gone), addresses, sockets)
  {
    var subs := Without(g.subscriptions, a, gone);
    forall b: string, s: Sub | b in subs && s in subs[b]
      ensures s.id in addresses && b in addresses[s.id] && s.socket == sockets[s.id]
    {
      assert b in g.subscriptions && s in g.subscriptions[b];
      assert s == Sub(sockets[s.id], s.id);
    }
    forall c, b | c in addresses && b in addresses[c]
      ensures b in subs && Sub(sockets[c], c) in subs[b]
    {
      assert b in g.connAddresses[c];
      if b == a {
        assert Sub(sockets[c], c) in Members(g.subscriptions, a) - gone;
      }
    }
  }

  lemma WithoutCaps(g: Registry, a: string, gone: set<Sub>)
    requires WithinCaps(g)
    ensures forall b :: b in Without(g.subscriptions, a, gone) ==>
              |Without(g.subscriptions, a, gone)[b]| <= MAX_SUBS_PER_ADDRESS
  {
    FewerMembers(Members(g.subscriptions, a) - gone, Members(g.subscriptions, a));
  }

  lemma DiscardCaps(g: Registry, id: nat, gone: set<string>)
    requires WithinCaps(g)
    ensures Discard(g.connAddresses, id, gone).Keys == g.connAddresses.Keys
    ensures forall c :: c in g.connAddresses ==>
              |Discard(g.connAddresses, id, gone)[c]| <= MAX_ADDRESSES_PER_CONN
  {
    if id in g.connAddresses {
      FewerMembers(g.connAddresses[id] - gone, g.connAddresses[id]);
    }
  }

  lemma SameKeysSameSize<K, V, W>(m: map<K, V>, n: map<K, W>)
    requires m.Keys == n.Keys
    ensures |m| == |n|
  {
    assert |m| == |m.Keys| == |n.Keys| == |n|;
  }

  lemma UnsubscribeCaps(g: Registry, id: nat, address: string)
    requires WithinCaps(g)
    ensures WithinCaps(Unsubscribe(g, id, address))
  {
    var a := Lower(address);
    DiscardCaps(g, id, {a});
    SameKeysSameSize(Discard(g.connAddresses, id, {a}), g.connAddresses);
    WithoutCaps(g, a, OfConnection(Members(g.subscriptions, a), id));
  }

  lemma UnsubscribeInverse(g: Registry, sockets: seq<Socket>, id: nat, address: string)
    requires SubsInverse(g.subscriptions, g.connAddresses, sockets)
    ensures SubsInverse(Unsubscribe(g, id, address).subscriptions, Unsubscribe(g, id, address).connAddresses, sockets)
  {
    var a := Lower(address);
    WithoutInverse(g, sockets, a, OfConnection(Members(g.subscriptions, a), id), Discard(g.connAddresses, id, {a}));
  }

  lemma UnsubscribeValid(g: Registry, sockets: seq<Socket>, id: nat, address: string)
    requires Valid(g, sockets)
    ensures Valid(Unsubscribe(g, id, address), sockets)
  {
    UnsubscribeCaps(g, id, address);
    UnsubscribeInverse(g, sockets, id, address);
    Assemble(Unsubscribe(g, id, address), sockets);
  }

  /** After unsubscribing, the connection is not at the address, in either index. */
  lemma UnsubscribeRemoves(g: Registry, sockets: seq<Socket>, id: nat, address: string)
    requires Valid(g, sockets)
    ensures
      var h := Unsubscribe(g, id, address);
      && Lower(address) !in Members(h.connAddresses, id)
      && OfConnection(Members(h.subscriptions, Lower(address)), id) == {}
      && (forall c, a :: c != id || a != Lower(address) ==>
            (a in Members(h.connAddresses, c) <==> a in Members(g.connAddresses, c)))
  {
  }

  lemma DropInverse(g: Registry, sockets: seq<Socket>, id: nat)
    requires SubsInverse(g.subscriptions, g.connAddresses, sockets)
    ensures SubsInverse(DropConnection(g.subscriptions, Members(g.connAddresses, id), id),
                        g.connAddresses - {id}, sockets)
  {
    var mine := Members(g.connAddresses, id);
    var subs := DropConnection(g.subscriptions, mine, id);
    var addresses := g.connAddresses - {id};
    forall a: string, s: Sub | a in subs && s in subs[a]
      ensures s.id in addresses && a in addresses[s.id] && s.socket == sockets[s.id]
    {
      assert a in g.subscriptions && s in g.subscriptions[a];
    }
    forall c, a | c in addresses && a in addresses[c]
      ensures a in subs && Sub(sockets[c], c) in subs[a]
    {
      assert Sub(sockets[c], c) in g.subscriptions[a];
      assert Sub(sockets[c], c) in g.subscriptions[a] - OfConnection(g.subscriptions[a], id);
    }
  }

  lemma DropCaps(g: Registry, id: nat)
    requires WithinCaps(g)
    ensures
      var subs := DropConnection(g.subscriptions, Members(g.connAddresses, id), id);
      forall a :: a in subs ==> |subs[a]| <= MAX_SUBS_PER_ADDRESS
    ensures |g.connAddresses - {id}| <= MAX_CONNECTIONS_GLOBAL
  {
    var subs := DropConnection(g.subscriptions, Members(g.connAddresses, id), id);
    forall a | a in subs
      ensures |subs[a]| <= MAX_SUBS_PER_ADDRESS
    {
      FewerMembers(subs[a], g.subscriptions[a]);
    }
    FewerMembers((g.connAddresses - {id}).Keys, g.connAddresses.Keys);
    assert |g.connAddresses - {id}| == |(g.connAddresses - {id}).Keys|;
  }

  lemma IpWithout(byIp: map<string, set<nat>>, ips: map<nat, string>, id: nat)
    requires IpInverse(byIp, ips) && id in ips
    ensures IpInverse(Without(byIp, ips[id], {id}), ips - {id})
  {
    var left := Members(byIp, ips[id]) - {id};
    forall c | c in ips - {id} && ips[c] == ips[id]
      ensures c in left
    {
    }
  }

  lemma IpWithoutCaps(g: Registry, ip: string, id: nat)
    requires WithinCaps(g)
    ensures forall i :: i in Without(g.ipConnections, ip, {id}) ==>
              |Without(g.ipConnections, ip, {id})[i]| <= MAX_CONNECTIONS_PER_IP
  {
    FewerMembers(Members(g.ipConnections, ip) - {id}, Members(g.ipConnections, ip));
  }

  /** A disconnection keeps the IP indexes exact exactly when the connection is unknown or
      its IP text is not empty: for an empty text the IP's entry is never cleaned. */
  lemma DisconnectIpIff(g: Registry, id: nat)
    requires IpExact(g)
    ensures IpExact(Disconnect(g, id)) <==> id !in g.connIps || g.connIps[id] != ""
  {
    if id !in g.connIps {
      assert g.connIps - {id} == g.connIps;
    } else if g.connIps[id] != "" {
      IpWithout(g.ipConnections, g.connIps, id);
    } else {
      assert id in g.ipConnections[""] && id !in g.connIps - {id};
    }
  }

  lemma DisconnectCaps(g: Registry, id: nat)
    requires WithinCaps(g)
    ensures WithinCaps(Disconnect(g, id))
  {
    var h := Disconnect(g, id);
    assert (forall a :: a in h.subscriptions ==> |h.subscriptions[a]| <= MAX_SUBS_PER_ADDRESS)
           && |h.connAddresses| <= MAX_CONNECTIONS_GLOBAL by {
      DropCaps(g, id);
    }
    assert forall ip :: ip in h.ipConnections ==> |h.ipConnections[ip]| <= MAX_CONNECTIONS_PER_IP by {
      if id in g.connIps {
        IpWithoutCaps(g, g.connIps[id], id);
      }
    }
  }

  lemma DisconnectValid(g: Registry, sockets: seq<Socket>, id: nat)
    requires Valid(g, sockets)
    ensures Valid(Disconnect(g, id), sockets)
  {
    DropInverse(g, sockets, id);
    DisconnectCaps(g, id);
  }

  /** Consistent indexes mention live connections only. */
  lemma DeadNowhere(g: Registry, sockets: seq<Socket>, id: nat)
    requires Valid(g, sockets) && id !in g.connAddresses
    ensures id !in g.connIps && id !in g.connOwner
    ensures forall a :: a in g.subscriptions ==> OfConnection(g.subscriptions[a], id) == {}
    ensures IpExact(g) ==> forall ip :: ip in g.ipConnections ==> id !in g.ipConnections[ip]
  {
    forall a, s: Sub | a in g.subscriptions && s in g.subscriptions[a]
      ensures s.id != id
    {
    }
  }

  /** A disconnected connection is in no index, but for its IP's entry if that is empty. */
  lemma DisconnectRemoves(g: Registry, sockets: seq<Socket>, id: nat)
    requires Valid(g, sockets) && IpExact(g)
    ensures
      var h := Disconnect(g, id);
      && id !in h.connAddresses && id !in h.connIps && id !in h.connOwner
      && (forall a :: a in h.subscriptions ==> OfConnection(h.subscriptions[a], id) == {})
      && ((forall ip :: ip in h.ipConnections ==> id !in h.ipConnections[ip])
          <==> id !in g.connIps || g.connIps[id] != "")
  {
    var h := Disconnect(g, id);
    DisconnectValid(g, sockets, id);
    DisconnectIpIff(g, id);
    DeadNowhere(h, sockets, id);
    if id in g.connIps && g.connIps[id] == "" {
      assert "" in h.ipConnections && id in h.ipConnections[""];
    }
  }

  /** No other connection notices a disconnection. */
  lemma DisconnectFrame(g: Registry, id: nat, c: nat)
    requires c != id
    ensures
      var h := Disconnect(g, id);
      && (c in h.connAddresses <==> c in g.connAddresses)
      && Members(h.connAddresses, c) == Members(g.connAddresses, c)
      && (c in h.connIps <==> c in g.connIps) && (c in g.connIps ==> h.connIps[c] == g.connIps[c])
      && (c in h.connOwner <==> c in g.connOwner) && (c in g.connOwner ==> h.connOwner[c] == g.connOwner[c])
      && h.nextId == g.nextId
  {
  }

  // ----- Late cleanups -----

  /** Pairs remembered by a broadcast: each names an id with the socket it was given. The id
      may be long gone. */
  ghost predicate Remembered(dead: seq<Sub>, sockets: seq<Socket>) {
    forall s :: s in dead ==> s.id < |sockets| && s.socket == sockets[s.id]
  }

  lemma DeadBySocket(dead: seq<Sub>, sockets: seq<Socket>, c: nat)
    requires Remembered(dead, sockets) && c < |sockets|
    ensures c in DeadIds(dead) <==> Sub(sockets[c], c) in DeadSet(dead)
  {
    if c in DeadIds(dead) {
      var s :| s in dead && s.id == c;
      assert s == Sub(sockets[c], c);
    }
  }

  lemma CleanAddressCaps(g: Registry, a: string, dead: seq<Sub>)
    requires WithinCaps(g)
    ensures WithinCaps(CleanAddress(g, a, dead))
  {
    var h := CleanAddress(g, a, dead);
    forall c | c in h.connAddresses
      ensures |h.connAddresses[c]| <= MAX_ADDRESSES_PER_CONN
    {
      FewerMembers(h.connAddresses[c], g.connAddresses[c]);
    }
    SameKeysSameSize(h.connAddresses, g.connAddresses);
    WithoutCaps(g, a, DeadSet(dead));
  }

  lemma CleanAddressInverse(g: Registry, sockets: seq<Socket>, a: string, dead: seq<Sub>)
    requires SubsInverse(g.subscriptions, g.connAddresses, sockets)
    requires Remembered(dead, sockets) && dead != []
    ensures SubsInverse(CleanAddress(g, a, dead).subscriptions, CleanAddress(g, a, dead).connAddresses, sockets)
  {
    var h := CleanAddress(g, a, dead);
    forall c | c in h.connAddresses
      ensures a in h.connAddresses[c] <==> a in g.connAddresses[c] && Sub(sockets[c], c) !in DeadSet(dead)
    {
      DeadBySocket(dead, sockets, c);
    }
    WithoutInverse(g, sockets, a, DeadSet(dead), h.connAddresses);
  }

  lemma CleanAddressValid(g: Registry, sockets: seq<Socket>, a: string, dead: seq<Sub>)
    requires Valid(g, sockets) && Remembered(dead, sockets)
    ensures Valid(CleanAddress(g, a, dead), sockets)
  {
    if dead != [] {
      CleanAddressCaps(g, a, dead);
      CleanAddressInverse(g, sockets, a, dead);
      Assemble(CleanAddress(g, a, dead), sockets);
    }
  }

  /** Only the failed connections lose the address, and nothing else changes. */
  lemma CleanAddressFrame(g: Registry, sockets: seq<Socket>, a: string, dead: seq<Sub>)
    requires Valid(g, sockets) && Remembered(dead, sockets)
    ensures
      var h := CleanAddress(g, a, dead);
      && h.connAddresses.Keys == g.connAddresses.Keys
      && h == g.(subscriptions := h.subscriptions, connAddresses := h.connAddresses)
      && (forall c, b :: c !in DeadIds(dead) || b != a ==>
            (b in Members(h.connAddresses, c) <==> b in Members(g.connAddresses, c)))
      && (forall s :: s in dead ==> a !in Members(h.connAddresses, s.id) && s !in Members(h.subscriptions, a))
  {
    if dead != [] {
      forall s | s in dead
        ensures a !in Members(CleanAddress(g, a, dead).connAddresses, s.id)
      {
        assert s.id in DeadIds(dead);
      }
    }
  }

  lemma PurgeInverse(g: Registry, sockets: seq<Socket>, d: Sub)
    requires SubsInverse(g.subscriptions, g.connAddresses, sockets)
    requires d.id < |sockets| && d.socket == sockets[d.id]
    ensures SubsInverse(Purge(g, d).subscriptions, Purge(g, d).connAddresses, sockets)
    ensures Members(Purge(g, d).connAddresses, d.id) == {}
  {
    var h := Purge(g, d);
    forall a: string, s: Sub | a in h.subscriptions && s in h.subscriptions[a]
      ensures s.id in h.connAddresses && a in h.connAddresses[s.id] && s.socket == sockets[s.id]
    {
      assert s in g.subscriptions[a] && s != d;
      assert s == Sub(sockets[s.id], s.id);
    }
    forall c, a | c in h.connAddresses && a in h.connAddresses[c]
      ensures a in h.subscriptions && Sub(sockets[c], c) in h.subscriptions[a]
    {
      assert a in g.connAddresses[c];
      assert Sub(sockets[c], c) in g.subscriptions[a] - {d};
    }
  }

  lemma PurgeValid(g: Registry, sockets: seq<Socket>, d: Sub)
    requires Valid(g, sockets) && d.id < |sockets| && d.socket == sockets[d.id]
    ensures Valid(Purge(g, d), sockets)
  {
    var h := Purge(g, d);
    PurgeInverse(g, sockets, d);
    DiscardCaps(g, d.id, g.subscriptions.Keys);
    SameKeysSameSize(h.connAddresses, g.connAddresses);
    forall a | a in h.subscriptions
      ensures |h.subscriptions[a]| <= MAX_SUBS_PER_ADDRESS
    {
      FewerMembers(h.subscriptions[a], g.subscriptions[a]);
    }
  }

  lemma {:induction false} CleanGlobalValid(g: Registry, sockets: seq<Socket>, dead: seq<Sub>)
    requires Valid(g, sockets) && Remembered(dead, sockets)
    ensures Valid(CleanGlobal(g, dead), sockets)
    decreases |dead|
  {
    if dead != [] {
      PurgeValid(g, sockets, dead[0]);
      CleanGlobalValid(Purge(g, dead[0]), sockets, dead[1..]);
    }
  }

  lemma PurgeFrame(g: Registry, sockets: seq<Socket>, d: Sub)
    requires Valid(g, sockets) && d.id < |sockets| && d.socket == sockets[d.id]
    ensures
      var h := Purge(g, d);
      && h.connAddresses.Keys == g.connAddresses.Keys
      && h == g.(subscriptions := h.subscriptions, connAddresses := h.connAddresses)
      && (forall c :: Members(h.connAddresses, c) == if c == d.id then {} else Members(g.connAddresses, c))
  {
    if d.id in g.connAddresses {
      assert g.connAddresses[d.id] <= g.subscriptions.Keys;
    }
  }

  lemma DeadIdsStep(dead: seq<Sub>)
    requires dead != []
    ensures DeadIds(dead) == {dead[0].id} + DeadIds(dead[1..])
  {
    assert forall s :: s in dead <==> s == dead[0] || s in dead[1..];
  }

  /** After the cleanup no failed connection is subscribed anywhere; every other connection
      keeps exactly the addresses it had, and nothing else changes. */
  lemma {:induction false} CleanGlobalFrame(g: Registry, sockets: seq<Socket>, dead: seq<Sub>)
    requires Valid(g, sockets) && Remembered(dead, sockets)
    ensures
      var h := CleanGlobal(g, dead);
      && h.connAddresses.Keys == g.connAddresses.Keys
      && h == g.(subscriptions := h.subscriptions, connAddresses := h.connAddresses)
      && (forall c :: Members(h.connAddresses, c)
                      == if c in DeadIds(dead) then {} else Members(g.connAddresses, c))
    decreases |dead|
  {
    if dead != [] {
      var next := Purge(g, dead[0]);
      PurgeValid(g, sockets, dead[0]);
      PurgeFrame(g, sockets, dead[0]);
      CleanGlobalFrame(next, sockets, dead[1..]);
      DeadIdsStep(dead);
    }
  }

  // ----- Snapshots -----

  /** Under one address: each subscriber once, in any order. */
  ghost predicate IsSnapshot(g: Registry, a: string, order: seq<Sub>) {
    && (forall i, j :: 0 <= i < j < |order| ==> order[i] != order[j])
    && (forall s :: s in order <==> s in Members(g.subscriptions, a))
  }

  /** Over all addresses: one pair for each connection that holds a subscription. */
  ghost predicate IsGlobalSnapshot(g: Registry, order: seq<Sub>) {
    && (forall i, j :: 0 <= i < j < |order| ==> order[i].id != order[j].id)
    && (forall s :: s in order ==> exists a :: a in g.subscriptions && s in g.subscriptions[a])
    && (forall a, s :: a in g.subscriptions && s in g.subscriptions[a] ==> s.id in DeadIds(order))
  }

  /** A global snapshot holds exactly the connections with a subscription, once each: not
      every connected client, as its documentation says. */
  lemma GlobalSnapshotReach(g: Registry, sockets: seq<Socket>, order: seq<Sub>)
    requires Valid(g, sockets) && IsGlobalSnapshot(g, order)
    ensures Remembered(order, sockets)
    ensures DeadIds(order) == set c | c in g.connAddresses && g.connAddresses[c] != {}
    ensures |order| == |DeadIds(order)|
  {
    var active := set c | c in g.connAddresses && g.connAddresses[c] != {};
    forall s | s in order
      ensures s.id < |sockets| && s.socket == sockets[s.id] && s.id in active
    {
      var a :| a in g.subscriptions && s in g.subscriptions[a];
      assert a in g.connAddresses[s.id];
    }
    forall c | c in active
      ensures c in DeadIds(order)
    {
      var a :| a in g.connAddresses[c];
      assert Sub(sockets[c], c) in g.subscriptions[a];
    }
    DistinctIds(order);
  }

  lemma {:induction false} DistinctIds(order: seq<Sub>)
    requires forall i, j :: 0 <= i < j < |order| ==> order[i].id != order[j].id
    ensures |DeadIds(order)| == |order|
  {
    if order != [] {
      var init, last := order[..|order| - 1], order[|order| - 1];
      DistinctIds(init);
      assert order == init + [last];
      assert DeadIds(order) == DeadIds(init) + {last.id};
      assert last.id !in DeadIds(init);
    }
  }

  /** Remembered pairs are equal when their ids are. */
  lemma SnapshotDistinctIds(order: seq<Sub>, sockets: seq<Socket>)
    requires Remembered(order, sockets)
    requires forall i, j :: 0 <= i < j < |order| ==> order[i] != order[j]
    ensures forall i, j :: 0 <= i < j < |order| ==> order[i].id != order[j].id
  {
    forall i, j | 0 <= i < j < |order|
      ensures order[i].id != order[j].id
    {
      assert order[i] in order && order[j] in order;
    }
  }

  // ----- Counting -----

  /** The (key, member) pairs of a map of sets. */
  function Pairs<K, V>(m: map<K, set<V>>): set<(K, V)> {
    set k, v | k in m && v in m[k] :: (k, v)
  }

  lemma {:induction false} PairOff<K, V>(k: K, vs: set<V>)
    ensures |set v | v in vs :: (k, v)| == |vs|
    decreases |vs|
  {
    var pairs := set v | v in vs :: (k, v);
    if vs == {} {
      assert pairs == {};
    } else {
      var v :| v in vs;
      PairOff(k, vs - {v});
      assert pairs == (set w | w in vs - {v} :: (k, w)) + {(k, v)};
    }
  }

  /** The part of a map under some keys. */
  function Under<K, V>(m: map<K, V>, keys: set<K>): map<K, V> {
    map k | k in m && k in keys :: m[k]
  }

  /** Adding one key's set adds its size. */
  lemma PairsStep<K, V>(m: map<K, set<V>>, keys: set<K>, k: K)
    requires k in m && k !in keys
    ensures |Pairs(Under(m, keys + {k}))| == |Pairs(Under(m, keys))| + |m[k]|
  {
    var before, after := Pairs(Under(m, keys)), Pairs(Under(m, keys + {k}));
    var own := set v | v in m[k] :: (k, v);
    PairOff(k, m[k]);
    assert after == before + own;
    assert before !! own;
  }

  lemma PairsUnder<K, V>(m: map<K, set<V>>)
    ensures Pairs(Under(m, {})) == {}
    ensures Under(m, m.Keys) == m
  {
  }

  lemma {:induction false} InjectiveImage<A, B>(xs: set<A>, ys: set<B>, f: A -> B)
    requires forall x, y :: x in xs && y in xs && x != y ==> f(x) != f(y)
    requires forall x :: x in xs ==> f(x) in ys
    requires forall y :: y in ys ==> exists x :: x in xs && f(x) == y
    ensures |xs| == |ys|
    decreases |xs|
  {
    if xs == {} {
      assert ys == {};
    } else {
      var x :| x in xs;
      InjectiveImage(xs - {x}, ys - {f(x)}, f);
    }
  }

  /** Both indexes count the same subscriptions: summing over addresses or over connections
      gives one number. */
  lemma SubscriptionsCountedOnce(g: Registry, sockets: seq<Socket>)
    requires Valid(g, sockets)
    ensures |Pairs(g.subscriptions)| == |Pairs(g.connAddresses)|
  {
    var f := (p: (string, Sub)) => (p.1.id, p.0);
    forall q | q in Pairs(g.connAddresses)
      ensures exists p :: p in Pairs(g.subscriptions) && f(p) == q
    {
      var p := (q.1, Sub(sockets[q.0], q.0));
      assert p in Pairs(g.subscriptions) && f(p) == q;
    }
    InjectiveImage(Pairs(g.subscriptions), Pairs(g.connAddresses), f);
  }

  lemma IpPairs(byIp: map<string, set<nat>>, ips: map<nat, string>)
    requires IpInverse(byIp, ips)
    ensures |Pairs(byIp)| == |ips.Keys|
  {
    var f := (p: (string, nat)) => p.1;
    var pairs := Pairs(byIp);
    forall p, q | p in pairs && q in pairs && p != q
      ensures f(p) != f(q)
    {
      assert ips[p.1] == p.0 && ips[q.1] == q.0;
    }
    forall c | c in ips.Keys
      ensures exists p :: p in pairs && f(p) == c
    {
      var p := (ips[c], c);
      assert p in pairs && f(p) == c;
    }
    InjectiveImage(pairs, ips.Keys, f);
  }

  /** The IP sets together hold every connection once. */
  lemma ConnectionsCountedByIp(g: Registry, sockets: seq<Socket>)
    requires Valid(g, sockets) && IpExact(g)
    ensures |Pairs(g.ipConnections)| == |g.connAddresses|
  {
    IpPairs(g.ipConnections, g.connIps);
    assert |g.connIps.Keys| == |g.connAddresses.Keys| == |g.connAddresses|;
  }

  // ----- Sends -----

  function Delivered(delivered: seq<bool>): (n: nat)
    ensures n <= |delivered|
  {
    if delivered == [] then 0
    else Delivered(delivered[..|delivered| - 1]) + (if delivered[|delivered| - 1] then 1 else 0)
  }

  function Failed(order: seq<Sub>, delivered: seq<bool>): (dead: seq<Sub>)
    requires |delivered| == |order|
  {
    if order == [] then []
    else
      var n := |order| - 1;
      Failed(order[..n], delivered[..n]) + (if delivered[n] then [] else [order[n]])
  }

  /** The count is the number of sends that succeeded. */
  lemma {:induction false} DeliveredMeaning(delivered: seq<bool>)
    ensures Delivered(delivered) == |set i: nat | i < |delivered| && delivered[i]|
  {
    var all := set i: nat | i < |delivered| && delivered[i];
    if delivered == [] {
      assert all == {};
    } else {
      var n := |delivered| - 1;
      var init := set i: nat | i < n && delivered[..n][i];
      DeliveredMeaning(delivered[..n]);
      assert all == if delivered[n] then init + {n} else init;
    }
  }

  lemma {:induction false} FailedCount(order: seq<Sub>, delivered: seq<bool>)
    requires |delivered| == |order|
    ensures Delivered(delivered) + |Failed(order, delivered)| == |order|
    decreases |order|
  {
    if order != [] {
      FailedCount(order[..|order| - 1], delivered[..|order| - 1]);
    }
  }

  lemma {:induction false} FailedHolds(order: seq<Sub>, delivered: seq<bool>, i: nat)
    requires |delivered| == |order| && i < |order| && !delivered[i]
    ensures order[i] in Failed(order, delivered)
    decreases |order|
  {
    var n := |order| - 1;
    if i < n {
      FailedHolds(order[..n], delivered[..n], i);
    }
  }

  lemma {:induction false} FailedFrom(order: seq<Sub>, delivered: seq<bool>, s: Sub) returns (i: nat)
    requires |delivered| == |order| && s in Failed(order, delivered)
    ensures i < |order| && order[i] == s && !delivered[i]
    decreases |order|
  {
    var n := |order| - 1;
    if s in Failed(order[..n], delivered[..n]) {
      i := FailedFrom(order[..n], delivered[..n], s);
    } else {
      i := n;
    }
  }

  /** The failed list holds exactly the targets whose send failed. */
  lemma FailedMeaning(order: seq<Sub>, delivered: seq<bool>)
    requires |delivered| == |order|
    ensures Delivered(delivered) + |Failed(order, delivered)| == |order|
    ensures forall s :: s in Failed(order, delivered) <==>
              exists i :: 0 <= i < |order| && order[i] == s && !delivered[i]
  {
    FailedCount(order, delivered);
    forall s | s in Failed(order, delivered)
      ensures exists i :: 0 <= i < |order| && order[i] == s && !delivered[i]
    {
      var i := FailedFrom(order, delivered, s);
    }
    forall i | 0 <= i < |order| && !delivered[i]
      ensures order[i] in Failed(order, delivered)
    {
      FailedHolds(order, delivered, i);
    }
  }
}
