/** The connection manager as a class: each method is one lock section, in place. The socket
    each id was accepted with is kept as a ghost list. */
module WsManager {
  import opened Wrappers
  import opened WsRegistry

  class ConnectionManager {
    var subscriptions: map<string, set<Sub>>
    var connAddresses: map<nat, set<string>>
    var connIps: map<nat, string>
    var ipConnections: map<string, set<nat>>
    var connOwner: map<nat, string>
    var nextId: nat
    ghost var sockets: seq<Socket>

    function State(): Registry
      reads this
    {
      Registry(subscriptions, connAddresses, connIps, ipConnections, connOwner, nextId)
    }

    ghost predicate Valid()
      reads this
    {
      WsRegistry.Valid(State(), sockets)
    }

    ghost predicate IpExact()
      reads this
    {
      WsRegistry.IpExact(State())
    }

    constructor ()
      ensures Valid() && IpExact() && State() == EMPTY && sockets == []
    {
      subscriptions, connAddresses, connIps := map[], map[], map[];
      ipConnections, connOwner, nextId := map[], map[], 0;
      sockets := [];
      new;
      WsRegistry.EmptyValid();
    }

    method Connect(socket: Socket, ip: string) returns (r: Result<nat, Limit>)
      requires Valid()
      modifies this
      ensures Valid() && (old(IpExact()) ==> IpExact())
      ensures r.Ok? <==> WsRegistry.Connect(old(State()), ip).Ok?
      ensures r.Ok? ==> State() == WsRegistry.Connect(old(State()), ip).value
                        && r.value == old(nextId) && sockets == old(sockets) + [socket]
      ensures r.Err? ==> State() == old(State()) && sockets == old(sockets)
                         && WsRegistry.Connect(old(State()), ip) == Err(r.error)
    {
      ghost var before := State();
      r := ConnectLocked(ip);
      if r.Ok? {
        WsRegistry.ConnectValid(before, sockets, ip, socket);
        if WsRegistry.IpExact(before) {
          WsRegistry.ConnectIpExact(before, sockets, ip);
        }
        sockets := sockets + [socket];
      }
    }

    method ConnectLocked(ip: string) returns (r: Result<nat, Limit>)
      modifies this`connAddresses, this`connIps, this`ipConnections, this`nextId
      ensures r.Ok? ==> r.value == old(nextId) && WsRegistry.Connect(old(State()), ip) == Ok(State())
      ensures r.Err? ==> State() == old(State()) && WsRegistry.Connect(old(State()), ip) == Err(r.error)
    {
      if |connAddresses| >= MAX_CONNECTIONS_GLOBAL {
        return Err(GlobalLimit);
      }
      var ipCount := |Members(ipConnections, ip)|;
      if ipCount >= MAX_CONNECTIONS_PER_IP {
        return Err(IpLimit);
      }
      var id := nextId;
      nextId := nextId + 1;
      connAddresses := connAddresses[id := {}];
      connIps := connIps[id := ip];
      ipConnections := ipConnections[ip := Members(ipConnections, ip) + {id}];
      r := Ok(id);
    }

    /** For an unknown connection the address has gained its subscriber before the failure;
        consistency then depends on the caller. */
    method Subscribe(id: nat, address: string, socket: Socket) returns (r: SubscribeOutcome)
      requires Valid() && id < |sockets| && sockets[id] == socket
      modifies this
      ensures sockets == old(sockets)
      ensures State() == WsRegistry.Subscribe(old(State()), id, address, socket)
      ensures r == SubscribeCheck(old(State()), id, address)
      ensures r.Subscribed? ==> Lower(address) in Members(connAddresses, id)
                                && Sub(socket, id) in Members(subscriptions, Lower(address))
      ensures r.Refused? ==> State() == old(State())
      ensures Valid() <==> !r.UnknownConnection?
    {
      ghost var before := State();
      r := SubscribeLocked(id, address, socket);
      WsRegistry.SubscribeValidIff(before, sockets, id, address);
      WsRegistry.SubscribedHolds(before, id, address, socket);
    }

    method SubscribeLocked(id: nat, address: string, socket: Socket) returns (r: SubscribeOutcome)
      modifies this`subscriptions, this`connAddresses
      ensures State() == WsRegistry.Subscribe(old(State()), id, address, socket)
      ensures r == SubscribeCheck(old(State()), id, address)
    {
      var a := Lower(address);
      if |Members(subscriptions, a)| >= MAX_SUBS_PER_ADDRESS {
        return Refused(AddressLimit);
      }
      if id in connAddresses {
        if |connAddresses[id]| >= MAX_ADDRESSES_PER_CONN {
          return Refused(ConnectionLimit);
        }
      }
      subscriptions := subscriptions[a := Members(subscriptions, a) + {Sub(socket, id)}];
      if id !in connAddresses {
        return UnknownConnection;
      }
      connAddresses := connAddresses[id := connAddresses[id] + {a}];
      r := Subscribed;
    }

    /** The scan for a connection's subscribers under one address. */
    method FindConnection(subs: set<Sub>, id: nat) returns (found: set<Sub>)
      ensures found == OfConnection(subs, id)
    {
      found := {};
      var rest := subs;
      while rest != {}
        invariant rest <= subs
        invariant found == OfConnection(subs - rest, id)
        decreases rest
      {
        var s :| s in rest;
        rest := rest - {s};
        if s.id == id {
          found := found + {s};
        }
      }
      assert subs - rest == subs;
    }

    method Unsubscribe(id: nat, address: string)
      requires Valid()
      modifies this
      ensures Valid() && sockets == old(sockets)
      ensures State() == WsRegistry.Unsubscribe(old(State()), id, address)
    {
      WsRegistry.UnsubscribeValid(State(), sockets, id, address);
      UnsubscribeLocked(id, Lower(address));
    }

    method UnsubscribeLocked(id: nat, a: string)
      modifies this`subscriptions, this`connAddresses
      ensures subscriptions == Without(old(subscriptions), a, OfConnection(Members(old(subscriptions), a), id))
      ensures connAddresses == Discard(old(connAddresses), id, {a})
    {
      RemoveAt(a, id);
      if id in connAddresses {
        connAddresses := connAddresses[id := connAddresses[id] - {a}];
      }
    }

    method Disconnect(id: nat)
      requires Valid()
      modifies this
      ensures Valid() && sockets == old(sockets)
      ensures State() == WsRegistry.Disconnect(old(State()), id)
      ensures old(IpExact()) ==> (IpExact() <==> id !in old(connIps) || old(connIps)[id] != "")
    {
      ghost var before := State();
      WsRegistry.DisconnectValid(before, sockets, id);
      DisconnectLocked(id);
      if WsRegistry.IpExact(before) {
        WsRegistry.DisconnectIpIff(before, id);
      }
    }

    method DisconnectLocked(id: nat)
      requires forall a :: a in subscriptions ==> subscriptions[a] != {}
      modifies this
      ensures sockets == old(sockets)
      ensures State() == WsRegistry.Disconnect(old(State()), id)
    {
      ForgetIp(id);
      connOwner := connOwner - {id};
      var addresses := Members(connAddresses, id);
      connAddresses := connAddresses - {id};
      RemoveFrom(addresses, id);
    }

    method ForgetIp(id: nat)
      modifies this`connIps, this`ipConnections
      ensures connIps == old(connIps) - {id}
      ensures ipConnections ==
              if id in old(connIps) && old(connIps)[id] != ""
              then Without(old(ipConnections), old(connIps)[id], {id})
              else old(ipConnections)
    {
      if id in connIps {
        var ip := connIps[id];
        connIps := connIps - {id};
        if ip != "" {
          ipConnections := ipConnections[ip := Members(ipConnections, ip) - {id}];
          if ipConnections[ip] == {} {
            ipConnections := ipConnections - {ip};
          }
        }
      } else {
        assert connIps - {id} == connIps;
      }
    }

    /** The address loop of a disconnection. */
    method RemoveFrom(addresses: set<string>, id: nat)
      requires forall a :: a in subscriptions ==> subscriptions[a] != {}
      modifies this`subscriptions
      ensures subscriptions == DropConnection(old(subscriptions), addresses, id)
    {
      var rest := addresses;
      ghost var done: set<string> := {};
      DropConnectionNone(subscriptions, id);
      while rest != {}
        invariant rest !! done && rest + done == addresses
        invariant subscriptions == DropConnection(old(subscriptions), done, id)
        decreases rest
      {
        var a :| a in rest;
        DropConnectionMore(old(subscriptions), done, a, id);
        RemoveAt(a, id);
        rest, done := rest - {a}, done + {a};
      }
      assert done == addresses;
    }

    /** One connection's subscribers leave one address. */
    method RemoveAt(a: string, id: nat)
      modifies this`subscriptions
      ensures subscriptions == Without(old(subscriptions), a, OfConnection(Members(old(subscriptions), a), id))
    {
      var toRemove := FindConnection(Members(subscriptions, a), id);
      subscriptions := subscriptions[a := Members(subscriptions, a) - toRemove];
      if subscriptions[a] == {} {
        subscriptions := subscriptions - {a};
      }
    }

    method SetOwner(id: nat, address: string)
      requires Valid()
      modifies this`connOwner
      ensures Valid() <==> id in connAddresses
      ensures connOwner == old(connOwner)[id := Lower(address)]
      ensures State() == WsRegistry.SetOwner(old(State()), id, address)
    {
      connOwner := connOwner[id := Lower(address)];
    }

    // ----- Broadcasts -----

    /** First lock section of `broadcast_to_address`: the set as a list. */
    method SnapshotAddress(address: string) returns (order: seq<Sub>)
      ensures IsSnapshot(State(), Lower(address), order)
    {
      var subs := Members(subscriptions, Lower(address));
      order := [];
      var rest := subs;
      while rest != {}
        invariant rest <= subs
        invariant forall i, j :: 0 <= i < j < |order| ==> order[i] != order[j]
        invariant forall s :: s in order <==> s in subs - rest
        decreases rest
      {
        var s :| s in rest;
        assert s !in order;
        order, rest := order + [s], rest - {s};
      }
    }

    /** First lock section of `broadcast_global`: a pair for each id not seen before. */
    method SnapshotGlobal() returns (order: seq<Sub>)
      ensures IsGlobalSnapshot(State(), order)
    {
      order := [];
      var seen: set<nat> := {};
      var addresses := subscriptions.Keys;
      while addresses != {}
        invariant addresses <= subscriptions.Keys
        invariant seen == DeadIds(order)
        invariant forall i, j :: 0 <= i < j < |order| ==> order[i].id != order[j].id
        invariant forall s :: s in order ==> exists a :: a in subscriptions && s in subscriptions[a]
        invariant forall a, s :: a in subscriptions.Keys - addresses && s in subscriptions[a] ==> s.id in seen
        decreases addresses
      {
        var a :| a in addresses;
        addresses := addresses - {a};
        order, seen := SnapshotMore(a, order, seen);
      }
    }

    /** The inner loop of the global snapshot, over one address. */
    method SnapshotMore(a: string, order0: seq<Sub>, seen0: set<nat>) returns (order: seq<Sub>, seen: set<nat>)
      requires a in subscriptions && seen0 == DeadIds(order0)
      requires forall i, j :: 0 <= i < j < |order0| ==> order0[i].id != order0[j].id
      requires forall s :: s in order0 ==> exists b :: b in subscriptions && s in subscriptions[b]
      ensures seen == DeadIds(order) && seen0 <= seen
      ensures forall i, j :: 0 <= i < j < |order| ==> order[i].id != order[j].id
      ensures forall s :: s in order ==> exists b :: b in subscriptions && s in subscriptions[b]
      ensures forall s :: s in subscriptions[a] ==> s.id in seen
    {
      order, seen := order0, seen0;
      var rest := subscriptions[a];
      while rest != {}
        invariant rest <= subscriptions[a]
        invariant seen == DeadIds(order) && seen0 <= seen
        invariant forall i, j :: 0 <= i < j < |order| ==> order[i].id != order[j].id
        invariant forall s :: s in order ==> exists b :: b in subscriptions && s in subscriptions[b]
        invariant forall s :: s in subscriptions[a] - rest ==> s.id in seen
        decreases rest
      {
        var s :| s in rest;
        rest := rest - {s};
        if s.id !in seen {
          ghost var before := order;
          order, seen := order + [s], seen + {s.id};
          AppendIds(before, s);
        }
      }
    }

    /** Sending, outside the lock; `delivered[i]` says whether the i-th send succeeded. */
    static method SendAll(order: seq<Sub>, delivered: seq<bool>) returns (sent: nat, dead: seq<Sub>)
      requires |delivered| == |order|
      ensures sent == Delivered(delivered)
      ensures dead == Failed(order, delivered)
      ensures sent + |dead| == |order|
    {
      sent, dead := 0, [];
      for i := 0 to |order|
        invariant sent == Delivered(delivered[..i])
        invariant dead == Failed(order[..i], delivered[..i])
        invariant sent + |dead| == i
      {
        assert delivered[..i + 1][..i] == delivered[..i] && order[..i + 1][..i] == order[..i];
        if delivered[i] {
          sent := sent + 1;
        } else {
          dead := dead + [order[i]];
        }
      }
      assert delivered[..|order|] == delivered && order[..|order|] == order;
    }

    /** Second lock section of `broadcast_to_address`. */
    method CleanAddress(a: string, dead: seq<Sub>)
      requires Valid() && Remembered(dead, sockets)
      modifies this`subscriptions, this`connAddresses
      ensures Valid()
      ensures State() == WsRegistry.CleanAddress(old(State()), a, dead)
    {
      ghost var after := WsRegistry.CleanAddress(State(), a, dead);
      assert WsRegistry.Valid(after, sockets) by {
        WsRegistry.CleanAddressValid(State(), sockets, a, dead);
      }
      if dead != [] {
        CleanAddressLocked(a, dead);
      }
      assert State() == after;
    }

    method CleanAddressLocked(a: string, dead: seq<Sub>)
      requires dead != []
      modifies this`subscriptions, this`connAddresses
      ensures subscriptions == Without(old(subscriptions), a, DeadSet(dead))
      ensures connAddresses == DiscardAll(old(connAddresses), DeadIds(dead), a)
    {
      assert connAddresses == DiscardAll(connAddresses, DeadIds(dead[..0]), a);
      for i := 0 to |dead|
        invariant connAddresses == DiscardAll(old(connAddresses), DeadIds(dead[..i]), a)
        invariant i == 0 ==> subscriptions == old(subscriptions)
        invariant i > 0 ==> subscriptions
                            == old(subscriptions)[a := Members(old(subscriptions), a) - DeadSet(dead[..i])]
      {
        var d := dead[i];
        assert dead[..i + 1] == dead[..i] + [d];
        AppendIds(dead[..i], d);
        AppendSet(dead[..i], d);
        DiscardAllMore(old(connAddresses), DeadIds(dead[..i]), d.id, a);
        assert Members(subscriptions, a) - {d} == Members(old(subscriptions), a) - DeadSet(dead[..i + 1]);
        subscriptions := subscriptions[a := Members(subscriptions, a) - {d}];
        if d.id in connAddresses {
          connAddresses := connAddresses[d.id := connAddresses[d.id] - {a}];
        }
      }
      assert dead[..|dead|] == dead;
      if a in subscriptions && subscriptions[a] == {} {
        subscriptions := subscriptions - {a};
      }
    }

    /** Second lock section of `broadcast_global`. */
    method CleanGlobal(dead: seq<Sub>)
      requires Valid() && Remembered(dead, sockets)
      modifies this`subscriptions, this`connAddresses
      ensures Valid()
      ensures State() == WsRegistry.CleanGlobal(old(State()), dead)
    {
      for i := 0 to |dead|
        invariant Valid()
        invariant WsRegistry.CleanGlobal(old(State()), dead) == WsRegistry.CleanGlobal(State(), dead[i..])
      {
        var d := dead[i];
        assert dead[i..][0] == d && dead[i..][1..] == dead[i + 1..];
        WsRegistry.PurgeValid(State(), sockets, d);
        PurgeOne(d);
      }
    }

    /** The loop over `list(self._subscriptions.keys())` for one failed connection. */
    method PurgeOne(d: Sub)
      requires forall a :: a in subscriptions ==> subscriptions[a] != {}
      modifies this`subscriptions, this`connAddresses
      ensures State() == Purge(old(State()), d)
    {
      var keys := subscriptions.Keys;
      var rest := keys;
      ghost var done: set<string> := {};
      assert subscriptions == DropPair(subscriptions, {}, d);
      DiscardTwice(connAddresses, d.id, {}, {});
      while rest != {}
        invariant rest !! done && rest + done == keys
        invariant subscriptions == DropPair(old(subscriptions), done, d)
        invariant connAddresses == Discard(old(connAddresses), d.id, done)
        decreases rest
      {
        var a :| a in rest;
        DropPairMore(old(subscriptions), done, a, d);
        DiscardTwice(old(connAddresses), d.id, done, {a});
        PurgeAt(a, d);
        rest, done := rest - {a}, done + {a};
      }
      assert done == keys;
    }

    /** The body of that loop. */
    method PurgeAt(a: string, d: Sub)
      requires a in subscriptions
      modifies this`subscriptions, this`connAddresses
      ensures subscriptions == Without(old(subscriptions), a, {d})
      ensures connAddresses == Discard(old(connAddresses), d.id, {a})
    {
      subscriptions := subscriptions[a := subscriptions[a] - {d}];
      if d.id in connAddresses {
        connAddresses := connAddresses[d.id := connAddresses[d.id] - {a}];
      }
      if subscriptions[a] == {} {
        subscriptions := subscriptions - {a};
      }
    }

    // ----- Counters -----

    /** The sum over addresses is the number of (connection, address) pairs. */
    method SubscriptionsCount() returns (total: nat)
      requires Valid()
      ensures total == |Pairs(connAddresses)|
    {
      SubscriptionsCountedOnce(State(), sockets);
      total := SumSizes(subscriptions);
    }

    static method SumSizes(m: map<string, set<Sub>>) returns (total: nat)
      ensures total == |Pairs(m)|
    {
      total := 0;
      ghost var done: set<string> := {};
      var rest := m.Keys;
      PairsUnder(m);
      while rest != {}
        invariant rest !! done && rest + done == m.Keys
        invariant total == |Pairs(Under(m, done))|
        decreases rest
      {
        var a :| a in rest;
        PairsStep(m, done, a);
        total := total + |m[a]|;
        rest, done := rest - {a}, done + {a};
      }
      assert done == m.Keys;
    }

    /** The number of connections; also the number of ids the IP sets hold, if those are exact. */
    method ActiveConnections() returns (n: nat)
      requires Valid()
      ensures n == |connAddresses|
      ensures IpExact() ==> n == |Pairs(ipConnections)|
    {
      if WsRegistry.IpExact(State()) {
        ConnectionsCountedByIp(State(), sockets);
      }
      n := |connAddresses|;
    }
  }

  lemma AppendIds(order: seq<Sub>, s: Sub)
    ensures DeadIds(order + [s]) == DeadIds(order) + {s.id}
  {
    assert forall t :: t in order + [s] <==> t in order || t == s;
  }

  lemma AppendSet(order: seq<Sub>, s: Sub)
    ensures DeadSet(order + [s]) == DeadSet(order) + {s}
  {
    assert forall t :: t in order + [s] <==> t in order || t == s;
  }
}
