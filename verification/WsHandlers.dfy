/** What each event of a handler does to its connection, in the terms of the client: which
    connections are accepted, who ends up subscribed to what, and whom a broadcast to one
    address reaches. */
module WsHandlers {
  import opened Wrappers
  import opened WsRegistry
  import opened WsProtocol

  // ----- Connecting -----

  /** A connection is accepted exactly if its path, stripped and in lower case, is the token's
      subject and both limits leave room; then it is owned by that subject. Otherwise nothing
      changes. */
  lemma OpenMeaning(w: World, socket: Socket, path: string, subject: Option<string>, ip: string)
    ensures
      var v := Next(w, Open(socket, path, subject, ip));
      if subject == Some(Lower(Strip(path))) && |w.reg.connAddresses| < 200 && |Members(w.reg.ipConnections, ip)| < 5
      then
        && v.phases == w.phases + [Opened] && v.owners == w.owners + [Lower(Strip(path))]
        && v.sockets == w.sockets + [socket] && v.ips == w.ips + [ip] && v.flights == w.flights
        && v.reg.nextId == w.reg.nextId + 1 && v.reg.subscriptions == w.reg.subscriptions
      else v == w
  {
    ConnectOutcomeMeaning(w.reg, ip);
  }

  /** The connection is on the address, in both indexes. */
  predicate IsOn(w: World, id: nat, a: string)
    requires Known(w, id)
  {
    a in Members(w.reg.connAddresses, id) && Sub(w.sockets[id], id) in Members(w.reg.subscriptions, a)
  }

  lemma OwnAddressOnly(w: World, id: nat)
    requires WorldValid(w) && Known(w, id) && Live(w.phases[id])
    ensures AtHome(w, id)
  {
    FewerMembers(w.reg.connAddresses[id], {w.owners[id]});
  }

  /** Registered, on at most its own address. */
  predicate AtHome(w: World, id: nat)
    requires Known(w, id)
  {
    id in w.reg.connAddresses && |w.reg.connAddresses[id]| <= 1 && Lower(w.owners[id]) == w.owners[id]
  }

  /** Subscribing a live connection to its own address succeeds exactly if the address has
      room, and then the connection is on it. */
  lemma OwnSubscription(w: World, id: nat)
    requires Known(w, id) && AtHome(w, id)
    ensures
      var g, a := w.reg, w.owners[id];
      var h := Subscribe(g, id, a, w.sockets[id]);
      var room := |Members(g.subscriptions, a)| < 10;
      && (SubscribeCheck(g, id, a).Subscribed? <==> room)
      && (room ==> a in Members(h.connAddresses, id) && Sub(w.sockets[id], id) in Members(h.subscriptions, a))
      && (!room ==> h == g)
  {
    SubscribeOutcomeMeaning(w.reg, id, w.owners[id]);
    SubscribedHolds(w.reg, id, w.owners[id], w.sockets[id]);
  }

  /** The first subscription is confirmed exactly if the address has room; then the connection
      is on its owner's address, and every snapshot of that address contains it. */
  lemma FirstSubscribeMeaning(w: World, id: nat)
    requires WorldValid(w) && Known(w, id) && w.phases[id].Owned?
    ensures
      var v := Next(w, FirstSubscribe(id));
      var room := |Members(w.reg.subscriptions, w.owners[id])| < 10;
      && Known(v, id) && v.sockets == w.sockets && v.owners == w.owners
      && v.phases[id] == (if room then Confirming else Rejected)
      && (room ==> IsOn(v, id, w.owners[id])
                   && forall order :: IsSnapshot(v.reg, w.owners[id], order) ==> Sub(w.sockets[id], id) in order)
      && (!room ==> v.reg == w.reg)
  {
    OwnAddressOnly(w, id);
    FirstSubscribeEffect(w, id);
  }

  lemma FirstSubscribeEffect(w: World, id: nat)
    requires Known(w, id) && w.phases[id].Owned? && AtHome(w, id)
    ensures
      var v := Next(w, FirstSubscribe(id));
      var room := |Members(w.reg.subscriptions, w.owners[id])| < 10;
      && Known(v, id) && v.sockets == w.sockets && v.owners == w.owners
      && v.phases[id] == (if room then Confirming else Rejected)
      && (room ==> IsOn(v, id, w.owners[id]))
      && (!room ==> v.reg == w.reg)
  {
    OwnSubscription(w, id);
  }

  /** Owning a connection records its subject; a confirmation that is delivered starts serving
      with the owner's address tracked. */
  lemma OwnAndConfirmMeaning(w: World, id: nat, delivered: bool)
    requires Known(w, id)
    ensures w.phases[id].Opened? ==>
              var v := Next(w, Own(id));
              && v.phases == w.phases[id := Owned]
              && id in v.reg.connOwner && v.reg.connOwner[id] == Lower(w.owners[id])
              && v.reg.connAddresses == w.reg.connAddresses && v.reg.subscriptions == w.reg.subscriptions
    ensures w.phases[id].Confirming? ==>
              Next(w, Confirm(id, delivered))
              == w.(phases := w.phases[id := if delivered then Serving({w.owners[id]}) else Leaked])
  {
  }

  // ----- Messages -----

  /** A subscribe message counts exactly if it names the connection's own address, of 20
      characters or more, with room; then the connection is on it and tracks it. Otherwise
      the registry and the list stay. */
  lemma SubscribeMessageMeaning(w: World, id: nat, text: string)
    requires WorldValid(w) && Known(w, id) && w.phases[id].Serving?
    ensures
      var v, a := Next(w, SubscribeMessage(id, text)), Lower(Strip(text));
      && Known(v, id) && v.sockets == w.sockets && v.owners == w.owners
      && if |a| >= 20 && a == w.owners[id] && |Members(w.reg.subscriptions, a)| < 10
         then IsOn(v, id, a) && v.phases[id] == Serving(w.phases[id].tracked + {a})
         else v.reg == w.reg && v.phases[id] == w.phases[id]
  {
    OwnAddressOnly(w, id);
    SubscribeMessageEffect(w, id, text);
  }

  lemma SubscribeMessageEffect(w: World, id: nat, text: string)
    requires Known(w, id) && w.phases[id].Serving? && AtHome(w, id)
    ensures
      var v, a := Next(w, SubscribeMessage(id, text)), Lower(Strip(text));
      && Known(v, id) && v.sockets == w.sockets && v.owners == w.owners
      && if |a| >= 20 && a == w.owners[id] && |Members(w.reg.subscriptions, a)| < 10
         then IsOn(v, id, a) && v.phases[id] == Serving(w.phases[id].tracked + {a})
         else v.reg == w.reg && v.phases[id] == w.phases[id]
  {
    OwnSubscription(w, id);
  }

  /** An unsubscribe message takes the connection off the address it names, in both indexes,
      and no pair else; the handler's list loses the text as it was sent. */
  lemma UnsubscribeMessageMeaning(w: World, id: nat, text: string)
    requires Known(w, id) && w.phases[id].Serving? && text != ""
    ensures
      var v, a := Next(w, UnsubscribeMessage(id, text)), Lower(text);
      && Known(v, id) && v.phases[id] == Serving(w.phases[id].tracked - {text})
      && (forall c: nat, b: string :: Holds(v.reg.connAddresses, c, b) <==>
            Holds(w.reg.connAddresses, c, b) && !(c == id && b == a))
      && (forall b: string, s: Sub :: Holds(v.reg.subscriptions, b, s) <==>
            Holds(w.reg.subscriptions, b, s) && !(b == a && s.id == id))
  {
    UnsubscribeMeaning(w.reg, id, text);
  }

  /** An empty text does nothing. */
  lemma EmptyUnsubscribe(w: World, id: nat)
    ensures Next(w, UnsubscribeMessage(id, "")) == w
  {
  }

  // ----- Leaving -----

  /** The end of a handler: its tracked addresses are given up one by one, in any order, and
      only then is the connection disconnected; a rejected one is disconnected at once. */
  lemma LeavingMeaning(w: World, id: nat, address: string)
    requires Known(w, id)
    ensures w.phases[id].Serving? ==>
              Next(w, Leave(id)) == w.(phases := w.phases[id := Closing(w.phases[id].tracked)])
    ensures w.phases[id].Closing? && address in w.phases[id].rest ==>
              var v := Next(w, CloseOne(id, address));
              && v.phases == w.phases[id := Closing(w.phases[id].rest - {address})]
              && (forall c: nat, b: string :: Holds(v.reg.connAddresses, c, b) <==>
                    Holds(w.reg.connAddresses, c, b) && !(c == id && b == Lower(address)))
    ensures w.phases[id] == Closing({}) || w.phases[id].Rejected? ==>
              Next(w, Drop(id)).phases == w.phases[id := Gone] && id !in Next(w, Drop(id)).reg.connAddresses
    ensures w.phases[id].Closing? && w.phases[id].rest != {} ==> Next(w, Drop(id)) == w
  {
    UnsubscribeMeaning(w.reg, id, address);
  }

  // ----- Sends -----

  /** A broadcast starts with its snapshot and no result; each send records how it went, for
      the target whose turn it is; a broadcast that has ended does nothing more. */
  lemma SendMeaning(w: World, address: string, order: seq<Sub>, i: nat, delivered: bool)
    ensures IsSnapshot(w.reg, Lower(address), order) ==>
              Next(w, StartAddress(address, order)).flights
              == w.flights + [Flight(Some(Lower(address)), order, [], true)]
    ensures IsGlobalSnapshot(w.reg, order) ==>
              Next(w, StartGlobal(order)).flights == w.flights + [Flight(None, order, [], true)]
    ensures i < |w.flights| && w.flights[i].open && |w.flights[i].results| < |w.flights[i].targets| ==>
              var f := w.flights[i];
              Next(w, Send(i, delivered)) == w.(flights := w.flights[i := f.(results := f.results + [delivered])])
    ensures i < |w.flights| && !w.flights[i].open ==>
              Next(w, Send(i, delivered)) == w && Next(w, Finish(i)) == w
  {
  }

  // ----- Broadcasts to one address -----

  /** A snapshot of one address holds exactly the connections that are on it, once each. */
  lemma AddressSnapshotReach(w: World, a: string, order: seq<Sub>)
    requires WorldValid(w) && IsSnapshot(w.reg, a, order)
    ensures DeadIds(order) == set c | c in w.reg.connAddresses && a in w.reg.connAddresses[c]
    ensures |order| == |DeadIds(order)|
    ensures Remembered(order, w.sockets)
  {
    StartAddressValid(w, a, order);
    DistinctIds(order);
    forall s | s in order
      ensures s.id in w.reg.connAddresses && a in w.reg.connAddresses[s.id]
    {
      assert s in Members(w.reg.subscriptions, a);
    }
    forall c | c in w.reg.connAddresses && a in w.reg.connAddresses[c]
      ensures c in DeadIds(order)
    {
      assert Sub(w.sockets[c], c) in Members(w.reg.subscriptions, a);
    }
  }

  // ----- Client addresses -----

  /** The first field runs up to the first comma. */
  lemma {:induction false} FirstFieldMeaning(s: string)
    ensures FirstField(s) <= s && ',' !in FirstField(s)
    ensures |FirstField(s)| < |s| ==> s[|FirstField(s)|] == ','
  {
    if s != [] && s[0] != ',' {
      FirstFieldMeaning(s[1..]);
    }
  }

  lemma {:induction false} StripLeftMeaning(s: string) returns (i: nat)
    ensures i <= |s| && StripLeft(s) == s[i..]
    ensures forall k :: 0 <= k < i ==> IsSpace(s[k])
    ensures i < |s| ==> !IsSpace(s[i])
  {
    i := 0;
    if s != [] && IsSpace(s[0]) {
      var j := StripLeftMeaning(s[1..]);
      i := j + 1;
      assert forall k :: 0 < k < i ==> s[k] == s[1..][k - 1];
    }
  }

  lemma {:induction false} StripRightMeaning(s: string) returns (j: nat)
    ensures j <= |s| && StripRight(s) == s[..j]
    ensures forall k :: j <= k < |s| ==> IsSpace(s[k])
    ensures j > 0 ==> !IsSpace(s[j - 1])
  {
    j := |s|;
    if s != [] && IsSpace(s[|s| - 1]) {
      var init := s[..|s| - 1];
      j := StripRightMeaning(init);
      assert forall k :: j <= k < |s| - 1 ==> s[k] == init[k];
      assert s[..j] == init[..j];
    }
  }

  /** Stripping takes exactly the spaces at both ends. */
  lemma StripMeaning(s: string) returns (i: nat, j: nat)
    ensures i <= j <= |s| && Strip(s) == s[i..j]
    ensures forall k :: 0 <= k < i || j <= k < |s| ==> IsSpace(s[k])
    ensures i < j ==> !IsSpace(s[i]) && !IsSpace(s[j - 1])
  {
    i := StripLeftMeaning(s);
    var t := s[i..];
    var k := StripRightMeaning(t);
    j := i + k;
    assert t[..k] == s[i..j];
    assert forall m :: j <= m < |s| ==> s[m] == t[m - i];
  }

  /** The client's IP text: the stripped text before the first comma of a non-empty forwarded
      header, else the peer's host, else "unknown". */
  lemma ClientIpMeaning(forwarded: Option<string>, host: Option<string>, field: string, rest: string)
    requires forwarded.Some? ==> forwarded.value == field + rest && ',' !in field && (rest == "" || rest[0] == ',')
    ensures ClientIp(forwarded, host) ==
            if forwarded.Some? && field + rest != "" then Strip(field)
            else if host.Some? then host.value
            else "unknown"
  {
    if forwarded.Some? {
      FirstFieldIs(field, rest);
    }
  }

  lemma {:induction false} FirstFieldIs(field: string, rest: string)
    requires ',' !in field && (rest == "" || rest[0] == ',')
    ensures FirstField(field + rest) == field
  {
    if field == "" {
      assert field + rest == rest;
    } else {
      assert field[0] in field;
      assert (field + rest)[1..] == field[1..] + rest;
      FirstFieldIs(field[1..], rest);
    }
  }
}
