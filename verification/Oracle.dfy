/** The oracle service's failover: endpoints asked in rotation until one answers. */
module Oracle {
  import opened Wrappers
  import opened Arithmetic

  datatype Name = Primary | Backup(number: nat)

  datatype Endpoint = Endpoint(url: string, name: Name, isPrimary: bool, priority: nat)

  /** A request fails, or answers with a JSON value that may be null. */
  datatype Reply = Failed(error: string) | Answered(data: Option<string>)

  /** What a failed attempt writes about an endpoint. */
  datatype Health = Unreachable(at: int, error: string)

  // ----- Endpoints -----

  function InsertByPriority(e: Endpoint, sorted: seq<Endpoint>): seq<Endpoint> {
    if sorted == [] || e.priority <= sorted[0].priority then [e] + sorted
    else [sorted[0]] + InsertByPriority(e, sorted[1..])
  }

  /** The stable sort of `_init_endpoints`. */
  function SortByPriority(endpoints: seq<Endpoint>): seq<Endpoint> {
    if endpoints == [] then [] else InsertByPriority(endpoints[0], SortByPriority(endpoints[1..]))
  }

  predicate SortedByPriority(endpoints: seq<Endpoint>) {
    forall i, j :: 0 <= i < j < |endpoints| ==> endpoints[i].priority <= endpoints[j].priority
  }

  lemma {:induction false} SortSorted(endpoints: seq<Endpoint>)
    requires SortedByPriority(endpoints)
    ensures SortByPriority(endpoints) == endpoints
  {
    if endpoints != [] {
      assert forall i :: 0 <= i < |endpoints[1..]| ==> endpoints[1..][i] == endpoints[i + 1];
      SortSorted(endpoints[1..]);
    }
  }

  /** The primary comes first, then the backups in the configured order. */
  method InitEndpoints(primary: string, backups: seq<string>) returns (endpoints: seq<Endpoint>)
    ensures |endpoints| == |backups| + 1 && SortedByPriority(endpoints)
    ensures endpoints[0].url == primary
    ensures forall k :: 0 <= k < |backups| ==> endpoints[k + 1].url == backups[k]
    ensures forall k :: 0 <= k < |endpoints| ==> endpoints[k].isPrimary == (k == 0) && endpoints[k].priority == k + 1
    ensures forall k :: 0 <= k < |endpoints| ==> endpoints[k].name == if k == 0 then Primary else Backup(k + 1)
  {
    endpoints := [Endpoint(primary, Primary, true, 1)];
    for i := 0 to |backups|
      invariant |endpoints| == i + 1 && endpoints[0].url == primary
      invariant forall k :: 0 <= k < i ==> endpoints[k + 1].url == backups[k]
      invariant forall k :: 0 <= k <= i ==> endpoints[k].isPrimary == (k == 0) && endpoints[k].priority == k + 1
      invariant forall k :: 0 <= k <= i ==> endpoints[k].name == if k == 0 then Primary else Backup(k + 1)
    {
      endpoints := endpoints + [Endpoint(backups[i], Backup(i + 2), false, i + 2)];
    }
    SortSorted(endpoints);
    endpoints := SortByPriority(endpoints);
  }

  // ----- Rotation -----

  /** The endpoint of the k-th attempt, counted from 0. */
  function Place(start: nat, k: nat, n: nat, failover: bool): (p: nat)
    requires start < n
    ensures p < n
  {
    if failover then (start + k) % n else start
  }

  lemma PlaceNext(start: nat, k: nat, n: nat, failover: bool)
    requires start < n
    ensures Place(start, k + 1, n, failover)
            == if failover then (Place(start, k, n, true) + 1) % n else Place(start, k, n, false)
  {
    ModSum(start + k, 1, n);
  }

  /** The attempt that reaches endpoint `p`. */
  function AttemptAt(start: nat, p: nat, n: nat): nat
    requires start < n
  {
    if p >= start then p - start else p + n - start
  }

  /** With failover, the attempts of one call go to different endpoints in cyclic order; n
      attempts reach every endpoint and end where they began. Without, all go to one. */
  lemma Rotation(start: nat, n: nat)
    requires start < n
    ensures forall i, j :: 0 <= i < j < n ==> Place(start, i, n, true) != Place(start, j, n, true)
    ensures forall p :: 0 <= p < n ==> AttemptAt(start, p, n) < n
                                       && Place(start, AttemptAt(start, p, n), n, true) == p
    ensures Place(start, n, n, true) == start
    ensures forall k: nat :: Place(start, k, n, false) == start
  {
    forall i, j | 0 <= i < j < n
      ensures Place(start, i, n, true) != Place(start, j, n, true)
    {
      ModSmall(start + i, n);
      ModSmall(start + j, n);
    }
    forall p | 0 <= p < n
      ensures Place(start, AttemptAt(start, p, n), n, true) == p
    {
      ModSmall(start + AttemptAt(start, p, n), n);
    }
    ModSmall(start + n, n);
  }

  /** The endpoints of the first `k` attempts. */
  function Attempts(start: nat, k: nat, n: nat, failover: bool): (tried: seq<nat>)
    requires start < n
    ensures |tried| == k
  {
    if k == 0 then [] else Attempts(start, k - 1, n, failover) + [Place(start, k - 1, n, failover)]
  }

  /** With failover no endpoint is asked twice in one call, and n attempts ask them all. */
  lemma AttemptsDistinct(start: nat, k: nat, n: nat)
    requires start < n && k <= n
    ensures forall i, j :: 0 <= i < j < k ==> Attempts(start, k, n, true)[i] != Attempts(start, k, n, true)[j]
    ensures k == n ==> forall p :: 0 <= p < n ==> p in Attempts(start, k, n, true)
  {
    Rotation(start, n);
    AttemptsAt(start, k, n, true);
    forall p | 0 <= p < n && k == n
      ensures p in Attempts(start, k, n, true)
    {
      assert Attempts(start, k, n, true)[AttemptAt(start, p, n)] == p;
    }
  }

  lemma {:induction false} AttemptsAt(start: nat, k: nat, n: nat, failover: bool)
    requires start < n
    ensures forall i :: 0 <= i < k ==> Attempts(start, k, n, failover)[i] == Place(start, i, n, failover)
    decreases k
  {
    if k > 0 {
      AttemptsAt(start, k - 1, n, failover);
    }
  }

  // ----- One call -----

  /** The first attempt from `k` on that answers, or `n` if none does. */
  function FirstAnswer(replies: nat -> Reply, k: nat, n: nat): (m: nat)
    requires k <= n
    ensures k <= m <= n
    ensures m < n ==> replies(m).Answered?
    decreases n - k
  {
    if k == n || replies(k).Answered? then k else FirstAnswer(replies, k + 1, n)
  }

  lemma {:induction false} FirstAnswerMeaning(replies: nat -> Reply, k: nat, n: nat)
    requires k <= n
    ensures forall j :: k <= j < FirstAnswer(replies, k, n) ==> replies(j).Failed?
    decreases n - k
  {
    if k < n && replies(k).Failed? {
      FirstAnswerMeaning(replies, k + 1, n);
    }
  }

  function Reason(reply: Reply): string {
    if reply.Failed? then reply.error else ""
  }

  /** The health entries after the first `m` attempts failed. */
  function Marked(
    health: map<string, Health>, urls: nat -> string, replies: nat -> Reply, clock: nat -> int, m: nat
  ): map<string, Health>
  {
    if m == 0 then health
    else Marked(health, urls, replies, clock, m - 1)[urls(m - 1) := Unreachable(clock(m - 1), Reason(replies(m - 1)))]
  }

  /** The last of the first m attempts that went to this URL. */
  ghost predicate IsLastAt(urls: nat -> string, m: nat, url: string, j: nat) {
    j < m && urls(j) == url && forall i :: j < i < m ==> urls(i) != url
  }

  lemma {:induction false} LastAt(urls: nat -> string, m: nat, url: string, k: nat) returns (j: nat)
    requires k < m && urls(k) == url
    ensures IsLastAt(urls, m, url, j)
    decreases m
  {
    if urls(m - 1) == url {
      j := m - 1;
    } else {
      j := LastAt(urls, m - 1, url, k);
    }
  }

  lemma {:induction false} MarkedAt(
    health: map<string, Health>, urls: nat -> string, replies: nat -> Reply, clock: nat -> int, m: nat, url: string,
    j: nat)
    requires IsLastAt(urls, m, url, j)
    ensures url in Marked(health, urls, replies, clock, m)
    ensures Marked(health, urls, replies, clock, m)[url] == Unreachable(clock(j), Reason(replies(j)))
    decreases m
  {
    if j < m - 1 {
      MarkedAt(health, urls, replies, clock, m - 1, url, j);
    }
  }

  lemma {:induction false} UnmarkedElsewhere(
    health: map<string, Health>, urls: nat -> string, replies: nat -> Reply, clock: nat -> int, m: nat, url: string)
    requires forall j :: 0 <= j < m ==> urls(j) != url
    ensures
      var h := Marked(health, urls, replies, clock, m);
      (url in h <==> url in health) && (url in h ==> h[url] == health[url])
    decreases m
  {
    if m > 0 {
      UnmarkedElsewhere(health, urls, replies, clock, m - 1, url);
    }
  }

  /** Exactly the endpoints that failed are marked, each with its last error. */
  lemma MarkedMeaning(
    health: map<string, Health>, urls: nat -> string, replies: nat -> Reply, clock: nat -> int, m: nat, url: string)
    ensures
      var h := Marked(health, urls, replies, clock, m);
      if exists j :: 0 <= j < m && urls(j) == url
      then url in h && (exists j :: IsLastAt(urls, m, url, j) && h[url] == Unreachable(clock(j), Reason(replies(j))))
      else (url in h <==> url in health) && (url in h ==> h[url] == health[url])
  {
    if k :| 0 <= k < m && urls(k) == url {
      var j := LastAt(urls, m, url, k);
      MarkedAt(health, urls, replies, clock, m, url, j);
    } else {
      UnmarkedElsewhere(health, urls, replies, clock, m, url);
    }
  }

  /** The service's changing fields, and the endpoints asked in this call. */
  datatype Progress = Progress(index: nat, health: map<string, Health>, tried: seq<nat>)

  /** What `k` failed attempts leave behind. */
  function AfterFailures(
    p: Progress, endpoints: seq<Endpoint>, failover: bool, replies: nat -> Reply, clock: nat -> int, k: nat
  ): (r: Progress)
    requires p.index < |endpoints|
    ensures r.index < |endpoints|
  {
    if k == 0 then p
    else
      var q := AfterFailures(p, endpoints, failover, replies, clock, k - 1);
      Progress(
        if failover then (q.index + 1) % |endpoints| else q.index,
        q.health[endpoints[q.index].url := Unreachable(clock(k - 1), Reason(replies(k - 1)))],
        q.tried + [q.index])
  }

  function Urls(endpoints: seq<Endpoint>, start: nat, failover: bool): nat -> string
    requires start < |endpoints|
  {
    (k: nat) => endpoints[Place(start, k, |endpoints|, failover)].url
  }

  lemma {:induction false} FailuresIndex(
    p: Progress, endpoints: seq<Endpoint>, failover: bool, replies: nat -> Reply, clock: nat -> int, k: nat)
    requires p.index < |endpoints|
    ensures AfterFailures(p, endpoints, failover, replies, clock, k).index
            == Place(p.index, k, |endpoints|, failover)
    decreases k
  {
    if k == 0 {
      PlaceStart(p.index, |endpoints|, failover);
    } else {
      FailuresIndex(p, endpoints, failover, replies, clock, k - 1);
      PlaceNext(p.index, k - 1, |endpoints|, failover);
    }
  }

  lemma {:induction false} FailuresTried(
    p: Progress, endpoints: seq<Endpoint>, failover: bool, replies: nat -> Reply, clock: nat -> int, k: nat)
    requires p.index < |endpoints|
    ensures AfterFailures(p, endpoints, failover, replies, clock, k).tried
            == p.tried + Attempts(p.index, k, |endpoints|, failover)
    decreases k
  {
    if k > 0 {
      FailuresIndex(p, endpoints, failover, replies, clock, k - 1);
      FailuresTried(p, endpoints, failover, replies, clock, k - 1);
    }
  }

  lemma {:induction false} FailuresMarked(
    p: Progress, endpoints: seq<Endpoint>, failover: bool, replies: nat -> Reply, clock: nat -> int, k: nat)
    requires p.index < |endpoints|
    ensures AfterFailures(p, endpoints, failover, replies, clock, k).health
            == Marked(p.health, Urls(endpoints, p.index, failover), replies, clock, k)
    decreases k
  {
    if k > 0 {
      FailuresIndex(p, endpoints, failover, replies, clock, k - 1);
      FailuresMarked(p, endpoints, failover, replies, clock, k - 1);
    }
  }

  /** The failed attempts went to the endpoints in rotation and marked exactly those. */
  lemma FailuresMeaning(
    p: Progress, endpoints: seq<Endpoint>, failover: bool, replies: nat -> Reply, clock: nat -> int, k: nat)
    requires p.index < |endpoints|
    ensures
      var r := AfterFailures(p, endpoints, failover, replies, clock, k);
      && r.index == Place(p.index, k, |endpoints|, failover)
      && r.tried == p.tried + Attempts(p.index, k, |endpoints|, failover)
      && r.health == Marked(p.health, Urls(endpoints, p.index, failover), replies, clock, k)
  {
    FailuresIndex(p, endpoints, failover, replies, clock, k);
    FailuresTried(p, endpoints, failover, replies, clock, k);
    FailuresMarked(p, endpoints, failover, replies, clock, k);
  }

  /** What a call returns: what the first answer carries, if there is one. */
  function Data(replies: nat -> Reply, n: nat): Option<string> {
    var m := FirstAnswer(replies, 0, n);
    if m < n then replies(m).data else None
  }

  /** Data comes back exactly when one of n attempts answers with something other than null
      and all before it fail. */
  lemma DataIff(replies: nat -> Reply, n: nat)
    ensures Data(replies, n).Some? <==>
              exists k :: 0 <= k < n && replies(k).Answered? && replies(k).data.Some?
                          && forall j :: 0 <= j < k ==> replies(j).Failed?
  {
    var m := FirstAnswer(replies, 0, n);
    FirstAnswerMeaning(replies, 0, n);
    if k :| 0 <= k < n && replies(k).Answered? && forall j :: 0 <= j < k ==> replies(j).Failed? {
      assert m == k;
    }
  }

  /** Which data comes back: that of the first attempt that answers, as it is. */
  lemma DataMeaning(replies: nat -> Reply, n: nat, k: nat)
    requires k < n && replies(k).Answered? && forall j :: 0 <= j < k ==> replies(j).Failed?
    ensures FirstAnswer(replies, 0, n) == k && Data(replies, n) == replies(k).data
  {
    FirstAnswerMeaning(replies, 0, n);
  }

  /** And nothing after total failure. */
  lemma NoData(replies: nat -> Reply, n: nat)
    requires forall j :: 0 <= j < n ==> replies(j).Failed?
    ensures FirstAnswer(replies, 0, n) == n && Data(replies, n) == None
  {
  }

  /** The k-th attempt is the first that answers. */
  predicate IsFirstAnswer(replies: nat -> Reply, n: nat, k: nat) {
    k < n && replies(k).Answered? && forall j :: 0 <= j < k ==> replies(j).Failed?
  }

  lemma DataEverywhere(replies: nat -> Reply, n: nat)
    ensures forall k: nat :: IsFirstAnswer(replies, n, k) ==> Data(replies, n) == replies(k).data
    ensures (forall j :: 0 <= j < n ==> replies(j).Failed?) ==> Data(replies, n) == None
  {
    forall k: nat | IsFirstAnswer(replies, n, k)
      ensures Data(replies, n) == replies(k).data
    {
      DataMeaning(replies, n, k);
    }
    if forall j :: 0 <= j < n ==> replies(j).Failed? {
      NoData(replies, n);
    }
  }

  /** A null answer ends the call: nothing comes back, whatever a later endpoint would have
      answered. */
  lemma NullAnswerEnds(replies: nat -> Reply, n: nat, k: nat)
    requires k < n && replies(k) == Answered(None) && forall j :: 0 <= j < k ==> replies(j).Failed?
    ensures FirstAnswer(replies, 0, n) == k && Data(replies, n) == None
  {
    FirstAnswerMeaning(replies, 0, n);
  }

  class OracleService {
    const endpoints: seq<Endpoint>
    const failover: bool
    var started: bool
    var index: nat
    var health: map<string, Health>
    var lastFeedUpdate: Option<int>

    predicate Valid()
      reads this
    {
      index < |endpoints|
    }

    constructor (primary: string, backups: seq<string>, failover: bool)
      ensures Valid() && |endpoints| == |backups| + 1 && endpoints[0].url == primary
      ensures index == 0 && !started && health == map[] && lastFeedUpdate == None
      ensures this.failover == failover
    {
      var list := InitEndpoints(primary, backups);
      this.endpoints, this.failover := list, failover;
      started, index, health, lastFeedUpdate := false, 0, map[], None;
    }

    /** `replies(k)` and `clock(k)` are the answer to the k-th attempt and its time; `tried`
        lists the endpoints asked. The data is that of the first answer, null or not. */
    method GetOracleData(replies: nat -> Reply, clock: nat -> int) returns (data: Option<string>, ghost tried: seq<nat>)
      requires Valid()
      modifies this`index, this`health, this`lastFeedUpdate
      ensures Valid()
      ensures data == if started then Data(replies, |endpoints|) else None
      ensures started ==> forall k: nat :: IsFirstAnswer(replies, |endpoints|, k) ==> data == replies(k).data
      ensures !started || (forall j :: 0 <= j < |endpoints| ==> replies(j).Failed?) ==> data == None
      ensures !started ==> tried == [] && index == old(index) && health == old(health)
                           && lastFeedUpdate == old(lastFeedUpdate)
      ensures started ==>
        var m := FirstAnswer(replies, 0, |endpoints|);
        var r := AfterFailures(Progress(old(index), old(health), []), endpoints, failover, replies, clock, m);
        && index == r.index && health == r.health
        && tried == (if m < |endpoints| then r.tried + [r.index] else r.tried)
        && lastFeedUpdate == (if m < |endpoints| then Some(clock(m)) else old(lastFeedUpdate))
    {
      if !started {
        return None, [];
      }
      data, tried := TryEndpoints(replies, clock);
      DataEverywhere(replies, |endpoints|);
    }

    /** The loop, under the lock. */
    method TryEndpoints(replies: nat -> Reply, clock: nat -> int) returns (data: Option<string>, ghost tried: seq<nat>)
      requires Valid() && started
      modifies this`index, this`health, this`lastFeedUpdate
      ensures Valid()
      ensures data == Data(replies, |endpoints|)
      ensures
        var m := FirstAnswer(replies, 0, |endpoints|);
        var r := AfterFailures(Progress(old(index), old(health), []), endpoints, failover, replies, clock, m);
        && index == r.index && health == r.health
        && tried == (if m < |endpoints| then r.tried + [r.index] else r.tried)
        && lastFeedUpdate == (if m < |endpoints| then Some(clock(m)) else old(lastFeedUpdate))
    {
      tried := [];
      var attempts := 0;
      ghost var start, m := Progress(index, health, []), FirstAnswer(replies, 0, |endpoints|);
      while attempts < |endpoints|
        invariant 0 <= attempts <= |endpoints| && Valid()
        invariant FirstAnswer(replies, attempts, |endpoints|) == m
        invariant Progress(index, health, tried)
                  == AfterFailures(start, endpoints, failover, replies, clock, attempts)
        invariant lastFeedUpdate == old(lastFeedUpdate)
      {
        var endpoint := endpoints[index];
        tried := tried + [index];
        var reply := replies(attempts);
        if reply.Answered? {
          assert m == attempts;
          lastFeedUpdate := Some(clock(attempts));
          return reply.data, tried;
        }
        health := health[endpoint.url := Unreachable(clock(attempts), reply.error)];
        if failover {
          index := (index + 1) % |endpoints|;
        }
        attempts := attempts + 1;
      }
      data := None;
    }
  }

  lemma PlaceStart(start: nat, n: nat, failover: bool)
    requires start < n
    ensures Place(start, 0, n, failover) == start
  {
    ModSmall(start, n);
  }

  /** A call with failover, up to its first answer, `m`: no endpoint is asked twice; an
      answer comes exactly if one of n attempts would answer, and the index is on the last
      endpoint asked; after total failure every endpoint was asked once and the index is
      back where it began. */
  lemma CallMeaning(p: Progress, endpoints: seq<Endpoint>, replies: nat -> Reply, clock: nat -> int)
    requires p.index < |endpoints| && p.tried == []
    ensures
      var n := |endpoints|;
      var m := FirstAnswer(replies, 0, n);
      var r := AfterFailures(p, endpoints, true, replies, clock, m);
      var asked := if m < n then r.tried + [r.index] else r.tried;
      && (m < n <==> exists k :: 0 <= k < n && replies(k).Answered?)
      && asked == Attempts(p.index, |asked|, n, true)
      && (forall i, j :: 0 <= i < j < |asked| ==> asked[i] != asked[j])
      && (m == n ==> r.index == p.index && |asked| == n && forall q :: 0 <= q < n ==> q in asked)
  {
    var n := |endpoints|;
    var m := FirstAnswer(replies, 0, n);
    FirstAnswerMeaning(replies, 0, n);
    FailuresMeaning(p, endpoints, true, replies, clock, m);
    Rotation(p.index, n);
    AttemptsDistinct(p.index, if m < n then m + 1 else n, n);
  }

  /** Total failure marks every endpoint unreachable, with an error of this call. */
  lemma AllMarked(p: Progress, endpoints: seq<Endpoint>, replies: nat -> Reply, clock: nat -> int, q: nat)
    requires p.index < |endpoints| && q < |endpoints|
    ensures
      var h := AfterFailures(p, endpoints, true, replies, clock, |endpoints|).health;
      && endpoints[q].url in h
      && exists j :: 0 <= j < |endpoints| && h[endpoints[q].url] == Unreachable(clock(j), Reason(replies(j)))
  {
    var n := |endpoints|;
    var urls := Urls(endpoints, p.index, true);
    FailuresMeaning(p, endpoints, true, replies, clock, n);
    Rotation(p.index, n);
    assert urls(AttemptAt(p.index, q, n)) == endpoints[q].url;
    MarkedMeaning(p.health, urls, replies, clock, n, endpoints[q].url);
  }

  /** Without failover only the current endpoint is asked, n times over. */
  lemma NoFailoverCall(p: Progress, endpoints: seq<Endpoint>, replies: nat -> Reply, clock: nat -> int, k: nat)
    requires p.index < |endpoints| && p.tried == []
    ensures
      var r := AfterFailures(p, endpoints, false, replies, clock, k);
      && r.index == p.index && |r.tried| == k
      && (forall i :: 0 <= i < k ==> r.tried[i] == p.index)
      && (forall url :: url != endpoints[p.index].url ==>
            (url in r.health <==> url in p.health) && (url in r.health ==> r.health[url] == p.health[url]))
  {
    FailuresMeaning(p, endpoints, false, replies, clock, k);
    AttemptsAt(p.index, k, |endpoints|, false);
    forall url | url != endpoints[p.index].url
      ensures var h := Marked(p.health, Urls(endpoints, p.index, false), replies, clock, k);
              (url in h <==> url in p.health) && (url in h ==> h[url] == p.health[url])
    {
      MarkedMeaning(p.health, Urls(endpoints, p.index, false), replies, clock, k, url);
    }
  }

  // ----- Runs of calls -----

  /** What the endpoints do during one call. */
  datatype Call = Call(replies: nat -> Reply, clock: nat -> int)

  /** The fields `GetOracleData` leaves behind, call after call. */
  function AfterCalls(p: Progress, endpoints: seq<Endpoint>, failover: bool, calls: seq<Call>): (r: Progress)
    requires p.index < |endpoints|
    ensures r.index < |endpoints|
    decreases |calls|
  {
    if calls == [] then p
    else
      var c := calls[0];
      var m := FirstAnswer(c.replies, 0, |endpoints|);
      AfterCalls(AfterFailures(Progress(p.index, p.health, []), endpoints, failover, c.replies, c.clock, m),
                 endpoints, failover, calls[1..])
  }

  /** The failed attempts of all calls together. */
  function FailedAttempts(n: nat, calls: seq<Call>): nat
    decreases |calls|
  {
    if calls == [] then 0 else FirstAnswer(calls[0].replies, 0, n) + FailedAttempts(n, calls[1..])
  }

  lemma PlaceSum(start: nat, m: nat, k: nat, n: nat, failover: bool)
    requires start < n
    ensures Place(Place(start, m, n, failover), k, n, failover) == Place(start, m + k, n, failover)
  {
    ModSum(start + m, k, n);
  }

  /** The rotation never loses its place: over any run of calls the index has advanced by
      the number of failed attempts; without failover it has stayed. */
  lemma {:induction false} IndexCountsFailures(p: Progress, endpoints: seq<Endpoint>, failover: bool, calls: seq<Call>)
    requires p.index < |endpoints|
    ensures AfterCalls(p, endpoints, failover, calls).index
            == Place(p.index, FailedAttempts(|endpoints|, calls), |endpoints|, failover)
    decreases |calls|
  {
    var n := |endpoints|;
    if calls == [] {
      PlaceStart(p.index, n, failover);
    } else {
      var c := calls[0];
      var start := Progress(p.index, p.health, []);
      var m := FirstAnswer(c.replies, 0, n);
      FailuresMeaning(start, endpoints, failover, c.replies, c.clock, m);
      IndexCountsFailures(AfterFailures(start, endpoints, failover, c.replies, c.clock, m), endpoints, failover,
                          calls[1..]);
      PlaceSum(p.index, m, FailedAttempts(n, calls[1..]), n, failover);
    }
  }
}
