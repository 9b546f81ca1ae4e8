/** The refresh queue of the DNS server: single flight per (domain, server), and the order of one sync call. */
module RefreshTasks {
  import opened Bytes
  import opened Servers
  import opened TaskQueue

  const MAX_PRIORITY := 100

  /** The input of a refresh task: a domain and the address of the server to ask. */
  datatype Refresh = Refresh(domain: string, ip: string, port: int)

  function KeyOf(r: Refresh): string {
    RefreshKey(r.domain, r.ip, r.port)
  }

  /** Tasks are keyed by domain and server id. */
  predicate IsRefresh(task: Task<Refresh>) {
    task.pk == KeyOf(task.input)
  }

  /** Only refresh tasks are ever submitted. */
  ghost predicate OnlyRefreshes(events: seq<Event<Refresh>>) {
    forall i :: 0 <= i < |events| && events[i].Submit? ==> IsRefresh(events[i].task)
  }

  ghost predicate LiveAreRefreshes(s: State<Refresh>) {
    forall id :: id in s.tasks ==> IsRefresh(s.tasks[id])
  }

  lemma StepKeepsRefreshes(c: Config, s: State<Refresh>, e: Event<Refresh>, s': State<Refresh>)
    requires LiveAreRefreshes(s) && Step(c, s, e, s') && (e.Submit? ==> IsRefresh(e.task))
    ensures LiveAreRefreshes(s')
  {
    hide IsTop, CanDispatch, KeyOf;
  }

  lemma {:induction false} RunKeepsRefreshes(c: Config, states: seq<State<Refresh>>, events: seq<Event<Refresh>>,
                                             i: nat)
    requires Run(c, states, events) && OnlyRefreshes(events) && i <= |events|
    ensures LiveAreRefreshes(states[i])
  {
    if i > 0 {
      hide Step, IsRefresh;
      RunKeepsRefreshes(c, states, events, i - 1);
      assert Step(c, states[i - 1], events[i - 1], states[i]);
      StepKeepsRefreshes(c, states[i - 1], events[i - 1], states[i]);
    }
  }

  ghost predicate HasLive(s: State<Refresh>, r: Refresh) {
    exists id :: id in s.tasks && s.tasks[id].input == r
  }

  /** In every reachable state at most one live refresh exists per domain, server address and port. */
  lemma SingleFlight(c: Config, states: seq<State<Refresh>>, events: seq<Event<Refresh>>, i: nat, a: nat, b: nat)
    requires Run(c, states, events) && OnlyRefreshes(events) && i <= |events|
    requires a in states[i].tasks && b in states[i].tasks && states[i].tasks[a].input == states[i].tasks[b].input
    ensures a == b
  {
    hide HeapMatches, RunningIds, RefreshKey;
    RunKeepsInv(c, states, events, i);
    RunKeepsRefreshes(c, states, events, i);
    assert states[i].tasks[a].pk == states[i].tasks[b].pk != "" by {
      KeyNotEmpty(states[i].tasks[a].input);
    }
  }

  lemma KeyNotEmpty(r: Refresh)
    ensures KeyOf(r) != ""
  {
  }

  /** The two refreshes differ at most in what the key does not show. */
  predicate SameKey(a: Refresh, b: Refresh) {
    a.port == b.port && a.domain + "/" + Underscored(a.ip) == b.domain + "/" + Underscored(b.ip)
  }

  /** Whatever the addresses, a refresh is accepted exactly when no live one has the same key. */
  lemma AcceptedIffKeyFree(c: Config, states: seq<State<Refresh>>, events: seq<Event<Refresh>>, i: nat,
                           task: Task<Refresh>)
    requires Run(c, states, events) && OnlyRefreshes(events) && i <= |events| && IsRefresh(task)
    ensures Accepts(states[i], task) <==>
            !exists id :: id in states[i].tasks && SameKey(states[i].tasks[id].input, task.input)
  {
    hide HeapMatches, RunningIds, RefreshKey, SameKey;
    var s := states[i];
    RunKeepsInv(c, states, events, i);
    RunKeepsRefreshes(c, states, events, i);
    KeyNotEmpty(task.input);
    forall id | id in s.tasks
      ensures s.tasks[id].pk == task.pk <==> SameKey(s.tasks[id].input, task.input)
    {
      SameKeyIff(s.tasks[id].input, task.input);
    }
  }

  lemma SameKeyIff(a: Refresh, b: Refresh)
    ensures KeyOf(a) == KeyOf(b) <==> SameKey(a, b)
  {
    hide RefreshKey, Underscored;
    RefreshKeyIff(a.domain, a.ip, a.port, b.domain, b.ip, b.port);
  }

  /** The refresh asks a configured server. */
  ghost predicate Asks(servers: seq<Server>, r: Refresh) {
    exists server :: server in servers && server.ip == r.ip && server.port == r.port
  }

  /** Server ids are distinct, and no address contains a slash. */
  ghost predicate KeysIdentify(servers: seq<Server>) {
    DistinctIds(servers) && forall server :: server in servers ==> '/' !in server.ip
  }

  /** For such servers, refreshes with the same key are the same refresh. */
  lemma KeysTellApart(servers: seq<Server>, a: Refresh, b: Refresh)
    requires KeysIdentify(servers) && Asks(servers, a) && Asks(servers, b)
    ensures SameKey(a, b) <==> a == b
  {
    hide Underscored, ServerId, RefreshKey, DistinctIds;
    var x :| x in servers && x.ip == a.ip && x.port == a.port;
    var y :| y in servers && y.ip == b.ip && y.port == b.port;
    SameKeyIff(a, b);
    SlashFreeKeyIff(a.domain, a.ip, a.port, b.domain, b.ip, b.port);
    if SameKey(a, b) {
      IdsIdentify(servers, x, y);
    }
  }

  ghost predicate LiveAsk(servers: seq<Server>, s: State<Refresh>) {
    forall id :: id in s.tasks ==> Asks(servers, s.tasks[id].input)
  }

  lemma StepKeepsAsking(c: Config, servers: seq<Server>, s: State<Refresh>, e: Event<Refresh>, s': State<Refresh>)
    requires LiveAsk(servers, s) && Step(c, s, e, s') && (e.Submit? ==> Asks(servers, e.task.input))
    ensures LiveAsk(servers, s')
  {
    hide IsTop, CanDispatch, Asks;
  }

  lemma {:induction false} RunKeepsAsking(c: Config, servers: seq<Server>, states: seq<State<Refresh>>,
                                          events: seq<Event<Refresh>>, i: nat)
    requires Run(c, states, events) && i <= |events|
    requires forall k :: 0 <= k < |events| && events[k].Submit? ==> Asks(servers, events[k].task.input)
    ensures LiveAsk(servers, states[i])
  {
    if i > 0 {
      hide Step, Asks;
      RunKeepsAsking(c, servers, states, events, i - 1);
      assert Step(c, states[i - 1], events[i - 1], states[i]);
      StepKeepsAsking(c, servers, states[i - 1], events[i - 1], states[i]);
    }
  }

  /**
   * When all refreshes ask configured servers with distinct ids and no slash in their addresses, one is accepted
   * exactly when none for the same domain, server address and port is live.
   */
  lemma AcceptedIffNotLive(c: Config, servers: seq<Server>, states: seq<State<Refresh>>, events: seq<Event<Refresh>>,
                           i: nat, task: Task<Refresh>)
    requires Run(c, states, events) && OnlyRefreshes(events) && i <= |events| && IsRefresh(task)
    requires KeysIdentify(servers) && Asks(servers, task.input)
    requires forall k :: 0 <= k < |events| && events[k].Submit? ==> Asks(servers, events[k].task.input)
    ensures Accepts(states[i], task) <==> !HasLive(states[i], task.input)
  {
    hide Step, IsRefresh, SameKey, Asks, KeysIdentify, Accepts;
    var s := states[i];
    AcceptedIffKeyFree(c, states, events, i, task);
    RunKeepsAsking(c, servers, states, events, i);
    forall id | id in s.tasks
      ensures SameKey(s.tasks[id].input, task.input) <==> s.tasks[id].input == task.input
    {
      KeysTellApart(servers, s.tasks[id].input, task.input);
    }
  }

  /** A live task stays live until it completes. */
  lemma {:induction false} LeavesByCompletion<I>(c: Config, states: seq<State<I>>, events: seq<Event<I>>, i: nat,
                                                 k: nat, id: nat)
    requires Run(c, states, events) && i <= k <= |events| && id in states[i].tasks
    requires id !in states[k].tasks || states[k].tasks[id].input != states[i].tasks[id].input
    ensures exists m :: i <= m < k && events[m] == Complete(id)
    decreases k
  {
    hide HeapMatches, KeysMatch, RunningIds, Step;
    RunKeepsInv(c, states, events, k - 1);
    assert Step(c, states[k - 1], events[k - 1], states[k]);
    if id in states[k - 1].tasks && states[k - 1].tasks[id].input == states[i].tasks[id].input {
      StepKeepsLive(c, states[k - 1], events[k - 1], states[k], id);
    } else {
      LeavesByCompletion(c, states, events, i, k - 1, id);
    }
  }

  lemma StepKeepsLive<I>(c: Config, s: State<I>, e: Event<I>, s': State<I>, id: nat)
    requires s.tasks.Keys <= s.seen && (forall t :: t in s.tasks ==> s.tasks[t].id == t)
    requires Step(c, s, e, s') && id in s.tasks
    ensures e == Complete(id) || (id in s'.tasks && s'.tasks[id].input == s.tasks[id].input)
  {
    hide IsTop, CanDispatch, Accepts;
  }

  /** A duplicate refresh is accepted again only after the first one has completed. */
  lemma DuplicateNeedsCompletion(c: Config, states: seq<State<Refresh>>, events: seq<Event<Refresh>>, i: nat, k: nat)
    requires Run(c, states, events) && OnlyRefreshes(events) && i < k < |events|
    requires events[i].Submit? && Accepts(states[i], events[i].task)
    requires events[k].Submit? && Accepts(states[k], events[k].task)
    requires events[i].task.input == events[k].task.input
    ensures exists m :: i < m < k && events[m] == Complete(events[i].task.id)
  {
    hide IsRefresh;
    var first := events[i].task;
    assert Step(c, states[i], events[i], states[i + 1]);
    AcceptedIffKeyFree(c, states, events, k, events[k].task);
    LeavesByCompletion(c, states, events, i + 1, k, first.id);
  }

  // ----- One sync call -----

  /** The priority of the `k`-th task of a sync call: a 32-bit number counted down from 100. */
  function SyncPriority(k: nat): nat {
    (MAX_PRIORITY - k) % TWO_TO_THE_32
  }

  function SyncTask(domain: string, server: Server, k: nat, id: nat): (task: Task<Refresh>)
    ensures IsRefresh(task)
  {
    Task(Refresh(domain, server.ip, server.port), SyncPriority(k), id, domain + "/" + IdOf(server), PENDING)
  }

  /** The priorities of one call strictly decrease exactly up to 101 servers. */
  lemma PrioritiesDecreaseIff(n: nat)
    requires n < TWO_TO_THE_32
    ensures (forall i, j :: 0 <= i < j < n ==> SyncPriority(i) > SyncPriority(j)) <==> n <= MAX_PRIORITY + 1
  {
    if n > MAX_PRIORITY + 1 {
      assert SyncPriority(MAX_PRIORITY) < SyncPriority(MAX_PRIORITY + 1);
    }
  }

  /** The servers whose answers a record lacks (`sync_loss_dns_record_from_remote`). */
  function LackedBy(have: set<string>, servers: seq<Server>): seq<Server> {
    if servers == [] then []
    else
      var last := servers[|servers| - 1];
      LackedBy(have, servers[..|servers| - 1]) + if IdOf(last) in have then [] else [last]
  }

  /** The state after one task per server has been submitted, in order. */
  function AfterSync(s: State<Refresh>, domain: string, servers: seq<Server>, firstId: nat): State<Refresh> {
    if servers == [] then s
    else
      var k := |servers| - 1;
      AfterSubmit(AfterSync(s, domain, servers[..k], firstId), SyncTask(domain, servers[k], k, firstId + k))
  }

  /** The servers lacked are those whose ids are not had, in their order. */
  lemma {:induction false} LackedByIs(have: set<string>, servers: seq<Server>, server: Server)
    ensures server in LackedBy(have, servers) <==> server in servers && IdOf(server) !in have
    ensures LackedBy(have, servers + [server]) ==
            LackedBy(have, servers) + if IdOf(server) in have then [] else [server]
  {
    hide ServerId;
    assert (servers + [server])[..|servers|] == servers;
    if servers != [] {
      var front, last := servers[..|servers| - 1], servers[|servers| - 1];
      assert servers == front + [last];
      LackedByIs(have, front, server);
    }
  }

  /** Some live task refreshes the domain at the server. */
  ghost predicate Refreshing(s: State<Refresh>, domain: string, server: Server) {
    exists id :: id in s.tasks && s.tasks[id].pk == domain + "/" + IdOf(server)
  }

  /** Task `id` is the pending refresh of the `k`-th server. */
  predicate RefreshOf(task: Task<Refresh>, domain: string, server: Server, k: nat) {
    task.input == Refresh(domain, server.ip, server.port) && task.pk == domain + "/" + IdOf(server) &&
    task.status == PENDING && (k <= 100 ==> task.priority == 100 - k)
  }

  /** A sync call leaves every live task as it was and adds pending refreshes of its servers, numbered as they come. */
  ghost predicate Extends(s: State<Refresh>, s': State<Refresh>, domain: string, servers: seq<Server>, firstId: nat) {
    (forall id :: id in s.tasks ==> id in s'.tasks && s'.tasks[id] == s.tasks[id]) &&
    (forall id :: id in s'.tasks && id !in s.tasks ==>
       firstId <= id < firstId + |servers| && RefreshOf(s'.tasks[id], domain, servers[id - firstId], id - firstId)) &&
    s'.running == s.running && s'.keys == s.keys &&
    forall id :: id in s'.seen ==> id in s.seen || firstId <= id < firstId + |servers|
  }

  /** After a sync call every one of its servers is being asked about the domain, and nothing else has changed. */
  lemma {:induction false} SyncAsksAll(c: Config, s: State<Refresh>, domain: string, servers: seq<Server>, firstId: nat)
    requires Inv(c, s) && forall id :: id in s.seen ==> id < firstId
    ensures var s' := AfterSync(s, domain, servers, firstId);
            Inv(c, s') && Extends(s, s', domain, servers, firstId) &&
            forall server :: server in servers ==> Refreshing(s', domain, server)
  {
    if servers != [] {
      hide Inv, ServerId, RefreshOf, Refreshing, Accepts, IsRefresh;
      var k := |servers| - 1;
      var front, last := servers[..k], servers[k];
      var before := AfterSync(s, domain, front, firstId);
      SyncAsksAll(c, s, domain, front, firstId);
      var task := SyncTask(domain, last, k, firstId + k);
      SeenBound(c, s);
      SubmitKeepsInv(c, before, task);
      SubmitExtends(s, before, domain, servers, firstId, task);
      forall server | server in servers
        ensures Refreshing(AfterSubmit(before, task), domain, server)
      {
        if server in front {
          SubmitKeepsRefreshing(c, before, task, domain, server);
        } else {
          NowRefreshing(c, before, task, domain, server);
        }
      }
    }
  }

  lemma SeenBound(c: Config, s: State<Refresh>)
    requires Inv(c, s)
    ensures s.tasks.Keys <= s.seen
  {
  }

  lemma SubmitExtends(s: State<Refresh>, before: State<Refresh>, domain: string, servers: seq<Server>, firstId: nat,
                      task: Task<Refresh>)
    requires servers != [] && s.tasks.Keys <= s.seen && forall id :: id in s.seen ==> id < firstId
    requires Extends(s, before, domain, servers[..|servers| - 1], firstId)
    requires task == SyncTask(domain, servers[|servers| - 1], |servers| - 1, firstId + |servers| - 1)
    ensures Extends(s, AfterSubmit(before, task), domain, servers, firstId)
  {
    hide ServerId, Accepts, IsRefresh;
  }

  lemma SubmitKeepsRefreshing(c: Config, s: State<Refresh>, task: Task<Refresh>, domain: string, server: Server)
    requires Refreshing(s, domain, server) && task.id !in s.tasks
    ensures Refreshing(AfterSubmit(s, task), domain, server)
  {
    hide ServerId, Accepts;
    var id :| id in s.tasks && s.tasks[id].pk == domain + "/" + IdOf(server);
    assert id in AfterSubmit(s, task).tasks && AfterSubmit(s, task).tasks[id] == s.tasks[id];
  }

  lemma NowRefreshing(c: Config, s: State<Refresh>, task: Task<Refresh>, domain: string, server: Server)
    requires Inv(c, s) && task.id !in s.tasks && task.pk == domain + "/" + IdOf(server)
    ensures Refreshing(AfterSubmit(s, task), domain, server)
  {
    hide ServerId, HeapMatches, RunningIds;
    if Accepts(s, task) {
      assert AfterSubmit(s, task).tasks[task.id].pk == task.pk;
    } else {
      var id :| id in s.tasks && s.tasks[id].pk == task.pk;
      assert AfterSubmit(s, task).tasks[id].pk == task.pk;
    }
  }

  /** `sync_dns_record_from_remote`: one task per selected server, with decreasing priority and fresh ids. */
  method SyncFromRemote(queue: Queue<Refresh>, matches: (string, string) -> bool, domain: string, servers: seq<Server>,
                        firstId: nat)
    returns (nextId: nat)
    requires queue.Valid() && forall id :: id in queue.seen ==> id < firstId
    modifies queue
    ensures queue.Valid() && nextId == firstId + |Selected(matches, domain, servers)|
    ensures queue.Abs() == AfterSync(old(queue.Abs()), domain, Selected(matches, domain, servers), firstId)
  {
    var chosen := SelectServers(matches, domain, servers);
    if |chosen| == 0 {
      return firstId;
    }
    nextId := SubmitAll(queue, domain, chosen, firstId);
  }

  /** `sync_loss_dns_record_from_remote`: the same for the selected servers the record has no answer from. */
  method SyncLossFromRemote(queue: Queue<Refresh>, matches: (string, string) -> bool, domain: string,
                            servers: seq<Server>, have: set<string>, firstId: nat)
    returns (nextId: nat)
    requires queue.Valid() && forall id :: id in queue.seen ==> id < firstId
    modifies queue
    ensures queue.Valid()
    ensures var lacking := LackedBy(have, Selected(matches, domain, servers));
            queue.Abs() == AfterSync(old(queue.Abs()), domain, lacking, firstId)
  {
    var chosen := SelectServers(matches, domain, servers);
    var lacking := [];
    for i := 0 to |chosen|
      invariant lacking == LackedBy(have, chosen[..i])
    {
      assert chosen[..i + 1][..i] == chosen[..i];
      if IdOf(chosen[i]) !in have {
        lacking := lacking + [chosen[i]];
      }
    }
    assert chosen[..|chosen|] == chosen;
    nextId := SubmitAll(queue, domain, lacking, firstId);
  }

  lemma PriorityStart()
    ensures SyncPriority(0) == MAX_PRIORITY
  {
  }

  lemma PriorityStep(k: nat)
    ensures (SyncPriority(k) - 1) % TWO_TO_THE_32 == SyncPriority(k + 1)
  {
    var q := (MAX_PRIORITY - k) / TWO_TO_THE_32;
    assert MAX_PRIORITY - k == q * TWO_TO_THE_32 + SyncPriority(k);
  }

  method SubmitAll(queue: Queue<Refresh>, domain: string, chosen: seq<Server>, firstId: nat) returns (nextId: nat)
    requires queue.Valid() && forall id :: id in queue.seen ==> id < firstId
    modifies queue
    ensures queue.Valid() && nextId == firstId + |chosen|
    ensures queue.Abs() == AfterSync(old(queue.Abs()), domain, chosen, firstId)
  {
    hide Inv, RefreshKey, Step, ServerId, SyncPriority, IsRefresh, Accepts;
    PriorityStart();
    var priority := MAX_PRIORITY;
    nextId := firstId;
    for k := 0 to |chosen|
      invariant queue.Valid() && nextId == firstId + k && priority == SyncPriority(k)
      invariant forall id :: id in queue.seen ==> id < nextId
      invariant queue.Abs() == AfterSync(old(queue.Abs()), domain, chosen[..k], firstId)
    {
      assert chosen[..k + 1][..k] == chosen[..k];
      var server := chosen[k];
      var task := Task(Refresh(domain, server.ip, server.port), priority, nextId, domain + "/" + IdOf(server), PENDING);
      assert task == SyncTask(domain, server, k, firstId + k);
      var accepted := queue.Submit(task);
      PriorityStep(k);
      priority := (priority - 1) % TWO_TO_THE_32;
      nextId := nextId + 1;
    }
    assert chosen[..|chosen|] == chosen;
  }

  /**
   * For up to 101 servers the accepted tasks of one sync call are dispatched in the order of the servers, whatever
   * other steps come between its submissions and after them: a task is dispatched only after every accepted task of
   * an earlier server.
   */
  lemma SyncOrder(c: Config, states: seq<State<Refresh>>, events: seq<Event<Refresh>>, domain: string,
                  servers: seq<Server>, at: seq<nat>, ids: seq<nat>, k: nat, l: nat, when: nat)
    requires Run(c, states, events) && |servers| == |at| == |ids| <= MAX_PRIORITY + 1
    requires forall i :: 0 <= i < |at| ==>
               at[i] < |events| && events[at[i]] == Submit(SyncTask(domain, servers[i], i, ids[i]))
    requires forall i, j :: 0 <= i < j < |at| ==> at[i] < at[j]
    requires k < l < |servers| && Accepts(states[at[k]], SyncTask(domain, servers[k], k, ids[k]))
    requires at[l] < when < |events| && events[when] == Dispatch(Some(Entry(ids[l], SyncPriority(l))))
    ensures exists m :: at[k] < m < when && events[m] == Dispatch(Some(Entry(ids[k], SyncPriority(k))))
  {
    hide RefreshKey, Step, ServerId;
    HigherGoesFirst(c, states, events, at[k], when, SyncTask(domain, servers[k], k, ids[k]),
                    SyncTask(domain, servers[l], l, ids[l]));
  }
}
