/** `st::task::queue`: a priority queue with single-flight keys, a running cap and a token bucket. */
module TaskQueue {
  import opened Bytes

  datatype Status = PENDING | RUNNING

  datatype Task<I> = Task(input: I, priority: nat, id: nat, pk: string, status: Status)

  /** What the heap orders: a task id with its priority. */
  datatype Entry = Entry(id: nat, priority: nat)

  /** `keys` counts thousandths of a token. `seen` holds the ids of all tasks ever accepted. */
  datatype State<I> = State(tasks: map<nat, Task<I>>, heap: multiset<Entry>, pks: set<string>, running: int,
                            keys: int, seen: set<nat>)

  datatype Config = Config(maxQps: nat, maxRunning: nat)

  /** One atomic handler; `Dispatch` carries the heap entry it took, if it took one. */
  datatype Event<I> = Submit(task: Task<I>) | Refill | Dispatch(taken: Option<Entry>) | Complete(id: nat)

  const TOKEN := 1000
  const TICK_MILLIS := 50

  function Initial<I>(): State<I> {
    State(map[], multiset{}, {}, 0, 0, {})
  }

  function Min(a: int, b: int): int {
    if a < b then a else b
  }

  // ----- The steps -----

  predicate Accepts<I>(s: State<I>, task: Task<I>) {
    task.pk == "" || task.pk !in s.pks
  }

  function AfterSubmit<I>(s: State<I>, task: Task<I>): State<I> {
    if Accepts(s, task) then
      s.(tasks := s.tasks[task.id := task],
         heap := s.heap + multiset{Entry(task.id, task.priority)},
         pks := if task.pk == "" then s.pks else s.pks + {task.pk},
         seen := s.seen + {task.id})
    else s
  }

  function AfterRefill<I>(c: Config, s: State<I>): State<I> {
    s.(keys := Min(c.maxQps * TOKEN, s.keys + c.maxQps * TICK_MILLIS))
  }

  predicate CanDispatch<I>(c: Config, s: State<I>) {
    s.keys >= TOKEN && s.heap != multiset{} && s.running < c.maxRunning
  }

  predicate IsTop(heap: multiset<Entry>, top: Entry) {
    top in heap && forall e :: e in heap ==> e.priority <= top.priority
  }

  function AfterDispatch<I>(s: State<I>, top: Entry): State<I>
    requires top.id in s.tasks
  {
    s.(tasks := s.tasks[top.id := s.tasks[top.id].(status := RUNNING)], heap := s.heap - multiset{top},
       keys := s.keys - TOKEN, running := s.running + 1)
  }

  function AfterComplete<I>(s: State<I>, task: Task<I>): State<I> {
    s.(tasks := s.tasks - {task.id}, pks := s.pks - {task.pk}, running := s.running - 1)
  }

  /**
   * The step relation. The environment creates every task with a fresh id and completes only running tasks; the
   * heap hands out some entry of highest priority.
   */
  predicate Step<I(==)>(c: Config, s: State<I>, e: Event<I>, s': State<I>) {
    match e
    case Submit(task) => task.id !in s.seen && task.status == PENDING && s' == AfterSubmit(s, task)
    case Refill => s' == AfterRefill(c, s)
    case Dispatch(None) => !CanDispatch(c, s) && s' == s
    case Dispatch(Some(top)) =>
      CanDispatch(c, s) && IsTop(s.heap, top) && top.id in s.tasks && s' == AfterDispatch(s, top)
    case Complete(id) => id in s.tasks && s.tasks[id].status == RUNNING && s' == AfterComplete(s, s.tasks[id])
  }

  ghost predicate Steps<I>(c: Config, states: seq<State<I>>, events: seq<Event<I>>) {
    |states| == |events| + 1 && forall i :: 0 <= i < |events| ==> Step(c, states[i], events[i], states[i + 1])
  }

  /** A run of the queue from its creation. */
  ghost predicate Run<I>(c: Config, states: seq<State<I>>, events: seq<Event<I>>) {
    Steps(c, states, events) && states[0] == Initial()
  }

  // ----- The invariant -----

  function RunningIds<I>(s: State<I>): set<nat> {
    set id | id in s.tasks && s.tasks[id].status == RUNNING
  }

  function PendingIds<I>(s: State<I>): set<nat> {
    set id | id in s.tasks && s.tasks[id].status == PENDING
  }

  /** The heap holds exactly the pending tasks, once each. */
  predicate HeapMatches<I>(s: State<I>) {
    (forall e :: e in s.heap ==> s.heap[e] == 1 && e.id in s.tasks && s.tasks[e.id].status == PENDING &&
                                 s.tasks[e.id].priority == e.priority) &&
    forall id :: id in s.tasks && s.tasks[id].status == PENDING ==> Entry(id, s.tasks[id].priority) in s.heap
  }

  /** The single-flight keys are exactly the non-empty keys of live tasks, and no two live tasks share one. */
  ghost predicate KeysMatch<I>(s: State<I>) {
    (forall k :: k in s.pks ==> k != "" && exists id :: id in s.tasks && s.tasks[id].pk == k) &&
    (forall id :: id in s.tasks && s.tasks[id].pk != "" ==> s.tasks[id].pk in s.pks) &&
    forall a, b :: a in s.tasks && b in s.tasks && a != b ==> s.tasks[a].pk != s.tasks[b].pk || s.tasks[a].pk == ""
  }

  ghost predicate Inv<I>(c: Config, s: State<I>) {
    HeapMatches(s) && KeysMatch(s) && s.tasks.Keys <= s.seen &&
    (forall id :: id in s.tasks ==> s.tasks[id].id == id) &&
    s.running == |RunningIds(s)| <= c.maxRunning && 0 <= s.keys <= c.maxQps * TOKEN
  }

  lemma InitialInv<I>(c: Config)
    ensures Inv(c, Initial<I>())
  {
    assert RunningIds(Initial<I>()) == {};
  }

  lemma SubmitKeepsInv<I>(c: Config, s: State<I>, task: Task<I>)
    requires Inv(c, s) && task.id !in s.seen && task.status == PENDING
    ensures Inv(c, AfterSubmit(s, task))
  {
    hide KeysMatch, HeapMatches;
    if Accepts(s, task) {
      assert RunningIds(AfterSubmit(s, task)) == RunningIds(s);
      SubmitKeepsHeap(s, task);
      SubmitKeepsKeys(s, task);
    }
  }

  lemma SubmitKeepsHeap<I>(s: State<I>, task: Task<I>)
    requires HeapMatches(s) && task.id !in s.tasks && task.status == PENDING
    ensures HeapMatches(AfterSubmit(s, task))
  {
    assert forall e :: e in s.heap ==> e.id != task.id;
  }

  lemma SubmitKeepsKeys<I>(s: State<I>, task: Task<I>)
    requires KeysMatch(s) && task.id !in s.tasks && Accepts(s, task)
    ensures KeysMatch(AfterSubmit(s, task))
  {
    var s' := AfterSubmit(s, task);
    forall k | k in s'.pks
      ensures k != "" && exists id :: id in s'.tasks && s'.tasks[id].pk == k
    {
      if k in s.pks {
        var id :| id in s.tasks && s.tasks[id].pk == k;
        assert id in s'.tasks && s'.tasks[id].pk == k;
      } else {
        assert task.id in s'.tasks && s'.tasks[task.id].pk == k;
      }
    }
  }

  /** The lookup of the dispatched task succeeds, and the invariant survives the dispatch. */
  lemma DispatchKeepsInv<I>(c: Config, s: State<I>, top: Entry)
    requires Inv(c, s) && CanDispatch(c, s) && IsTop(s.heap, top)
    ensures top.id in s.tasks && Inv(c, AfterDispatch(s, top))
  {
    hide KeysMatch;
    DispatchKeepsHeap(s, top);
    DispatchAddsRunning(s, top);
    DispatchKeepsKeys(s, top);
  }

  lemma DispatchAddsRunning<I>(s: State<I>, top: Entry)
    requires top.id in s.tasks && s.tasks[top.id].status == PENDING
    ensures |RunningIds(AfterDispatch(s, top))| == |RunningIds(s)| + 1
  {
    assert RunningIds(AfterDispatch(s, top)) == RunningIds(s) + {top.id};
  }

  /** Taking a top entry is a step of the queue. */
  lemma DispatchIsStep<I>(c: Config, s: State<I>, top: Entry)
    requires Inv(c, s) && CanDispatch(c, s) && IsTop(s.heap, top)
    ensures top.id in s.tasks && s.tasks[top.id].id == top.id && s.tasks[top.id].priority == top.priority
    ensures Step(c, s, Dispatch(Some(top)), AfterDispatch(s, top)) && Inv(c, AfterDispatch(s, top))
  {
    hide KeysMatch, RunningIds;
    DispatchKeepsInv(c, s, top);
  }

  lemma DispatchKeepsHeap<I>(s: State<I>, top: Entry)
    requires HeapMatches(s) && top in s.heap
    ensures HeapMatches(AfterDispatch(s, top))
  {
    var s' := AfterDispatch(s, top);
    assert s.heap[top] == 1;
    forall e | e in s'.heap
      ensures e in s.heap && e.id != top.id
    {
      assert e in s.heap && e != top;
    }
  }

  lemma DispatchKeepsKeys<I>(s: State<I>, top: Entry)
    requires KeysMatch(s) && top.id in s.tasks
    ensures KeysMatch(AfterDispatch(s, top))
  {
    var s' := AfterDispatch(s, top);
    forall k | k in s'.pks
      ensures k != "" && exists id :: id in s'.tasks && s'.tasks[id].pk == k
    {
      var id :| id in s.tasks && s.tasks[id].pk == k;
      assert id in s'.tasks && s'.tasks[id].pk == k;
    }
  }

  lemma CompleteKeepsInv<I>(c: Config, s: State<I>, id: nat)
    requires Inv(c, s) && id in s.tasks && s.tasks[id].status == RUNNING
    ensures Inv(c, AfterComplete(s, s.tasks[id]))
  {
    var s' := AfterComplete(s, s.tasks[id]);
    assert RunningIds(s') == RunningIds(s) - {id};
    CompleteKeepsKeys(s, id);
  }

  lemma CompleteKeepsKeys<I>(s: State<I>, id: nat)
    requires KeysMatch(s) && id in s.tasks && s.tasks[id].id == id
    ensures KeysMatch(AfterComplete(s, s.tasks[id]))
  {
    var s' := AfterComplete(s, s.tasks[id]);
    forall k | k in s'.pks
      ensures k != "" && exists other :: other in s'.tasks && s'.tasks[other].pk == k
    {
      var other :| other in s.tasks && s.tasks[other].pk == k;
      assert other in s'.tasks && s'.tasks[other].pk == k;
    }
  }

  /** Every step keeps the invariant. */
  lemma StepKeepsInv<I>(c: Config, s: State<I>, e: Event<I>, s': State<I>)
    requires Inv(c, s) && Step(c, s, e, s')
    ensures Inv(c, s')
  {
    match e
    case Submit(task) => SubmitKeepsInv(c, s, task);
    case Refill =>
      assert RunningIds(s') == RunningIds(s);
    case Dispatch(None) =>
    case Dispatch(Some(top)) => DispatchKeepsInv(c, s, top);
    case Complete(id) => CompleteKeepsInv(c, s, id);
  }

  /** In every reachable state the invariant holds. */
  lemma {:induction false} RunKeepsInv<I>(c: Config, states: seq<State<I>>, events: seq<Event<I>>, i: nat)
    requires Run(c, states, events) && i < |states|
    ensures Inv(c, states[i])
  {
    if i == 0 {
      InitialInv<I>(c);
    } else {
      RunKeepsInv(c, states, events, i - 1);
      StepKeepsInv(c, states[i - 1], events[i - 1], states[i]);
    }
  }

  // ----- Conservation over runs -----

  predicate IsDispatch<I>(e: Event<I>) {
    e.Dispatch? && e.taken.Some?
  }

  /** Tasks accepted, dispatched and completed, and refill ticks, among the first `n` events. */
  function Accepted<I>(states: seq<State<I>>, events: seq<Event<I>>, n: nat): nat
    requires n <= |events| < |states|
  {
    if n == 0 then 0
    else Accepted(states, events, n - 1) +
         if events[n - 1].Submit? && Accepts(states[n - 1], events[n - 1].task) then 1 else 0
  }

  function Dispatched<I>(events: seq<Event<I>>, n: nat): nat
    requires n <= |events|
  {
    if n == 0 then 0 else Dispatched(events, n - 1) + if IsDispatch(events[n - 1]) then 1 else 0
  }

  function Completed<I>(events: seq<Event<I>>, n: nat): nat
    requires n <= |events|
  {
    if n == 0 then 0 else Completed(events, n - 1) + if events[n - 1].Complete? then 1 else 0
  }

  function Ticks<I>(events: seq<Event<I>>, n: nat): nat
    requires n <= |events|
  {
    if n == 0 then 0 else Ticks(events, n - 1) + if events[n - 1].Refill? then 1 else 0
  }

  lemma LiveTasks<I>(s: State<I>)
    ensures |s.tasks| == |PendingIds(s)| + |RunningIds(s)|
  {
    assert s.tasks.Keys == PendingIds(s) + RunningIds(s);
    assert |s.tasks.Keys| == |s.tasks|;
  }

  /** Over any run every accepted task is pending, running or completed, and none is counted twice. */
  lemma {:induction false} TasksAreConserved<I>(c: Config, states: seq<State<I>>, events: seq<Event<I>>, n: nat)
    requires Run(c, states, events) && n <= |events|
    ensures Accepted(states, events, n) ==
            |PendingIds(states[n])| + |RunningIds(states[n])| + Completed(events, n)
    ensures |RunningIds(states[n])| + Completed(events, n) == Dispatched(events, n)
  {
    hide KeysMatch, HeapMatches, Step, RunningIds, PendingIds, Accepts;
    LiveTasks(states[n]);
    RunKeepsInv(c, states, events, n);
    if n == 0 {
      NoTasks<I>();
    } else {
      TasksAreConserved(c, states, events, n - 1);
      LiveTasks(states[n - 1]);
      RunKeepsInv(c, states, events, n - 1);
      StepCount(c, states[n - 1], events[n - 1], states[n]);
      StepRunning(c, states[n - 1], events[n - 1], states[n]);
    }
  }

  lemma NoTasks<I>()
    ensures PendingIds(Initial<I>()) == {} && RunningIds(Initial<I>()) == {}
  {
  }

  /** What one step does to the number of live tasks. */
  lemma StepCount<I>(c: Config, s: State<I>, e: Event<I>, s': State<I>)
    requires s.tasks.Keys <= s.seen && Step(c, s, e, s')
    requires forall id :: id in s.tasks ==> s.tasks[id].id == id
    ensures |s'.tasks| == |s.tasks| + (if e.Submit? && Accepts(s, e.task) then 1 else 0)
                                    - (if e.Complete? then 1 else 0)
  {
    hide IsTop, CanDispatch, Accepts;
    SameSize(s.tasks);
    SameSize(s'.tasks);
    match e
    case Submit(task) =>
      if Accepts(s, task) {
        assert s'.tasks.Keys == s.tasks.Keys + {task.id};
      }
    case Refill =>
    case Dispatch(None) =>
    case Dispatch(Some(top)) =>
      assert s'.tasks.Keys == s.tasks.Keys;
    case Complete(id) =>
      assert s'.tasks.Keys == s.tasks.Keys - {id};
  }

  lemma SameSize<K, V>(m: map<K, V>)
    ensures |m| == |m.Keys|
  {
  }

  /** What one step does to the number of running tasks. */
  lemma StepRunning<I>(c: Config, s: State<I>, e: Event<I>, s': State<I>)
    requires Step(c, s, e, s')
    ensures s'.running == s.running + (if IsDispatch(e) then 1 else 0) - (if e.Complete? then 1 else 0)
  {
    hide IsTop, CanDispatch;
  }

  /** The id was accepted and is not pending. */
  predicate Gone<I>(s: State<I>, id: nat) {
    id in s.seen && (id in s.tasks ==> s.tasks[id].status == RUNNING)
  }

  lemma StepKeepsGone<I>(c: Config, s: State<I>, e: Event<I>, s': State<I>, id: nat)
    requires s.tasks.Keys <= s.seen && Step(c, s, e, s')
    requires Gone(s, id) || (IsDispatch(e) && e.taken.value.id == id)
    ensures Gone(s', id)
  {
    hide IsTop, CanDispatch, Accepts;
  }

  /** An id that has been dispatched is never pending again. */
  lemma {:induction false} NeverPendingAgain<I>(c: Config, states: seq<State<I>>, events: seq<Event<I>>, i: nat, j: nat,
                                                id: nat)
    requires Run(c, states, events) && i < j <= |events|
    requires IsDispatch(events[i]) && events[i].taken.value.id == id
    ensures Gone(states[j], id)
    decreases j
  {
    hide KeysMatch, HeapMatches, RunningIds, Step, Gone;
    RunKeepsInv(c, states, events, j - 1);
    assert Step(c, states[j - 1], events[j - 1], states[j]);
    if i + 1 < j {
      NeverPendingAgain(c, states, events, i, j - 1, id);
    }
    StepKeepsGone(c, states[j - 1], events[j - 1], states[j], id);
  }

  /** Each accepted task is dispatched at most once. */
  lemma DispatchedAtMostOnce<I>(c: Config, states: seq<State<I>>, events: seq<Event<I>>, i: nat, j: nat)
    requires Run(c, states, events) && i < j < |events| && IsDispatch(events[i]) && IsDispatch(events[j])
    ensures events[i].taken.value.id != events[j].taken.value.id
  {
    var id := events[i].taken.value.id;
    NeverPendingAgain(c, states, events, i, j, id);
    RunKeepsInv(c, states, events, j);
    assert Step(c, states[j], events[j], states[j + 1]);
  }

  // ----- The token bucket -----

  /** The tokens left and spent over a window never exceed those it started with and those refilled. */
  lemma {:induction false} TokensAreConserved<I>(c: Config, states: seq<State<I>>, events: seq<Event<I>>, n: nat)
    requires Steps(c, states, events) && n <= |events|
    ensures states[n].keys + TOKEN * Dispatched(events, n) <= states[0].keys + c.maxQps * TICK_MILLIS * Ticks(events, n)
  {
    if n > 0 {
      hide Step;
      TokensAreConserved(c, states, events, n - 1);
      StepTokens(c, states[n - 1], events[n - 1], states[n]);
      OneMore(c.maxQps * TICK_MILLIS, Ticks(events, n - 1));
    }
  }

  lemma OneMore(unit: nat, k: nat)
    ensures unit * (k + 1) == unit * k + unit
  {
  }

  /** What one step does to the tokens. */
  lemma StepTokens<I>(c: Config, s: State<I>, e: Event<I>, s': State<I>)
    requires Step(c, s, e, s')
    ensures s'.keys <= s.keys + (if e.Refill? then c.maxQps * TICK_MILLIS else 0) - (if IsDispatch(e) then TOKEN else 0)
  {
    hide IsTop, CanDispatch;
  }

  /**
   * In any window of any run, twenty dispatches cost twenty tokens: with `k` refill ticks there are at most the
   * tokens at its start plus k * qps / 20 dispatches, hence at most qps * (1 + k / 20).
   */
  lemma RateLimit<I>(c: Config, states: seq<State<I>>, events: seq<Event<I>>, from: nat, to: nat)
    requires Run(c, states, events) && from <= to <= |events|
    ensures var window := events[from..to];
            var d, k := Dispatched(window, |window|), Ticks(window, |window|);
            TOKEN * d <= states[from].keys + c.maxQps * TICK_MILLIS * k && 20 * d <= c.maxQps * (20 + k)
  {
    hide Step, HeapMatches, KeysMatch, RunningIds, Dispatched, Ticks;
    var window, part := events[from..to], states[from..to + 1];
    forall i | 0 <= i < |window|
      ensures Step(c, part[i], window[i], part[i + 1])
    {
      assert Step(c, states[from + i], events[from + i], states[from + i + 1]);
    }
    TokensAreConserved(c, part, window, |window|);
    RunKeepsInv(c, states, events, from);
    RunKeepsInv(c, states, events, to);
    RateArithmetic(c.maxQps, states[from].keys, Dispatched(window, |window|), Ticks(window, |window|));
  }

  lemma RateArithmetic(qps: nat, start: nat, d: nat, k: nat)
    requires TOKEN * d <= start + qps * TICK_MILLIS * k && start <= qps * TOKEN
    ensures 20 * d <= qps * (20 + k)
  {
    var product := qps * k;
    assert qps * TICK_MILLIS * k == TICK_MILLIS * product;
    assert qps * (20 + k) == 20 * qps + product;
  }

  /** What one step does to a bucket, exactly. */
  lemma StepTokensExact<I>(c: Config, s: State<I>, e: Event<I>, s': State<I>)
    requires Step(c, s, e, s')
    ensures s'.keys == if e.Refill? then Min(1000 * c.maxQps, s.keys + 50 * c.maxQps)
                       else if IsDispatch(e) then s.keys - 1000 else s.keys
  {
    hide IsTop, CanDispatch;
  }

  /** The tokens that `ticks` refills bring into a bucket that is not full. */
  function Refilled(qps: nat, ticks: nat): nat {
    50 * qps * ticks
  }

  lemma RefilledNext(qps: nat, ticks: nat)
    ensures Refilled(qps, ticks + 1) == Refilled(qps, ticks) + 50 * qps && Refilled(qps, 0) == 0
  {
  }

  lemma CountsNext<I>(events: seq<Event<I>>, n: nat)
    requires 0 < n <= |events|
    ensures Ticks(events, n) == Ticks(events, n - 1) + (if events[n - 1].Refill? then 1 else 0)
    ensures Dispatched(events, n) == Dispatched(events, n - 1) + (if IsDispatch(events[n - 1]) then 1 else 0)
  {
  }

  /** While the bucket is not full, each tick adds exactly qps / 20 tokens and each dispatch takes exactly one. */
  lemma {:induction false} TokensExact<I>(c: Config, states: seq<State<I>>, events: seq<Event<I>>, n: nat)
    requires Steps(c, states, events) && n <= |events|
    requires forall i :: 1 <= i <= n ==> states[i].keys < 1000 * c.maxQps
    ensures states[n].keys == states[0].keys + Refilled(c.maxQps, Ticks(events, n)) - 1000 * Dispatched(events, n)
  {
    if n == 0 {
      RefilledNext(c.maxQps, 0);
    } else {
      hide Step, Ticks, Dispatched, Refilled, IsDispatch;
      TokensExact(c, states, events, n - 1);
      StepTokensExact(c, states[n - 1], events[n - 1], states[n]);
      assert states[n].keys < 1000 * c.maxQps;
      RefilledNext(c.maxQps, Ticks(events, n - 1));
      CountsNext(events, n);
      assert events[n - 1].Refill? ==> !IsDispatch(events[n - 1]) by {
        RefillIsNoDispatch(events[n - 1]);
      }
    }
  }

  lemma RefillIsNoDispatch<I>(e: Event<I>)
    ensures e.Refill? ==> !IsDispatch(e)
  {
  }

  lemma FillStart(c: Config, keys: int)
    requires keys <= 1000 * c.maxQps
    ensures keys == Min(1000 * c.maxQps, keys + Refilled(c.maxQps, 0))
  {
  }

  lemma FillStep<I>(c: Config, s: State<I>, e: Event<I>, s': State<I>, start: int, ticks: nat)
    requires Step(c, s, e, s') && !IsDispatch(e)
    requires s.keys == Min(1000 * c.maxQps, start + Refilled(c.maxQps, ticks))
    ensures s'.keys == Min(1000 * c.maxQps, start + Refilled(c.maxQps, ticks + if e.Refill? then 1 else 0))
  {
    StepTokensExact(c, s, e, s');
    hide Step, Refilled;
    RefilledNext(c.maxQps, ticks);
  }

  /** Without dispatches the bucket fills by qps / 20 a tick up to its cap of qps. */
  lemma {:induction false} TokensFill<I>(c: Config, states: seq<State<I>>, events: seq<Event<I>>, n: nat)
    requires Steps(c, states, events) && n <= |events| && states[0].keys <= 1000 * c.maxQps
    requires Dispatched(events, n) == 0
    ensures states[n].keys == Min(1000 * c.maxQps, states[0].keys + Refilled(c.maxQps, Ticks(events, n)))
  {
    hide Step, Refilled, IsDispatch, Min;
    if n == 0 {
      FillStart(c, states[0].keys);
    } else {
      hide Ticks, Dispatched;
      CountsNext(events, n);
      TokensFill(c, states, events, n - 1);
      FillStep(c, states[n - 1], events[n - 1], states[n], states[0].keys, Ticks(events, n - 1));
    }
  }

  /** A dispatch takes a task exactly when a whole token, a pending task and a free slot are there. */
  lemma DispatchTakesIff<I>(c: Config, s: State<I>, e: Event<I>, s': State<I>)
    requires Inv(c, s) && Step(c, s, e, s') && e.Dispatch?
    ensures IsDispatch(e) <==> s.keys >= 1000 && PendingIds(s) != {} && |RunningIds(s)| < c.maxRunning
  {
    hide KeysMatch;
    HeapEmptyIff(s);
  }

  lemma HeapEmptyIff<I>(s: State<I>)
    requires HeapMatches(s)
    ensures s.heap == multiset{} <==> PendingIds(s) == {}
  {
    if s.heap != multiset{} {
      var entry :| entry in s.heap;
      assert entry.id in PendingIds(s);
    }
    assert forall id :: id in PendingIds(s) ==> Entry(id, s.tasks[id].priority) in s.heap;
  }

  /**
   * Progress: whatever the tokens were, twenty ticks without a dispatch are enough for the next dispatch to take a
   * task, if one is pending and a slot is free.
   */
  lemma DispatchedAfterOneSecond<I>(c: Config, states: seq<State<I>>, events: seq<Event<I>>, from: nat, at: nat)
    requires Run(c, states, events) && from <= at < |events| && c.maxQps >= 1 && events[at].Dispatch?
    requires var window := events[from..at]; Ticks(window, |window|) >= 20 && Dispatched(window, |window|) == 0
    requires PendingIds(states[at]) != {} && |RunningIds(states[at])| < c.maxRunning
    ensures IsDispatch(events[at])
  {
    hide Step, HeapMatches, KeysMatch, RunningIds, PendingIds, Dispatched, Ticks, IsDispatch, Refilled;
    var window, part := events[from..at], states[from..at + 1];
    forall i | 0 <= i < |window|
      ensures Step(c, part[i], window[i], part[i + 1])
    {
      assert Step(c, states[from + i], events[from + i], states[from + i + 1]);
    }
    RunKeepsInv(c, states, events, from);
    RunKeepsInv(c, states, events, at);
    TokensFill(c, part, window, |window|);
    FullBucket(c.maxQps, states[from].keys, Ticks(window, |window|));
    assert Step(c, states[at], events[at], states[at + 1]);
    DispatchTakesIff(c, states[at], events[at], states[at + 1]);
  }

  lemma FullBucket(qps: nat, start: nat, ticks: nat)
    requires qps >= 1 && ticks >= 20
    ensures Min(1000 * qps, start + Refilled(qps, ticks)) >= 1000
  {
    assert 50 * qps * ticks == 50 * (qps * ticks);
    assert qps * ticks >= 1 * ticks;
  }

  /** A task is accepted exactly when it has no key or no live task has its key. */
  lemma AcceptedIff<I>(c: Config, s: State<I>, task: Task<I>)
    requires Inv(c, s)
    ensures Accepts(s, task) <==> task.pk == "" || forall id :: id in s.tasks ==> s.tasks[id].pk != task.pk
  {
    hide HeapMatches, RunningIds;
    if task.pk in s.pks {
      var id :| id in s.tasks && s.tasks[id].pk == task.pk;
    }
  }

  /** An accepted task is pending as submitted; a refused one leaves everything as it was. */
  lemma SubmittedIsPending<I>(c: Config, s: State<I>, task: Task<I>, s': State<I>)
    requires Inv(c, s) && Step(c, s, Event.Submit(task), s')
    ensures if Accepts(s, task) then s'.tasks == s.tasks[task.id := task] && PendingIds(s') == PendingIds(s) + {task.id}
            else s' == s
  {
    hide HeapMatches, KeysMatch, RunningIds;
  }

  // ----- Priorities -----

  /** A task is never dispatched while a pending one has higher priority. */
  lemma DispatchesHighest<I>(c: Config, s: State<I>, e: Event<I>, s': State<I>, id: nat)
    requires Inv(c, s) && Step(c, s, e, s') && IsDispatch(e)
    requires id in s.tasks && s.tasks[id].status == PENDING
    ensures s.tasks[id].priority <= s.tasks[e.taken.value.id].priority
    ensures s.tasks[e.taken.value.id].status == PENDING
  {
    assert Entry(id, s.tasks[id].priority) in s.heap;
  }

  /** A heap entry stays until it is dispatched. */
  lemma {:induction false} EntryLeavesByDispatch<I>(c: Config, states: seq<State<I>>, events: seq<Event<I>>, i: nat,
                                                    k: nat, entry: Entry)
    requires Steps(c, states, events) && i <= k <= |events|
    requires entry in states[i].heap && entry !in states[k].heap
    ensures exists m :: i <= m < k && events[m] == Dispatch(Some(entry))
    decreases k
  {
    assert Step(c, states[k - 1], events[k - 1], states[k]);
    if entry in states[k - 1].heap {
      assert events[k - 1] == Dispatch(Some(entry));
    } else {
      EntryLeavesByDispatch(c, states, events, i, k - 1, entry);
    }
  }

  /**
   * Of two accepted tasks the one accepted first and of higher priority is dispatched first, whatever else is
   * submitted, refilled, dispatched or completed in between.
   */
  lemma HigherGoesFirst<I>(c: Config, states: seq<State<I>>, events: seq<Event<I>>, i: nat, k: nat,
                          a: Task<I>, b: Task<I>)
    requires Run(c, states, events) && i < k < |events|
    requires events[i] == Submit(a) && Accepts(states[i], a)
    requires events[k] == Dispatch(Some(Entry(b.id, b.priority))) && a.priority > b.priority
    ensures exists m :: i < m < k && events[m] == Dispatch(Some(Entry(a.id, a.priority)))
  {
    var entry := Entry(a.id, a.priority);
    assert Step(c, states[i], events[i], states[i + 1]);
    assert entry in states[i + 1].heap;
    assert Step(c, states[k], events[k], states[k + 1]);
    EntryLeavesByDispatch(c, states, events, i + 1, k, entry);
  }

  ghost predicate NoSubmits<I>(events: seq<Event<I>>) {
    forall i :: 0 <= i < |events| ==> !events[i].Submit?
  }

  lemma StepShrinksHeap<I>(c: Config, s: State<I>, e: Event<I>, s': State<I>)
    requires Step(c, s, e, s') && !e.Submit?
    ensures s'.heap <= s.heap && |s'.heap| + (if IsDispatch(e) then 1 else 0) == |s.heap|
  {
  }

  /** Without submissions the heap only shrinks, by one entry a dispatch. */
  lemma {:induction false} HeapShrinks<I>(c: Config, states: seq<State<I>>, events: seq<Event<I>>, i: nat, k: nat)
    requires Steps(c, states, events) && NoSubmits(events) && i <= k <= |events|
    ensures states[k].heap <= states[i].heap
    ensures |states[k].heap| + Dispatched(events, k) == |states[i].heap| + Dispatched(events, i)
    decreases k
  {
    if i < k {
      hide Step, NoSubmits;
      HeapShrinks(c, states, events, i, k - 1);
      assert Step(c, states[k - 1], events[k - 1], states[k]);
      StepShrinksHeap(c, states[k - 1], events[k - 1], states[k]);
    }
  }

  /**
   * Draining: without submissions the dispatched priorities never increase, and the heap is empty exactly when as
   * many dispatches took a task as the heap held at the start.
   */
  lemma DrainingOrder<I>(c: Config, states: seq<State<I>>, events: seq<Event<I>>)
    requires Steps(c, states, events) && NoSubmits(events)
    ensures forall i, j :: 0 <= i < j < |events| && IsDispatch(events[i]) && IsDispatch(events[j]) ==>
              events[i].taken.value.priority >= events[j].taken.value.priority
    ensures states[|events|].heap == multiset{} <==> Dispatched(events, |events|) == |states[0].heap|
  {
    forall i, j | 0 <= i < j < |events| && IsDispatch(events[i]) && IsDispatch(events[j])
      ensures events[i].taken.value.priority >= events[j].taken.value.priority
    {
      assert Step(c, states[i], events[i], states[i + 1]) && Step(c, states[j], events[j], states[j + 1]);
      HeapShrinks(c, states, events, i, j);
      assert events[j].taken.value in states[i].heap;
    }
    HeapShrinks(c, states, events, 0, |events|);
  }

  // ----- The queue object -----

  lemma {:induction false} TopExists(heap: multiset<Entry>)
    requires heap != multiset{}
    ensures exists top :: IsTop(heap, top)
    decreases |heap|
  {
    var e :| e in heap;
    var rest := heap - multiset{e};
    if rest == multiset{} {
      assert heap == multiset{e};
      assert IsTop(heap, e);
    } else {
      TopExists(rest);
      var top :| IsTop(rest, top);
      assert forall x :: x in heap ==> x == e || x in rest;
      assert IsTop(heap, if top.priority < e.priority then e else top);
    }
  }

  class Queue<I> {
    const config: Config
    var tasks: map<nat, Task<I>>
    var heap: multiset<Entry>
    var taskPks: set<string>
    var running: int
    var keyCount: int
    ghost var seen: set<nat>

    constructor (maxQps: nat, maxRunning: nat)
      ensures config == Config(maxQps, maxRunning) && Abs() == Initial() && Valid()
    {
      config := Config(maxQps, maxRunning);
      tasks, heap, taskPks, running, keyCount, seen := map[], multiset{}, {}, 0, 0, {};
      new;
      InitialInv<I>(config);
    }

    ghost function Abs(): State<I>
      reads this
    {
      State(tasks, heap, taskPks, running, keyCount, seen)
    }

    ghost predicate Valid()
      reads this
    {
      Inv(config, Abs())
    }

    /** `submit`: refuses a task whose key is already in flight. */
    method Submit(task: Task<I>) returns (accepted: bool)
      requires Valid() && task.id !in seen && task.status == PENDING
      modifies this
      ensures Valid() && accepted == Accepts(old(Abs()), task)
      ensures Step(config, old(Abs()), Event.Submit(task), Abs()) && Abs() == AfterSubmit(old(Abs()), task)
    {
      StepKeepsInv(config, Abs(), Event.Submit(task), AfterSubmit(Abs(), task));
      hide Inv;
      if task.pk == "" || task.pk !in taskPks {
        if task.pk != "" {
          taskPks := taskPks + {task.pk};
        }
        tasks := tasks[task.id := task];
        heap := heap + multiset{Entry(task.id, task.priority)};
        seen := seen + {task.id};
        return true;
      }
      return false;
    }

    /** `complete`, called by the executor of a running task. */
    method Complete(task: Task<I>)
      requires Valid() && task.id in tasks && tasks[task.id].status == RUNNING && tasks[task.id].pk == task.pk
      modifies this
      ensures Valid() && Step(config, old(Abs()), Event.Complete(task.id), Abs())
    {
      StepKeepsInv(config, Abs(), Event.Complete(task.id), AfterComplete(Abs(), tasks[task.id]));
      taskPks := taskPks - {task.pk};
      tasks := tasks - {task.id};
      running := running - 1;
    }

    /** The 50 ms refill timer. */
    method GenerateKey()
      requires Valid()
      modifies this
      ensures Valid() && Step(config, old(Abs()), Refill, Abs())
    {
      StepKeepsInv(config, Abs(), Refill, AfterRefill(config, Abs()));
      keyCount := keyCount + config.maxQps * TICK_MILLIS;
      keyCount := Min(config.maxQps * TOKEN, keyCount);
    }

    /** The dispatch handler: runs a pending task of highest priority if a token and a slot are free. */
    method DispatchTask() returns (ran: Option<Task<I>>)
      requires Valid()
      modifies this
      ensures Valid()
      ensures var taken := if ran.None? then None else Some(Entry(ran.value.id, ran.value.priority));
              Step(config, old(Abs()), Event.Dispatch(taken), Abs())
      ensures ran.Some? ==> ran.value.id in tasks && tasks[ran.value.id] == ran.value && ran.value.status == RUNNING
    {
      if keyCount >= TOKEN && heap != multiset{} && running < config.maxRunning {
        var task := RunTop();
        return Some(task);
      }
      return None;
    }

    /** The heap's `top`: some entry of highest priority. */
    method Top() returns (top: Entry)
      requires heap != multiset{}
      ensures IsTop(heap, top)
    {
      TopExists(heap);
      top :| IsTop(heap, top);
    }

    /** Marks some top task as running and pays a token for it. */
    method RunTop() returns (task: Task<I>)
      requires Valid() && CanDispatch(config, Abs())
      modifies this
      ensures Valid()
      ensures Step(config, old(Abs()), Event.Dispatch(Some(Entry(task.id, task.priority))), Abs())
      ensures task.id in tasks && tasks[task.id] == task && task.status == RUNNING
    {
      hide Inv, Step, IsTop;
      var top := Top();
      ghost var before := Abs();
      DispatchIsStep(config, before, top);
      task := tasks[top.id].(status := RUNNING);
      tasks := tasks[top.id := task];
      heap := heap - multiset{top};
      keyCount := keyCount - TOKEN;
      running := running + 1;
      assert Abs() == AfterDispatch(before, top);
    }
  }
}
