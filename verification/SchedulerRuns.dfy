/** What the scheduler guarantees over whole runs of its main loop. */
module SchedulerRuns {
  import opened Bytes
  import opened Scheduler

  /** A run: states, and the events between them. */
  ghost predicate IsRun(ks: seq<Kernel>, es: seq<Event>) {
    && |ks| == |es| + 1
    && forall i {:trigger es[i]} :: 0 <= i < |es| ==> Step(ks[i], es[i], ks[i + 1])
  }

  /** Bodies leave the task table alone and every registered task is periodic. */
  predicate Tame(e: Event) {
    match e
    case Idle => true
    case Dispatched(_, left, _) => left.Running?
    case NewTask(_, _, period) => period >= 1
  }

  /** The 32-bit tick and the next activations do not wrap around. */
  predicate Fits(k: Kernel) {
    k.tick + 1 < WORD32
    && forall i {:trigger k.tasks[i]} :: 0 <= i < |k.tasks| ==> k.tick + k.tasks[i].period + 1 < WORD32
  }

  ghost predicate TameRun(ks: seq<Kernel>, es: seq<Event>) {
    && IsRun(ks, es)
    && (forall i {:trigger es[i]} :: 0 <= i < |es| ==> Tame(es[i]))
    && forall i {:trigger ks[i]} :: 0 <= i < |ks| ==> Fits(ks[i])
  }

  // ----- no deadline is missed

  /** A ready task is due now, a sleeping one within its period, and nobody has missed a deadline. */
  predicate OnTime(t: Task, tick: nat) {
    && !t.state.Running?
    && (t.state.Ready? ==> t.hasEntry && t.period >= 1 && t.nextRun == tick)
    && (t.state.Sleeping? ==> t.hasEntry && t.period >= 1 && tick < t.nextRun <= tick + t.period)
    && t.deadlineMisses == 0
  }

  predicate AllOnTime(k: Kernel) {
    WellFormed(k) && forall i {:trigger k.tasks[i]} :: 0 <= i < MAX_TASKS ==> OnTime(k.tasks[i], k.tick)
  }

  lemma {:induction false} InitiallyOnTime()
    ensures AllOnTime(INITIAL)
  {
  }

  /** Time advances only when nobody is ready. */
  lemma {:induction false} IdleMeansNobodyReady(k: Kernel, k': Kernel)
    requires AllOnTime(k) && Step(k, Idle, k')
    ensures forall i {:trigger k.tasks[i]} :: 0 <= i < MAX_TASKS ==> !k.tasks[i].state.Ready?
    ensures k' == Ticked(k).(iterations := k.iterations + 1)
  {
    assert forall i :: 0 <= i < MAX_TASKS && k.tasks[i].state.Ready? ==> Eligible(k, i);
  }

  lemma {:induction false} IdleAdvances(k: Kernel, k': Kernel)
    requires AllOnTime(k) && Fits(k) && Step(k, Idle, k')
    ensures k'.tick == k.tick + 1
  {
    IdleMeansNobodyReady(k, k');
  }

  lemma {:induction false} OnTimeStep(k: Kernel, e: Event, k': Kernel)
    requires AllOnTime(k) && Fits(k) && Tame(e) && Step(k, e, k')
    ensures AllOnTime(k')
  {
    match e
    case Idle =>
      IdleMeansNobodyReady(k, k');
      forall i | 0 <= i < MAX_TASKS
        ensures OnTime(k'.tasks[i], k'.tick) && k'.tasks[i].priority <= LOWEST
      {
        assert k'.tasks[i] == Wake(k.tasks[i], k.tick + 1);
      }
    case Dispatched(id, left, us) =>
      assert OnTime(k.tasks[id], k.tick);
      assert k.tick + k.tasks[id].period + 1 < WORD32;
    case NewTask(id, priority, period) =>
  }

  lemma {:induction false} OnTimeThroughout(ks: seq<Kernel>, es: seq<Event>, n: nat)
    requires TameRun(ks, es) && AllOnTime(ks[0]) && n <= |es|
    ensures AllOnTime(ks[n])
    decreases n
  {
    if n > 0 {
      OnTimeThroughout(ks, es, n - 1);
      assert Tame(es[n - 1]) && Fits(ks[n - 1]);
      OnTimeStep(ks[n - 1], es[n - 1], ks[n]);
    }
  }

  predicate NoMisses(k: Kernel) {
    forall i {:trigger k.tasks[i]} :: 0 <= i < |k.tasks| ==> k.tasks[i].deadlineMisses == 0
  }

  /** With periodic tasks and well-behaved bodies, no deadline is ever missed, however tasks are registered. */
  lemma {:induction false} NoDeadlineMissed(ks: seq<Kernel>, es: seq<Event>, n: nat)
    requires TameRun(ks, es) && AllOnTime(ks[0]) && n <= |es|
    ensures NoMisses(ks[n])
  {
    OnTimeThroughout(ks, es, n);
    forall i | 0 <= i < |ks[n].tasks|
      ensures ks[n].tasks[i].deadlineMisses == 0
    {
      assert OnTime(ks[n].tasks[i], ks[n].tick);
    }
  }

  /** From the start of the kernel, whatever periodic tasks are registered and whenever, no deadline is ever missed. */
  lemma {:induction false} NoMissesSinceStart(ks: seq<Kernel>, es: seq<Event>, n: nat)
    requires TameRun(ks, es) && ks[0] == INITIAL && n <= |es|
    ensures NoMisses(ks[n])
  {
    InitiallyOnTime();
    NoDeadlineMissed(ks, es, n);
  }

  // ----- exact periodicity

  /** `t` is one of `start`, `start + p`, `start + 2p`, and so on. */
  predicate Due(start: nat, p: nat, t: nat)
    requires p >= 1
    decreases t
  {
    t == start || (t >= start + p && Due(start, p, t - p))
  }

  function Nth(start: nat, p: nat, m: nat): nat {
    start + m * p
  }

  lemma {:induction false} DueMultiples(start: nat, p: nat, m: nat)
    requires p >= 1
    ensures Due(start, p, Nth(start, p, m))
    decreases m
  {
    if m > 0 {
      DueMultiples(start, p, m - 1);
      assert start + m * p - p == start + (m - 1) * p;
    }
  }

  lemma {:induction false} DueIsNth(start: nat, p: nat, t: nat) returns (m: nat)
    requires p >= 1 && Due(start, p, t)
    ensures t == Nth(start, p, m)
    decreases t
  {
    m := 0;
    if t != start {
      m := DueIsNth(start, p, t - p);
      m := m + 1;
    }
  }

  /** `t` is on the schedule of a task with period `p` that was registered at `start`. */
  ghost predicate OnSchedule(start: nat, p: nat, t: nat) {
    exists m: nat :: t == Nth(start, p, m)
  }

  lemma {:induction false} DueIffOnSchedule(start: nat, p: nat, t: nat)
    requires p >= 1
    ensures Due(start, p, t) <==> OnSchedule(start, p, t)
  {
    hide Nth;
    if OnSchedule(start, p, t) {
      var m: nat :| t == Nth(start, p, m);
      DueMultiples(start, p, m);
    }
    if Due(start, p, t) {
      var m := DueIsNth(start, p, t);
    }
  }

  lemma {:induction false} DueGap(start: nat, p: nat, a: nat, b: nat)
    requires p >= 1 && Due(start, p, a) && Due(start, p, b) && a < b
    ensures start <= a && a + p <= b
    decreases a
  {
    DueAfterStart(start, p, a);
    if a != start {
      DueAfterStart(start, p, a - p);
      DueGap(start, p, a - p, b - p);
    }
  }

  lemma {:induction false} DueAfterStart(start: nat, p: nat, t: nat)
    requires p >= 1 && Due(start, p, t)
    ensures start <= t
  {
  }

  /** How often task `id` was dispatched at tick `t` from event `m` up to event `n`. */
  function Count(ks: seq<Kernel>, es: seq<Event>, id: nat, t: nat, m: nat, n: nat): nat
    requires m <= n <= |es| <= |ks|
    decreases n
  {
    if n == m then 0
    else Count(ks, es, id, t, m, n - 1)
         + if es[n - 1].Dispatched? && es[n - 1].id == id && ks[n - 1].tick == t then 1 else 0
  }

  /** Tick `t` has been served by the time of state `k`: it is over, or it is now and the task has already run. */
  predicate ServedBy(k: Kernel, id: nat, t: nat)
    requires id < |k.tasks|
  {
    t < k.tick || (t == k.tick && k.tasks[id].state.Sleeping?)
  }

  /** A task registered at tick `start` with period `p` is in step with its schedule. */
  predicate InStep(k: Kernel, id: nat, start: nat, p: nat)
    requires id < |k.tasks| && p >= 1
  {
    var t := k.tasks[id];
    && k.tick >= start && t.period == p && Due(start, p, t.nextRun)
    && (t.state.Ready?
        || (t.state.Sleeping? && t.nextRun >= p && t.nextRun - p <= k.tick && Due(start, p, t.nextRun - p)))
  }

  lemma {:induction false} InStepStep(k: Kernel, e: Event, k': Kernel, id: nat, start: nat, p: nat)
    requires AllOnTime(k) && Fits(k) && Tame(e) && Step(k, e, k')
    requires id < MAX_TASKS && p >= 1 && InStep(k, id, start, p)
    requires !(e.NewTask? && e.task == id)
    ensures AllOnTime(k') && InStep(k', id, start, p)
    ensures e.Dispatched? && e.id == id ==>
              Due(start, p, k.tick) && k.tasks[id].state.Ready? && k'.tasks[id].state.Sleeping? && k'.tick == k.tick
    ensures e.Idle? ==> k'.tick == k.tick + 1 && k.tasks[id].state.Sleeping?
                        && (Due(start, p, k'.tick) ==> k'.tasks[id].state.Ready?)
    ensures !e.Idle? && !(e.Dispatched? && e.id == id) ==> k'.tick == k.tick && k'.tasks[id] == k.tasks[id]
  {
    OnTimeStep(k, e, k');
    var t := k.tasks[id];
    assert OnTime(t, k.tick);
    match e
    case Idle =>
      IdleMeansNobodyReady(k, k');
      assert k'.tasks[id] == Wake(t, k.tick + 1);
      if Due(start, p, k'.tick) {
        DueGap(start, p, t.nextRun - p, k'.tick);
      }
    case Dispatched(other, left, us) =>
      assert k.tick + t.period + 1 < WORD32;
      if other == id {
        assert Due(start, p, k.tick + p - p);
      }
    case NewTask(other, priority, period) =>
  }

  /** A task that is ready in state `m` is dispatched exactly once at each tick it is due and served, and at no
      other. */
  lemma {:induction false} OncePerPeriod(ks: seq<Kernel>, es: seq<Event>, id: nat, p: nat, m: nat, n: nat)
    requires TameRun(ks, es) && m <= n <= |es| && AllOnTime(ks[m])
    requires id < MAX_TASKS && p >= 1 && ks[m].tasks[id].state.Ready? && ks[m].tasks[id].period == p
    requires forall i :: m <= i < n ==> !(es[i].NewTask? && es[i].task == id)
    ensures AllOnTime(ks[n]) && InStep(ks[n], id, ks[m].tick, p)
    ensures forall t: nat :: Count(ks, es, id, t, m, n) ==
              if Due(ks[m].tick, p, t) && ServedBy(ks[n], id, t) then 1 else 0
    decreases n
  {
    var start := ks[m].tick;
    if n == m {
      assert OnTime(ks[m].tasks[id], start);
      forall t: nat ensures !(Due(start, p, t) && t < start) {
        if Due(start, p, t) {
          DueAfterStart(start, p, t);
        }
      }
    } else {
      OncePerPeriod(ks, es, id, p, m, n - 1);
      var k, e, k' := ks[n - 1], es[n - 1], ks[n];
      assert Tame(e) && Fits(k);
      InStepStep(k, e, k', id, start, p);
      forall t: nat
        ensures Count(ks, es, id, t, m, n) == if Due(start, p, t) && ServedBy(k', id, t) then 1 else 0
      {
        assert Count(ks, es, id, t, m, n - 1) == if Due(start, p, t) && ServedBy(k, id, t) then 1 else 0;
      }
    }
  }

  /** From the start of the kernel: a task registered by event `m` with period `p` is dispatched exactly once at each of
      `start`, `start + p`, `start + 2p` and so on up to the last tick served, and at no other tick. */
  lemma {:induction false} ExactlyOncePerPeriod(
      ks: seq<Kernel>, es: seq<Event>, id: nat, p: nat, m: nat, n: nat, t: nat)
    requires TameRun(ks, es) && ks[0] == INITIAL && m < n <= |es|
    requires es[m].NewTask? && es[m].task == id && es[m].period == p
    requires forall i :: m < i < n ==> !(es[i].NewTask? && es[i].task == id)
    ensures id < |ks[n].tasks|
    ensures Count(ks, es, id, t, m + 1, n) ==
              if OnSchedule(ks[m].tick, p, t) && ServedBy(ks[n], id, t) then 1 else 0
  {
    InitiallyOnTime();
    OnTimeThroughout(ks, es, m);
    OnTimeThroughout(ks, es, m + 1);
    assert Tame(es[m]) && Step(ks[m], es[m], ks[m + 1]);
    OncePerPeriod(ks, es, id, p, m + 1, n);
    DueIffOnSchedule(ks[m].tick, p, t);
  }

  // ----- progress within a tick

  function ReadyTasks(k: Kernel): set<nat> {
    set i: nat | i < |k.tasks| && k.tasks[i].state.Ready?
  }

  function Below(n: nat): (s: set<nat>)
    ensures |s| == n && forall i: nat :: i in s <==> i < n
  {
    if n == 0 then {} else Below(n - 1) + {n - 1}
  }

  lemma {:induction false} SubsetSize(a: set<nat>, b: set<nat>)
    requires a <= b
    ensures |a| <= |b|
  {
    assert |b - a| == |b| - |a|;
  }

  /** Only dispatches: no idle turn and no registration among the first `n` events. */
  predicate Busy(es: seq<Event>, n: nat) {
    n <= |es| && forall i {:trigger es[i]} :: 0 <= i < n ==> es[i].Dispatched?
  }

  lemma {:induction false} DispatchConsumes(k: Kernel, e: Event, k': Kernel)
    requires AllOnTime(k) && Fits(k) && Tame(e) && e.Dispatched? && Step(k, e, k')
    ensures ReadyTasks(k') == ReadyTasks(k) - {e.id} && e.id in ReadyTasks(k)
    ensures k'.tick == k.tick && forall i :: i in ReadyTasks(k') ==> k'.tasks[i] == k.tasks[i]
  {
    assert OnTime(k.tasks[e.id], k.tick);
  }

  lemma {:induction false} ReadyCountFalls(ks: seq<Kernel>, es: seq<Event>, n: nat)
    requires TameRun(ks, es) && AllOnTime(ks[0]) && Busy(es, n)
    ensures |ReadyTasks(ks[n])| + n == |ReadyTasks(ks[0])|
    decreases n
  {
    if n > 0 {
      ReadyCountFalls(ks, es, n - 1);
      OnTimeThroughout(ks, es, n - 1);
      assert Tame(es[n - 1]) && Fits(ks[n - 1]) && es[n - 1].Dispatched?;
      DispatchConsumes(ks[n - 1], es[n - 1], ks[n]);
    }
  }

  lemma {:induction false} NotBusyForNineTurns(ks: seq<Kernel>, es: seq<Event>)
    requires TameRun(ks, es) && AllOnTime(ks[0]) && |es| == MAX_TASKS + 1
    ensures !Busy(es, |es|)
  {
    if Busy(es, |es|) {
      ReadyCountFalls(ks, es, |es|);
      SubsetSize(ReadyTasks(ks[0]), Below(MAX_TASKS));
    }
  }

  /** Without new registrations, time advances within nine turns of the main loop. */
  lemma {:induction false} TickWithinNineTurns(ks: seq<Kernel>, es: seq<Event>)
    requires TameRun(ks, es) && AllOnTime(ks[0]) && |es| == MAX_TASKS + 1
    requires forall i :: 0 <= i < |es| ==> !es[i].NewTask?
    ensures exists i :: 0 <= i < |es| && es[i].Idle? && ks[i + 1].tick == ks[i].tick + 1
  {
    hide Step, Fits, AllOnTime;
    NotBusyForNineTurns(ks, es);
    var i :| 0 <= i < |es| && !es[i].Dispatched?;
    OnTimeThroughout(ks, es, i);
    assert Fits(ks[i]) && es[i] == Idle;
    IdleAdvances(ks[i], ks[i + 1]);
  }

  /** Whoever is still ready at the end of a busy stretch was ready, and the same, at its start. */
  lemma {:induction false} StillReady(ks: seq<Kernel>, es: seq<Event>, n: nat, i: nat)
    requires TameRun(ks, es) && AllOnTime(ks[0]) && Busy(es, n)
    requires i in ReadyTasks(ks[n])
    ensures i in ReadyTasks(ks[0]) && ks[n].tasks[i] == ks[0].tasks[i] && ks[n].tick == ks[0].tick
    decreases n
  {
    if n > 0 {
      OnTimeThroughout(ks, es, n - 1);
      assert Tame(es[n - 1]) && Fits(ks[n - 1]) && es[n - 1].Dispatched?;
      DispatchConsumes(ks[n - 1], es[n - 1], ks[n]);
      StillReady(ks, es, n - 1, i);
    }
  }

  /** Within a tick, dispatched priorities never get better. */
  lemma {:induction false} PrioritiesInOrder(ks: seq<Kernel>, es: seq<Event>)
    requires TameRun(ks, es) && AllOnTime(ks[0]) && |es| >= 1 && Busy(es, |es|)
    ensures var first, last := es[0].id, es[|es| - 1].id;
            && first < |ks[0].tasks| && last < |ks[|es| - 1].tasks|
            && ks[0].tasks[first].priority <= ks[|es| - 1].tasks[last].priority
  {
    var n := |es| - 1;
    var last := es[n].id;
    assert Step(ks[0], es[0], ks[1]) && Step(ks[n], es[n], ks[n + 1]);
    StillReady(ks, es, n, last);
    assert Eligible(ks[0], last);
  }

  // ----- the better priority goes first

  /** Task `id` is neither dispatched nor registered by the events from `m` up to `n`. */
  predicate Untouched(es: seq<Event>, id: nat, m: nat, n: nat) {
    n <= |es| && forall i {:trigger es[i]} :: m <= i < n ==>
      !(es[i].Dispatched? && es[i].id == id) && !(es[i].NewTask? && es[i].task == id)
  }

  /** A ready task whose time has come stays so, at its priority, until it is dispatched or registered anew. */
  lemma {:induction false} StaysEligible(ks: seq<Kernel>, es: seq<Event>, id: nat, m: nat, n: nat)
    requires GentleRun(ks, es) && m <= n <= |es| && Untouched(es, id, m, n)
    requires Settled(ks[m]) && id < MAX_TASKS && Eligible(ks[m], id)
    ensures Settled(ks[n]) && Eligible(ks[n], id) && ks[n].tasks[id] == ks[m].tasks[id]
    decreases n
  {
    if n > m {
      StaysEligible(ks, es, id, m, n - 1);
      var k, e, k' := ks[n - 1], es[n - 1], ks[n];
      assert Gentle(e);
      SettledStep(k, e, k');
      assert k.tasks[id].state.Ready? ==> !e.Idle?;
    }
  }

  /** Of two tasks registered at one tick with the priorities `a < b`, the one with `a` is dispatched first. */
  lemma {:induction false} BetterPriorityFirst(
      ks: seq<Kernel>, es: seq<Event>, x: nat, y: nat, i: nat, j: nat, a: nat, b: nat, n: nat)
    requires GentleRun(ks, es) && ks[0] == INITIAL && x < n < |es| && y < n && x != y
    requires es[x].NewTask? && es[x].task == i && es[x].priority == a
    requires es[y].NewTask? && es[y].task == j && es[y].priority == b
    requires a < b <= 7 && i != j && ks[x].tick == ks[y].tick
    requires Untouched(es, i, x + 1, n) && Untouched(es, j, y + 1, n)
    requires es[n].Dispatched? && (es[n].id == i || es[n].id == j)
    ensures es[n].id == i
  {
    SettledThroughout(ks, es, x);
    SettledThroughout(ks, es, y);
    assert Gentle(es[x]) && Gentle(es[y]);
    SettledStep(ks[x], es[x], ks[x + 1]);
    SettledStep(ks[y], es[y], ks[y + 1]);
    StaysEligible(ks, es, i, x + 1, n);
    StaysEligible(ks, es, j, y + 1, n);
    assert Step(ks[n], es[n], ks[n + 1]);
    assert Eligible(ks[n], i) && ks[n].tasks[i].priority == a && ks[n].tasks[j].priority == b;
  }

  // ----- statistics over runs

  /** How often task `id` was dispatched by the first `n` events, and how often for more than the budget of 25 ms. */
  function Dispatches(es: seq<Event>, id: nat, n: nat): nat
    requires n <= |es|
  {
    if n == 0 then 0 else Dispatches(es, id, n - 1) + if es[n - 1].Dispatched? && es[n - 1].id == id then 1 else 0
  }

  function LongDispatches(es: seq<Event>, id: nat, n: nat): nat
    requires n <= |es|
  {
    if n == 0 then 0
    else LongDispatches(es, id, n - 1)
         + if es[n - 1].Dispatched? && es[n - 1].id == id && es[n - 1].us > 25000 then 1 else 0
  }

  /** Over every run, executions count the dispatches and overruns the long ones, and the worst time is an upper bound
      that was reached. */
  lemma {:induction false} StatisticsAreExact(ks: seq<Kernel>, es: seq<Event>, id: nat, m: nat, n: nat)
    requires IsRun(ks, es) && m < n <= |es| && es[m].NewTask? && es[m].task == id
    requires forall i :: m < i < n ==> !(es[i].NewTask? && es[i].task == id)
    ensures id < |ks[n].tasks|
    ensures var t := ks[n].tasks[id];
            && t.executions + Dispatches(es, id, m) == Dispatches(es, id, n)
            && t.overruns + LongDispatches(es, id, m) == LongDispatches(es, id, n) && t.faults == t.overruns
            && (forall i :: m < i < n && es[i].Dispatched? && es[i].id == id ==> es[i].us <= t.worstUs)
            && (t.worstUs == 0
                || exists i :: m < i < n && es[i].Dispatched? && es[i].id == id && es[i].us == t.worstUs)
    decreases n
  {
    hide Step;
    assert Step(ks[n - 1], es[n - 1], ks[n]);
    if n > m + 1 {
      StatisticsAreExact(ks, es, id, m, n - 1);
      StatisticsStep(ks[n - 1], es[n - 1], ks[n], id);
    } else {
      StatisticsStart(ks[m], es[m], ks[m + 1], id);
    }
  }

  lemma {:induction false} StatisticsStart(k: Kernel, e: Event, k': Kernel, id: nat)
    requires Step(k, e, k') && e.NewTask? && e.task == id
    ensures id < |k'.tasks|
    ensures var t := k'.tasks[id]; t.executions == t.overruns == t.faults == t.worstUs == 0
  {
  }

  lemma {:induction false} StatisticsStep(k: Kernel, e: Event, k': Kernel, id: nat)
    requires Step(k, e, k') && !(e.NewTask? && e.task == id) && id < |k.tasks|
    ensures id < |k'.tasks|
    ensures var t, u, mine := k.tasks[id], k'.tasks[id], e.Dispatched? && e.id == id;
            && u.executions == t.executions + (if mine then 1 else 0)
            && u.overruns == t.overruns + (if mine && e.us > 25000 then 1 else 0)
            && u.faults == t.faults + (if mine && e.us > 25000 then 1 else 0)
            && u.worstUs == if mine && e.us > t.worstUs then e.us else t.worstUs
  {
  }

  // ----- fairness among always-ready tasks of equal priority

  /** The tasks in `peers` are always ready and nothing else that is eligible is as important. */
  ghost predicate Peers(k: Kernel, peers: set<nat>, priority: nat) {
    && WellFormed(k)
    && (forall i :: i in peers ==>
          Eligible(k, i) && k.tasks[i].period == 0 && k.tasks[i].hasEntry && k.tasks[i].priority == priority)
    && (forall i: nat {:trigger Eligible(k, i)} :: Eligible(k, i) && i !in peers ==> k.tasks[i].priority > priority)
  }

  lemma {:induction false} PeersStep(k: Kernel, e: Event, k': Kernel, peers: set<nat>, priority: nat)
    requires Peers(k, peers, priority) && peers != {}
    requires Tame(e) && !e.NewTask? && Step(k, e, k')
    ensures e.Dispatched? && e.id in peers && Peers(k', peers, priority)
    ensures k'.cursor == (e.id + 1) % MAX_TASKS
    ensures forall i :: i in peers ==> Distance(k.cursor, e.id) <= Distance(k.cursor, i)
  {
    var r :| r in peers;
    assert Eligible(k, r);
    if e.Idle? {
      assert false;
    }
    assert IsChoice(k, e.id);
    forall i: nat | Eligible(k', i)
      ensures Eligible(k, i)
    {
    }
  }

  lemma {:induction false} DistanceFromLaterCursor(cursor: nat, b: nat, i: nat)
    requires cursor < MAX_TASKS && b <= MAX_TASKS && i < MAX_TASKS
    ensures Distance((cursor + b) % MAX_TASKS, i) ==
            if Distance(cursor, i) >= b then Distance(cursor, i) - b else Distance(cursor, i) + MAX_TASKS - b
    ensures (i + 1) % MAX_TASKS == (cursor + Distance(cursor, i) + 1) % MAX_TASKS
  {
  }

  function Ids(es: seq<Event>, n: nat): set<nat>
    requires Busy(es, n)
  {
    if n == 0 then {} else Ids(es, n - 1) + {es[n - 1].id}
  }

  predicate Moved(c: nat, b: nat, cursor: nat) {
    c < MAX_TASKS && b <= MAX_TASKS && cursor == (c + b) % MAX_TASKS
  }

  /** The peers that the cursor meets when it moves on by `b` places from `c`. */
  function Swept(c: nat, peers: set<nat>, b: int): set<nat> {
    set i | i in peers && Distance(c, i) < b
  }

  /** After `n` turns the cursor has swept over a stretch of length `b`, and exactly the peers in it have run. */
  lemma {:induction false} Sweep(ks: seq<Kernel>, es: seq<Event>, peers: set<nat>, priority: nat, n: nat)
    returns (b: nat)
    requires IsRun(ks, es) && Peers(ks[0], peers, priority)
    requires forall i {:trigger es[i]} :: 0 <= i < |es| ==> Tame(es[i]) && !es[i].NewTask?
    requires n <= |es| && n <= |peers|
    ensures Moved(ks[0].cursor, b, ks[n].cursor) && Peers(ks[n], peers, priority)
    ensures Busy(es, n) && |Ids(es, n)| == n
    ensures Ids(es, n) == Swept(ks[0].cursor, peers, b)
    decreases n
  {
    hide Step, Peers, Swept, Tame, Moved, Distance;
    if n == 0 {
      b := 0;
      NoneSwept(ks[0], peers, priority);
    } else {
      b := Sweep(ks, es, peers, priority, n - 1);
      var c, k, e := ks[0].cursor, ks[n - 1], es[n - 1];
      assert Tame(e) && Step(k, e, ks[n]);
      OnePeerMore(k, e, ks[n], peers, priority, c, b, Ids(es, n - 1));
      b := Distance(c, e.id) + 1;
    }
  }

  lemma {:induction false} OnePeerMore(k: Kernel, e: Event, k': Kernel, peers: set<nat>, priority: nat, c: nat,
                                       b: nat, ran: set<nat>)
    requires Peers(k, peers, priority) && Tame(e) && !e.NewTask? && Step(k, e, k')
    requires Moved(c, b, k.cursor)
    requires ran == Swept(c, peers, b) && |ran| < |peers|
    ensures e.Dispatched? && Peers(k', peers, priority)
    ensures Distance(c, e.id) >= 0 && Moved(c, Distance(c, e.id) + 1, k'.cursor)
    ensures e.id !in ran && ran + {e.id} == Swept(c, peers, Distance(c, e.id) + 1)
  {
    PeersStep(k, e, k', peers, priority);
    PeersInRange(k, peers, priority);
    var r := Missing(ran, peers);
    hide Peers, Step;
    DistanceFromLaterCursor(c, b, r);
    DistanceFromLaterCursor(c, b, e.id);
    NextPeer(c, b, peers, e.id);
  }

  lemma {:induction false} NoneSwept(k: Kernel, peers: set<nat>, priority: nat)
    requires Peers(k, peers, priority)
    ensures Moved(k.cursor, 0, k.cursor) && {} == Swept(k.cursor, peers, 0)
  {
  }

  lemma {:induction false} PeersInRange(k: Kernel, peers: set<nat>, priority: nat)
    requires Peers(k, peers, priority)
    ensures forall i :: i in peers ==> i < MAX_TASKS
  {
  }

  lemma {:induction false} Missing(a: set<nat>, b: set<nat>) returns (x: nat)
    requires a <= b && |a| < |b|
    ensures x in b && x !in a
  {
    assert |b - a| == |b| - |a|;
    x :| x in b - a;
  }

  /** The nearest peer after the swept stretch extends the stretch by itself alone. */
  lemma {:induction false} NextPeer(c: nat, b: nat, peers: set<nat>, x: nat)
    requires c < MAX_TASKS && b <= MAX_TASKS && x in peers && Distance(c, x) >= b
    requires forall i :: i in peers ==> i < MAX_TASKS
    requires forall i :: i in peers ==> Distance((c + b) % MAX_TASKS, x) <= Distance((c + b) % MAX_TASKS, i)
    ensures Swept(c, peers, b) + {x} == Swept(c, peers, Distance(c, x) + 1)
  {
    forall i | i in peers
      ensures Distance(c, i) < Distance(c, x) + 1 <==> Distance(c, i) < b || i == x
    {
      DistanceFromLaterCursor(c, b, i);
      DistanceFromLaterCursor(c, b, x);
      DistanceInjective(c, i, x);
    }
  }

  /** Among always-ready tasks of the best priority, as many turns as there are tasks run each of them exactly once. */
  lemma {:induction false} RoundRobin(ks: seq<Kernel>, es: seq<Event>, peers: set<nat>, priority: nat)
    requires IsRun(ks, es) && Peers(ks[0], peers, priority) && |es| == |peers|
    requires forall i {:trigger es[i]} :: 0 <= i < |es| ==> Tame(es[i]) && !es[i].NewTask?
    ensures Busy(es, |es|) && Ids(es, |es|) == peers
    ensures Peers(ks[|es|], peers, priority)
  {
    var b := Sweep(ks, es, peers, priority, |es|);
    SubsetEqual(Ids(es, |es|), peers);
  }

  /** As long as such tasks exist, they starve all others: the tick never advances and no other task, sleeping or less
      important, is ever touched. */
  lemma {:induction false} PeersStopTime(ks: seq<Kernel>, es: seq<Event>, peers: set<nat>, priority: nat, n: nat)
    requires IsRun(ks, es) && Peers(ks[0], peers, priority) && peers != {} && n <= |es|
    requires forall i {:trigger es[i]} :: 0 <= i < |es| ==> Tame(es[i]) && !es[i].NewTask?
    ensures Busy(es, n) && Peers(ks[n], peers, priority) && ks[n].tick == ks[0].tick
    ensures forall i :: 0 <= i < MAX_TASKS && i !in peers ==> ks[n].tasks[i] == ks[0].tasks[i]
    decreases n
  {
    if n > 0 {
      PeersStopTime(ks, es, peers, priority, n - 1);
      assert Tame(es[n - 1]);
      PeersStep(ks[n - 1], es[n - 1], ks[n], peers, priority);
    }
  }

  // ----- when time advances

  /** Bodies leave the task table alone; tasks of any period may be registered. */
  predicate Gentle(e: Event) {
    e.Dispatched? ==> e.left.Running?
  }

  ghost predicate GentleRun(ks: seq<Kernel>, es: seq<Event>) {
    IsRun(ks, es) && forall i {:trigger es[i]} :: 0 <= i < |es| ==> Gentle(es[i])
  }

  /** Ready tasks can be dispatched, and only periodic tasks sleep. */
  predicate Settled(k: Kernel) {
    && WellFormed(k)
    && forall i {:trigger k.tasks[i]} :: 0 <= i < MAX_TASKS ==> SettledTask(k.tasks[i], k.tick)
  }

  predicate SettledTask(t: Task, tick: nat) {
    && !t.state.Running?
    && (t.state.Ready? ==> t.hasEntry && t.nextRun <= tick)
    && (t.state.Sleeping? ==> t.hasEntry && t.period >= 1)
  }

  lemma {:induction false} SettledStep(k: Kernel, e: Event, k': Kernel)
    requires Settled(k) && Gentle(e) && Step(k, e, k')
    ensures Settled(k')
    ensures e.Idle? ==> forall i {:trigger k.tasks[i]} :: 0 <= i < MAX_TASKS ==> !k.tasks[i].state.Ready?
    ensures e.Idle? ==> k'.tick == (k.tick + 1) % WORD32
    ensures !e.Idle? ==> k'.tick == k.tick
  {
    match e
    case Idle =>
      forall i | 0 <= i < MAX_TASKS
        ensures !k.tasks[i].state.Ready?
      {
        assert SettledTask(k.tasks[i], k.tick);
        if k.tasks[i].state.Ready? {
          assert Eligible(k, i);
        }
      }
      forall i | 0 <= i < MAX_TASKS
        ensures SettledTask(k'.tasks[i], k'.tick) && k'.tasks[i].priority <= LOWEST
      {
        assert SettledTask(k.tasks[i], k.tick);
        assert k'.tasks[i] == Wake(k.tasks[i], k'.tick);
      }
    case Dispatched(id, left, us) =>
      assert SettledTask(k.tasks[id], k.tick);
    case NewTask(id, priority, period) =>
  }

  lemma {:induction false} SettledThroughout(ks: seq<Kernel>, es: seq<Event>, n: nat)
    requires GentleRun(ks, es) && Settled(ks[0]) && n <= |es|
    ensures Settled(ks[n])
    decreases n
  {
    if n > 0 {
      SettledThroughout(ks, es, n - 1);
      assert Gentle(es[n - 1]);
      SettledStep(ks[n - 1], es[n - 1], ks[n]);
    }
  }

  /** Every state from the start of the kernel on is settled, whatever is registered and whenever. */
  lemma {:induction false} SettledSinceStart(ks: seq<Kernel>, es: seq<Event>, n: nat)
    requires GentleRun(ks, es) && ks[0] == INITIAL && n <= |es|
    ensures Settled(ks[n])
  {
    SettledThroughout(ks, es, n);
  }

  /** A task without a period that is ready. */
  predicate Endless(k: Kernel, i: nat) {
    i < |k.tasks| && k.tasks[i].state.Ready? && k.tasks[i].period == 0
  }

  /** A ready task without a period, of whatever priority, stops time: over any run that does not register it anew it
      stays ready, no turn is idle, and the tick never advances. */
  lemma {:induction false} EndlessStopsTime(ks: seq<Kernel>, es: seq<Event>, id: nat, n: nat)
    requires GentleRun(ks, es) && Settled(ks[0]) && Endless(ks[0], id) && n <= |es|
    requires forall i :: 0 <= i < |es| ==> !(es[i].NewTask? && es[i].task == id)
    ensures Endless(ks[n], id) && ks[n].tick == ks[0].tick && forall i :: 0 <= i < n ==> !es[i].Idle?
    decreases n
  {
    if n > 0 {
      EndlessStopsTime(ks, es, id, n - 1);
      SettledThroughout(ks, es, n - 1);
      assert Gentle(es[n - 1]);
      SettledStep(ks[n - 1], es[n - 1], ks[n]);
    }
  }

  /** As long as only periodic tasks are ready, each dispatch lowers the number of ready tasks by one. */
  lemma {:induction false} FiniteReadyFalls(ks: seq<Kernel>, es: seq<Event>, n: nat)
    requires GentleRun(ks, es) && Settled(ks[0]) && Busy(es, n) && forall i :: !Endless(ks[0], i)
    ensures |ReadyTasks(ks[n])| + n == |ReadyTasks(ks[0])| && forall i :: !Endless(ks[n], i)
    decreases n
  {
    if n > 0 {
      FiniteReadyFalls(ks, es, n - 1);
      SettledThroughout(ks, es, n - 1);
      assert Gentle(es[n - 1]) && es[n - 1].Dispatched?;
      FiniteDispatch(ks[n - 1], es[n - 1], ks[n]);
    }
  }

  lemma {:induction false} FiniteDispatch(k: Kernel, e: Event, k': Kernel)
    requires Settled(k) && Gentle(e) && e.Dispatched? && Step(k, e, k') && forall i :: !Endless(k, i)
    ensures ReadyTasks(k') == ReadyTasks(k) - {e.id} && e.id in ReadyTasks(k) && forall i :: !Endless(k', i)
  {
    assert SettledTask(k.tasks[e.id], k.tick) && !Endless(k, e.id);
    forall i
      ensures !Endless(k', i)
    {
      assert !Endless(k, i);
    }
  }

  /** Within nine turns without a registration the tick advances if and only if no ready task lacks a period. */
  lemma {:induction false} TickAdvancesIff(ks: seq<Kernel>, es: seq<Event>)
    requires GentleRun(ks, es) && Settled(ks[0]) && |es| == MAX_TASKS + 1
    requires forall i :: 0 <= i < |es| ==> !es[i].NewTask?
    ensures (exists i :: 0 <= i < |es| && ks[i + 1].tick == (ks[i].tick + 1) % WORD32)
            <==> forall i :: !Endless(ks[0], i)
  {
    if id :| Endless(ks[0], id) {
      forall i | 0 <= i < |es|
        ensures ks[i + 1].tick == ks[i].tick
      {
        EndlessStopsTime(ks, es, id, i);
        EndlessStopsTime(ks, es, id, i + 1);
      }
      SettledThroughout(ks, es, 0);
    } else {
      if Busy(es, |es|) {
        FiniteReadyFalls(ks, es, |es|);
        SubsetSize(ReadyTasks(ks[0]), Below(MAX_TASKS));
      }
      var i :| 0 <= i < |es| && !es[i].Dispatched?;
      SettledThroughout(ks, es, i);
      assert Gentle(es[i]) && es[i] == Idle;
      SettledStep(ks[i], es[i], ks[i + 1]);
    }
  }

  lemma {:induction false} SubsetEqual(a: set<nat>, b: set<nat>)
    requires a <= b && |a| == |b|
    ensures a == b
  {
    assert |b - a| == 0;
  }
}
