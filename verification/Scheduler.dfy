/** The cooperative scheduler: priority first, then round robin, time advancing only when nothing is runnable. */
module Scheduler {
  import opened Bytes

  const MAX_TASKS: nat := 8
  const LOWEST: nat := 7
  const BUDGET_US: nat := 25000

  datatype TaskState = Unused | Ready | Running | Blocked | Sleeping | Terminated | Faulted

  /** A task control block; `hasEntry` says whether an entry point was registered. */
  datatype Task = Task(
    state: TaskState, priority: nat, period: nat, nextRun: nat, hasEntry: bool,
    executions: nat, faults: nat, lastUs: nat, worstUs: nat, deadlineMisses: nat, overruns: nat)

  const UNUSED_TASK := Task(Unused, LOWEST, 0, 0, false, 0, 0, 0, 0, 0, 0)

  datatype Kernel = Kernel(tick: nat, tasks: seq<Task>, cursor: nat, iterations: nat)

  /** The state after initialisation. */
  const INITIAL := Kernel(0, seq(MAX_TASKS, i => UNUSED_TASK), 0, 0)

  predicate WellFormed(k: Kernel) {
    && |k.tasks| == MAX_TASKS && k.cursor < MAX_TASKS && k.tick < WORD32
    && forall i {:trigger k.tasks[i]} :: 0 <= i < MAX_TASKS ==> k.tasks[i].priority <= LOWEST
  }

  // ----- what may be dispatched

  predicate Eligible(k: Kernel, i: int) {
    0 <= i < |k.tasks| && k.tasks[i].state.Ready? && k.tick >= k.tasks[i].nextRun
  }

  /** How far `i` lies after the cursor, going round. */
  function Distance(cursor: nat, i: nat): int {
    if i >= cursor then i - cursor else i + MAX_TASKS - cursor
  }

  /** Nothing eligible has a better priority, and nothing of the same priority comes sooner after the cursor. */
  ghost predicate IsChoice(k: Kernel, i: int) {
    && Eligible(k, i)
    && forall j {:trigger Eligible(k, j)} :: Eligible(k, j) ==>
         && k.tasks[i].priority <= k.tasks[j].priority
         && (k.tasks[i].priority == k.tasks[j].priority ==> Distance(k.cursor, i) <= Distance(k.cursor, j))
  }

  lemma {:induction false} ChoiceIsUnique(k: Kernel, i: int, j: int)
    requires WellFormed(k) && IsChoice(k, i) && IsChoice(k, j)
    ensures i == j
  {
  }

  // ----- the effect of one iteration

  function Served(t: Task, tick: nat, left: TaskState, us: nat): (r: Task)
    ensures r.priority == t.priority
  {
    var over := us > BUDGET_US;
    var t1 := t.(
      deadlineMisses := t.deadlineMisses + (if tick > t.nextRun then 1 else 0),
      executions := t.executions + 1,
      lastUs := us,
      worstUs := if us > t.worstUs then us else t.worstUs,
      overruns := t.overruns + (if over then 1 else 0),
      faults := t.faults + (if over then 1 else 0));
    if !left.Running? then t1.(state := left)
    else if t.period > 0 then t1.(nextRun := (tick + t.period) % WORD32, state := Sleeping)
    else t1.(nextRun := tick, state := Ready)
  }

  function Max(a: nat, b: nat): nat {
    if a > b then a else b
  }

  function Wake(t: Task, tick: nat): Task {
    if t.state.Sleeping? && tick >= t.nextRun then t.(state := Ready) else t
  }

  function WakeAll(tasks: seq<Task>, tick: nat): (r: seq<Task>)
    ensures |r| == |tasks| && forall i {:trigger r[i]} :: 0 <= i < |r| ==> r[i] == Wake(tasks[i], tick)
  {
    seq(|tasks|, i requires 0 <= i < |tasks| => Wake(tasks[i], tick))
  }

  function Ticked(k: Kernel): Kernel {
    var tick := (k.tick + 1) % WORD32;
    k.(tick := tick, tasks := WakeAll(k.tasks, tick))
  }

  function Registered(k: Kernel, id: nat, priority: nat, period: nat): Kernel
    requires id < |k.tasks|
  {
    k.(tasks := k.tasks[id :=
      Task(Ready, if priority > LOWEST then LOWEST else priority, period, k.tick, true, 0, 0, 0, 0, 0, 0)])
  }

  // ----- the code

  class Scheduler {
    var tick: nat
    const tasks: array<Task>
    var cursor: nat
    var iterations: nat

    ghost function State(): Kernel
      reads this, tasks
    {
      Kernel(tick, tasks[..], cursor, iterations)
    }

    ghost predicate Valid()
      reads this, tasks
    {
      WellFormed(State())
    }

    constructor ()
      ensures Valid() && fresh(tasks)
      ensures State() == INITIAL
      ensures tick == cursor == iterations == 0 && tasks.Length == 8
      ensures forall i :: 0 <= i < 8 ==> tasks[i] == Task(Unused, 7, 0, 0, false, 0, 0, 0, 0, 0, 0)
    {
      tasks := new Task[MAX_TASKS](i => UNUSED_TASK);
      tick, cursor, iterations := 0, 0, 0;
      new;
      assert tasks[..] == seq(MAX_TASKS, i => UNUSED_TASK);
    }

    /** Returns false, changing nothing, for an unknown task or a missing entry point. */
    method Register(id: nat, hasEntry: bool, priority: nat, period: nat) returns (ok: bool)
      requires Valid()
      modifies tasks
      ensures Valid()
      ensures ok == (id < 8 && hasEntry)
      ensures State() == if ok then Registered(old(State()), id, priority, period) else old(State())
      ensures ok ==>
                var t := tasks[id];
                && t.priority == (if priority <= 7 then priority else 7) && t.period == period
                && t.state.Ready? && t.hasEntry && t.nextRun == tick
                && t.executions == t.faults == t.lastUs == t.worstUs == t.deadlineMisses == t.overruns == 0
      ensures forall i :: 0 <= i < 8 && !(ok && i == id) ==> tasks[i] == old(tasks[i])
    {
      if id >= MAX_TASKS || !hasEntry {
        return false;
      }
      tasks[id] := Task(Ready, if priority > LOWEST then LOWEST else priority, period, tick, true, 0, 0, 0, 0, 0, 0);
      return true;
    }

    method Tick()
      requires Valid()
      modifies this`tick, tasks
      ensures Valid() && State() == Ticked(old(State())) && tick == (old(tick) + 1) % 0x1_0000_0000
      ensures forall i :: 0 <= i < 8 ==>
                tasks[i] == if old(tasks[i]).state.Sleeping? && tick >= old(tasks[i]).nextRun
                            then old(tasks[i]).(state := Ready) else old(tasks[i])
    {
      ghost var k := State();
      tick := (tick + 1) % WORD32;
      for i := 0 to MAX_TASKS
        invariant tick == (old(tick) + 1) % WORD32
        invariant forall j :: 0 <= j < MAX_TASKS ==> tasks[j] == if j < i then Wake(k.tasks[j], tick) else k.tasks[j]
      {
        if tasks[i].state.Sleeping? && tick >= tasks[i].nextRun {
          tasks[i] := tasks[i].(state := Ready);
        }
      }
      assert tasks[..] == WakeAll(k.tasks, tick);
    }

    /** The best priority among the eligible tasks, 255 if there are none. */
    method BestPriority() returns (best: nat)
      requires Valid()
      ensures best == 255 <==> forall i :: !Eligible(State(), i)
      ensures best != 255 ==> exists i :: Eligible(State(), i) && tasks[i].priority == best
      ensures forall i :: Eligible(State(), i) ==> best <= tasks[i].priority
    {
      best := 255;
      for i := 0 to MAX_TASKS
        invariant best == 255 <==> forall j :: 0 <= j < i ==> !Eligible(State(), j)
        invariant best != 255 ==> exists j :: 0 <= j < i && Eligible(State(), j) && tasks[j].priority == best
        invariant forall j :: 0 <= j < i && Eligible(State(), j) ==> best <= tasks[j].priority
      {
        assert State().tasks[i] == tasks[i];
        if tasks[i].state.Ready? && tick >= tasks[i].nextRun {
          assert Eligible(State(), i);
          if tasks[i].priority < best {
            best := tasks[i].priority;
          }
        }
      }
    }

    method SelectNext() returns (r: Option<nat>)
      requires Valid()
      modifies this`cursor
      ensures Valid()
      ensures r.None? <==> forall i :: !Eligible(old(State()), i)
      ensures r.Some? ==> IsChoice(old(State()), r.value)
      ensures cursor == if r.Some? then (r.value + 1) % 8 else old(cursor)
    {
      var best := BestPriority();
      if best == 255 {
        return None;
      }
      ghost var k := State();
      ghost var first :| Eligible(k, first) && tasks[first].priority == best;
      for offset := 0 to MAX_TASKS
        invariant cursor == old(cursor)
        invariant forall j :: Eligible(k, j) && tasks[j].priority == best ==> Distance(cursor, j) >= offset
      {
        var idx := (cursor + offset) % MAX_TASKS;
        RoundTrip(cursor, offset);
        if tasks[idx].state.Ready? && tick >= tasks[idx].nextRun && tasks[idx].priority == best {
          assert Eligible(k, idx);
          cursor := (idx + 1) % MAX_TASKS;
          return Some(idx);
        }
        forall j | Eligible(k, j) && tasks[j].priority == best
          ensures Distance(cursor, j) >= offset + 1
        {
          DistanceInjective(cursor, j, idx);
        }
      }
      assert false;
    }

    /** Runs the body of task `i` and updates its control block. */
    method Serve(i: nat, left: TaskState, us: nat)
      requires Valid() && i < MAX_TASKS
      modifies tasks
      ensures tasks[..] == old(tasks[..])[i := Served(old(tasks[i]), tick, left, us)]
    {
      var t := tasks[i];
      if tick > t.nextRun {
        t := t.(deadlineMisses := t.deadlineMisses + 1);
      }
      t := t.(state := Running);
      t := t.(state := left);
      t := t.(lastUs := us);
      if us > t.worstUs {
        t := t.(worstUs := us);
      }
      if us > BUDGET_US {
        t := t.(overruns := t.overruns + 1, faults := t.faults + 1);
      }
      t := t.(executions := t.executions + 1);
      if t.state.Running? {
        if t.period > 0 {
          t := t.(nextRun := (tick + t.period) % WORD32, state := Sleeping);
        } else {
          t := t.(nextRun := tick, state := Ready);
        }
      }
      tasks[i] := t;
    }

    /** One turn of the main loop. `left` is the state in which the task's body leaves its own block (`Running` if it
        does not touch it); the two times bracket the body. */
    method RunIteration(left: TaskState, startUs: nat, endUs: nat) returns (event: Event)
      requires Valid()
      modifies this, tasks
      ensures Valid() && Step(old(State()), event, State())
      ensures event.Dispatched? ==>
                && event.left == left && event.id < 8
                && event.us == (if endUs >= startUs then (endUs - startUs) % 0x1_0000_0000 else 0)
                && tick == old(tick) && tasks[event.id] == old(tasks[event.id]).(
                     state := tasks[event.id].state, nextRun := tasks[event.id].nextRun,
                     executions := old(tasks[event.id]).executions + 1, lastUs := event.us,
                     worstUs := Max(old(tasks[event.id]).worstUs, event.us),
                     deadlineMisses := old(tasks[event.id]).deadlineMisses
                                       + (if tick > old(tasks[event.id]).nextRun then 1 else 0),
                     overruns := old(tasks[event.id]).overruns + (if event.us > 25000 then 1 else 0),
                     faults := old(tasks[event.id]).faults + (if event.us > 25000 then 1 else 0))
      ensures event.Dispatched? && left.Running? ==>
                var t, p := tasks[event.id], old(tasks[event.id]).period;
                if p > 0 then t.state.Sleeping? && t.nextRun == (tick + p) % 0x1_0000_0000
                else t.state.Ready? && t.nextRun == tick
      ensures event.Dispatched? && !left.Running? ==>
                tasks[event.id].state == left && tasks[event.id].nextRun == old(tasks[event.id]).nextRun
      ensures event.Idle? ==> tick == (old(tick) + 1) % 0x1_0000_0000
      ensures iterations == old(iterations) + 1
    {
      hide IsChoice, WakeAll, Served;
      var next := SelectNext();
      if next.Some? && tasks[next.value].hasEntry {
        var i := next.value;
        var us := if endUs >= startUs then (endUs - startUs) % WORD32 else 0;
        ServedFields(tasks[i], tick, left, us);
        Serve(i, left, us);
        event := Dispatched(i, left, us);
      } else {
        Tick();
        event := Idle;
      }
      iterations := iterations + 1;
    }
  }

  lemma {:induction false} ServedFields(t: Task, tick: nat, left: TaskState, us: nat)
    ensures var u := Served(t, tick, left, us);
            && u == t.(state := u.state, nextRun := u.nextRun, executions := t.executions + 1, lastUs := us,
                       worstUs := Max(t.worstUs, us),
                       deadlineMisses := t.deadlineMisses + (if tick > t.nextRun then 1 else 0),
                       overruns := t.overruns + (if us > 25000 then 1 else 0),
                       faults := t.faults + (if us > 25000 then 1 else 0))
            && (left.Running? ==>
                  if t.period > 0 then u.state.Sleeping? && u.nextRun == (tick + t.period) % 0x1_0000_0000
                  else u.state.Ready? && u.nextRun == tick)
            && (!left.Running? ==> u.state == left && u.nextRun == t.nextRun)
  {
  }

  lemma {:induction false} RoundTrip(cursor: nat, offset: nat)
    requires cursor < MAX_TASKS && offset < MAX_TASKS
    ensures Distance(cursor, (cursor + offset) % MAX_TASKS) == offset
  {
  }

  lemma {:induction false} DistanceInjective(cursor: nat, i: nat, j: nat)
    requires cursor < MAX_TASKS && i < MAX_TASKS && j < MAX_TASKS
    ensures Distance(cursor, i) == Distance(cursor, j) ==> i == j
  {
  }

  // ----- runs

  /** What happened between two states: an idle turn, a dispatch, or a registration between turns. */
  datatype Event =
    | Idle
    | Dispatched(id: nat, left: TaskState, us: nat)
    | NewTask(task: nat, priority: nat, period: nat)

  ghost predicate Step(k: Kernel, event: Event, k': Kernel) {
    match event
    case Idle =>
      || ((forall i :: !Eligible(k, i)) && k' == Ticked(k).(iterations := k.iterations + 1))
      || exists i :: IsChoice(k, i) && !k.tasks[i].hasEntry
                     && k' == Ticked(k).(cursor := (i + 1) % MAX_TASKS, iterations := k.iterations + 1)
    case Dispatched(id, left, us) =>
      && IsChoice(k, id) && k.tasks[id].hasEntry
      && k' == k.(tasks := k.tasks[id := Served(k.tasks[id], k.tick, left, us)],
                  cursor := (id + 1) % MAX_TASKS, iterations := k.iterations + 1)
    case NewTask(id, priority, period) =>
      id < |k.tasks| && k' == Registered(k, id, priority, period)
  }
}
