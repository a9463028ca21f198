// Task table, timer tick and round-robin choice: src/task.rs and src/timer.rs.

module Scheduler {
  import opened Wrappers

  const MAX_TASKS := 256
  const MAX_USER_FRAMES := 32
  const MS_PER_TICK := 10

  datatype TaskState = Unused | Ready | Running | Sleeping

  /** A task slot; `frames` are the tracked user data frames (at most MAX_USER_FRAMES). */
  datatype Task = Task(savedSp: nat, state: TaskState, root: nat, frames: seq<nat>, wakeTick: nat)

  const UNUSED_TASK := Task(0, Unused, 0, [], 0)

  /** The scheduler's globals: TASKS, CURRENT_TASK, TICKS, and the loaded page-table root. */
  datatype Sched = Sched(tasks: seq<Task>, current: nat, ticks: nat, cr3: nat)

  ghost predicate Shape(s: Sched) {
    |s.tasks| == MAX_TASKS && s.current < MAX_TASKS
  }

  /** Only the current task can be Running, and the CPU runs under its page tables; after an exit
      it runs under the kernel's until the next switch. */
  ghost predicate Inv(s: Sched) {
    && Shape(s)
    && s.tasks[0].state != Unused
    && (forall i :: 0 <= i < MAX_TASKS && i != s.current ==> s.tasks[i].state != Running)
    && s.cr3 == s.tasks[if s.tasks[s.current].state == Unused then 0 else s.current].root
  }

  // ---- The steps as functions on the scheduler's state ----

  function MsToTicks(ms: nat): nat { (ms + MS_PER_TICK - 1) / MS_PER_TICK }

  function Woken(t: Task, i: nat, now: nat): Task {
    if i >= 1 && t.state == Sleeping && now >= t.wakeTick then t.(state := Ready) else t
  }

  function WakeAll(tasks: seq<Task>, now: nat): seq<Task> {
    seq(|tasks|, i requires 0 <= i < |tasks| => Woken(tasks[i], i, now))
  }

  /** The k-th slot tried after `current`. */
  function Slot(current: nat, k: nat): nat { (current + 1 + k) % MAX_TASKS }

  /** Going round: the slot after the k-th is the next one, and the first again after all of them. */
  lemma SlotAfter(current: nat, k: nat)
    requires current < MAX_TASKS && k < MAX_TASKS
    ensures (Slot(current, k) + 1) % MAX_TASKS == Slot(current, k + 1)
    ensures Slot(current, k + 1) == (current + 1) % MAX_TASKS <==> k + 1 == MAX_TASKS
    ensures Slot(current, 0) == (current + 1) % MAX_TASKS
  {
    Wrapped(current + 1 + k);
    Wrapped(current + 2 + k);
    Wrapped(current + 1);
    Wrapped(Slot(current, k) + 1);
  }

  lemma Wrapped(x: nat)
    requires x <= 2 * MAX_TASKS
    ensures x % MAX_TASKS == if x < MAX_TASKS then x else if x < 2 * MAX_TASKS then x - MAX_TASKS else 0
  {
  }

  /** The first Ready slot among those tried from the k-th on; slot 0 when there is none. */
  function Search(tasks: seq<Task>, current: nat, k: nat): nat
    requires |tasks| == MAX_TASKS && k <= MAX_TASKS
    decreases MAX_TASKS - k
  {
    if k == MAX_TASKS then 0
    else if tasks[Slot(current, k)].state == Ready then Slot(current, k)
    else Search(tasks, current, k + 1)
  }

  predicate IsSwitch(now: nat) { now != 0 && now % 10 == 0 }

  /** timer_handler_rust: the new state and the stack pointer it returns. */
  function Tick(s: Sched, sp: nat): (Sched, nat)
    requires |s.tasks| == MAX_TASKS && s.current < MAX_TASKS
  {
    var now := s.ticks + 1;
    var woken := WakeAll(s.tasks, now);
    if !IsSwitch(now) then (s.(tasks := woken, ticks := now), sp)
    else Switch(s.(tasks := woken, ticks := now), sp)
  }

  function Parked(t: Task, sp: nat): Task {
    t.(savedSp := sp, state := if t.state == Running then Ready else t.state)
  }

  function Switch(s: Sched, sp: nat): (Sched, nat)
    requires |s.tasks| == MAX_TASKS && s.current < MAX_TASKS
  {
    var parked := s.tasks[s.current := Parked(s.tasks[s.current], sp)];
    var next := Search(parked, s.current, 0);
    SearchInRange(parked, s.current, 0);
    var tasks := parked[next := parked[next].(state := Running)];
    if next == s.current then (s.(tasks := tasks), sp)
    else (s.(tasks := tasks, current := next, cr3 := tasks[next].root), tasks[next].savedSp)
  }

  lemma SearchInRange(tasks: seq<Task>, current: nat, k: nat)
    requires |tasks| == MAX_TASKS && k <= MAX_TASKS
    ensures Search(tasks, current, k) < MAX_TASKS
    decreases MAX_TASKS - k
  {
  }

  datatype Step =
    | TickStep(sp: nat) | SleepStep(ms: nat) | YieldStep | ExitStep
    | SpawnStep(root: nat, sp: nat, frames: seq<nat>)

  /** Code of the current task executes only while it is Running, or Ready after being woken in place. */
  predicate Executing(s: Sched)
    requires |s.tasks| == MAX_TASKS && s.current < MAX_TASKS
  {
    s.tasks[s.current].state == Running || s.tasks[s.current].state == Ready
  }

  /** The first unused slot from 1 on. */
  function FreeSlot(tasks: seq<Task>, i: nat): (r: Option<nat>)
    requires |tasks| == MAX_TASKS && 1 <= i <= MAX_TASKS
    ensures r.Some? ==> i <= r.value < MAX_TASKS && tasks[r.value].state == Unused
    ensures r.None? ==> forall j :: i <= j < MAX_TASKS ==> tasks[j].state != Unused
    decreases MAX_TASKS - i
  {
    if i == MAX_TASKS then None
    else if tasks[i].state == Unused then Some(i)
    else FreeSlot(tasks, i + 1)
  }

  function Spawned(t: Task, root: nat, sp: nat, frames: seq<nat>): Task {
    t.(root := root, savedSp := sp, state := Ready, frames := frames[..Min(|frames|, MAX_USER_FRAMES)])
  }

  /** timer::sleep_ms, up to the halt. */
  function Sleep(s: Sched, ms: nat): Sched
    requires |s.tasks| == MAX_TASKS && s.current < MAX_TASKS
  {
    s.(tasks := s.tasks[s.current := s.tasks[s.current].(state := Sleeping, wakeTick := s.ticks + MsToTicks(ms))])
  }

  /** syscall_yield, up to the halt. */
  function Yield(s: Sched): Sched
    requires |s.tasks| == MAX_TASKS && s.current < MAX_TASKS
  {
    s.(tasks := s.tasks[s.current := s.tasks[s.current].(state := Ready)])
  }

  /** exit_current_task, as far as the task table goes. */
  function Exit(s: Sched): Sched
    requires |s.tasks| == MAX_TASKS && s.current < MAX_TASKS
  {
    if s.current == 0 then s
    else s.(tasks := s.tasks[s.current := s.tasks[s.current].(state := Unused)], cr3 := s.tasks[0].root)
  }

  /** spawn_userspace; nothing happens when no slot is free. */
  function Spawn(s: Sched, root: nat, sp: nat, frames: seq<nat>): Sched
    requires |s.tasks| == MAX_TASKS && s.current < MAX_TASKS
  {
    var slot := FreeSlot(s.tasks, 1);
    if slot.None? then s
    else s.(tasks := s.tasks[slot.value := Spawned(s.tasks[slot.value], root, sp, frames)])
  }

  /** One step of the system; a step of a task that is not executing changes nothing. */
  function Do(s: Sched, step: Step): Sched
    requires |s.tasks| == MAX_TASKS && s.current < MAX_TASKS
  {
    match step
    case TickStep(sp) => Tick(s, sp).0
    case SleepStep(ms) => if Executing(s) then Sleep(s, ms) else s
    case YieldStep => if Executing(s) then Yield(s) else s
    case ExitStep => if Executing(s) then Exit(s) else s
    case SpawnStep(root, sp, frames) => if Executing(s) then Spawn(s, root, sp, frames) else s
  }

  lemma SwitchKeeps(s: Sched, sp: nat)
    requires Inv(s)
    ensures Inv(Switch(s, sp).0)
    ensures var s' := Switch(s, sp).0; s'.tasks[s'.current].state == Running && s'.cr3 == s'.tasks[s'.current].root
  {
    var parked := s.tasks[s.current := Parked(s.tasks[s.current], sp)];
    SearchInRange(parked, s.current, 0);
    SearchReady(parked, s.current, 0);
  }

  /** Search finds a Ready slot, or falls back to slot 0. */
  lemma {:induction false} SearchReady(tasks: seq<Task>, current: nat, k: nat)
    requires |tasks| == MAX_TASKS && k <= MAX_TASKS && current < MAX_TASKS
    ensures var next := Search(tasks, current, k); next == 0 || (next < MAX_TASKS && tasks[next].state == Ready)
    decreases MAX_TASKS - k
  {
    if k < MAX_TASKS {
      SearchReady(tasks, current, k + 1);
    }
  }

  /** Every step keeps the invariant. */
  lemma DoKeeps(s: Sched, step: Step)
    requires Inv(s)
    ensures Inv(Do(s, step))
  {
    hide Search;
    match step
    case TickStep(sp) =>
      var now := s.ticks + 1;
      var s1 := s.(tasks := WakeAll(s.tasks, now), ticks := now);
      assert Inv(s1);
      if IsSwitch(now) {
        SwitchKeeps(s1, sp);
      }
    case _ =>
  }

  // ---- Runs ----

  ghost function Run(s: Sched, steps: seq<Step>): Sched
    requires Inv(s)
    ensures Inv(Run(s, steps))
    decreases |steps|
  {
    if steps == [] then s
    else
      DoKeeps(s, steps[0]);
      Run(Do(s, steps[0]), steps[1..])
  }

  lemma RunPrefix(s: Sched, steps: seq<Step>, k: nat)
    requires Inv(s) && steps != [] && k <= |steps| - 1
    ensures Inv(Do(s, steps[0]))
    ensures Run(s, steps[..k + 1]) == Run(Do(s, steps[0]), steps[1..][..k])
    ensures k == 0 ==> Run(s, steps[..k + 1]) == Do(s, steps[0])
  {
    hide Do;
    DoKeeps(s, steps[0]);
    assert steps[..k + 1][1..] == steps[1..][..k];
  }

  function TickCount(steps: seq<Step>): nat {
    if steps == [] then 0 else (if steps[0].TickStep? then 1 else 0) + TickCount(steps[1..])
  }

  predicate Switches(s: Sched, step: Step) { step.TickStep? && IsSwitch(s.ticks + 1) }

  /** The number of context-switch ticks in a run. */
  ghost function SwitchCount(s: Sched, steps: seq<Step>): nat
    requires Inv(s)
    decreases |steps|
  {
    if steps == [] then 0
    else
      DoKeeps(s, steps[0]);
      (if Switches(s, steps[0]) then 1 else 0) + SwitchCount(Do(s, steps[0]), steps[1..])
  }

  /** Every tenth tick is a switch tick. */
  lemma {:induction false} SwitchEveryTen(s: Sched, steps: seq<Step>)
    requires Inv(s)
    ensures SwitchCount(s, steps) == (s.ticks + TickCount(steps)) / 10 - s.ticks / 10
    decreases |steps|
  {
    hide Inv, Do;
    CurrentInRange(s);
    if steps != [] {
      DoKeeps(s, steps[0]);
      DoTicks(s, steps[0]);
      SwitchEveryTen(Do(s, steps[0]), steps[1..]);
    }
  }

  lemma DoTicks(s: Sched, step: Step)
    requires Inv(s)
    ensures Do(s, step).ticks == s.ticks + if step.TickStep? then 1 else 0
  {
    hide Search;
  }

  // ---- No starvation ----

  /** The number of slots from `current` round to t. */
  function Distance(current: nat, t: nat): nat
    requires current < MAX_TASKS && t < MAX_TASKS
  {
    if t > current then t - current else t + MAX_TASKS - current
  }

  /** The search stops at t or before it. */
  lemma {:induction false} SearchBefore(tasks: seq<Task>, current: nat, t: nat, k: nat)
    requires |tasks| == MAX_TASKS && current < MAX_TASKS && t < MAX_TASKS && t != current
    requires tasks[t].state == Ready && k < Distance(current, t)
    ensures var next := Search(tasks, current, k);
            next < MAX_TASKS && next != current && (next == t || Distance(next, t) < Distance(current, t))
    decreases MAX_TASKS - k
  {
    if tasks[Slot(current, k)].state != Ready {
      SearchBefore(tasks, current, t, k + 1);
    }
  }

  lemma SlotDistance(current: nat, k: nat)
    requires current < MAX_TASKS && k < MAX_TASKS
    ensures Slot(current, k) < MAX_TASKS && Distance(current, Slot(current, k)) == k + 1
  {
    Wrapped(current + 1 + k);
  }

  lemma DistanceSlot(current: nat, i: nat)
    requires current < MAX_TASKS && i < MAX_TASKS
    ensures 1 <= Distance(current, i) <= MAX_TASKS && Slot(current, Distance(current, i) - 1) == i
  {
    Wrapped(current + Distance(current, i));
  }

  /** The search finds the Ready slot that comes first, the current one last; slot 0 if none is Ready. */
  lemma {:induction false} SearchFirst(tasks: seq<Task>, current: nat, k: nat)
    requires |tasks| == MAX_TASKS && current < MAX_TASKS && k <= MAX_TASKS
    requires forall j :: 0 <= j < k ==> tasks[Slot(current, j)].state != Ready
    ensures var next := Search(tasks, current, k);
            && next < MAX_TASKS
            && (forall i :: 0 <= i < MAX_TASKS && tasks[i].state == Ready ==>
                  tasks[next].state == Ready && Distance(current, next) <= Distance(current, i))
            && ((forall i :: 0 <= i < MAX_TASKS ==> tasks[i].state != Ready) ==> next == 0)
    decreases MAX_TASKS - k
  {
    hide Slot, Distance;
    forall i | 0 <= i < MAX_TASKS && tasks[i].state == Ready
      ensures Distance(current, i) > k
    {
      DistanceSlot(current, i);
    }
    if k < MAX_TASKS {
      SlotDistance(current, k);
      if tasks[Slot(current, k)].state != Ready {
        SearchFirst(tasks, current, k + 1);
      }
    } else {
      forall i | 0 <= i < MAX_TASKS ensures tasks[i].state != Ready {
        DistanceSlot(current, i);
      }
    }
  }

  /** One step: t is dispatched, or stays Ready and a switch tick brings it closer. */
  lemma StepTowards(s: Sched, step: Step, t: nat)
    requires Inv(s) && t < MAX_TASKS && t != s.current && s.tasks[t].state == Ready
    ensures var s' := Do(s, step);
            || (s'.current == t && s'.tasks[t].state == Running)
            || (&& s'.current != t && s'.current < MAX_TASKS && |s'.tasks| == MAX_TASKS && s'.tasks[t].state == Ready
                && Distance(s'.current, t) + (if Switches(s, step) then 1 else 0) <= Distance(s.current, t))
  {
    hide Search, Distance;
    if Switches(s, step) {
      var now := s.ticks + 1;
      var s1 := s.(tasks := WakeAll(s.tasks, now), ticks := now);
      SwitchTowards(s1, step.sp, t);
    }
  }

  lemma SwitchTowards(s: Sched, sp: nat, t: nat)
    requires Shape(s) && t < MAX_TASKS && t != s.current && s.tasks[t].state == Ready
    ensures var s' := Switch(s, sp).0;
            || (s'.current == t && s'.tasks[t].state == Running)
            || (&& s'.current != t && s'.current < MAX_TASKS && |s'.tasks| == MAX_TASKS && s'.tasks[t].state == Ready
                && Distance(s'.current, t) + 1 <= Distance(s.current, t))
  {
    hide Search, Distance;
    var parked := s.tasks[s.current := Parked(s.tasks[s.current], sp)];
    assert parked[t].state == Ready;
    DistancePositive(s.current, t);
    SearchBefore(parked, s.current, t, 0);
  }

  lemma DistancePositive(current: nat, t: nat)
    requires current < MAX_TASKS && t < MAX_TASKS && t != current
    ensures 0 < Distance(current, t) < MAX_TASKS
  {
  }

  /** No starvation: whatever the other tasks do, a Ready task is dispatched within as many
      switch ticks as there are slots from the current one to it (at most 255). */
  lemma {:induction false} NoStarvation(s: Sched, steps: seq<Step>, t: nat)
    requires Inv(s) && t < MAX_TASKS && t != s.current && s.tasks[t].state == Ready
    requires SwitchCount(s, steps) >= Distance(s.current, t)
    ensures exists k :: 0 <= k <= |steps| && Dispatched(s, steps, t, k)
    decreases |steps|
  {
    if steps != [] {
      DoKeeps(s, steps[0]);
      StepTowards(s, steps[0], t);
      var s' := Do(s, steps[0]);
      if s'.current == t {
        RunPrefix(s, steps, 0);
        assert Dispatched(s, steps, t, 1);
      } else {
        NoStarvation(s', steps[1..], t);
        var k :| 0 <= k <= |steps[1..]| && Dispatched(s', steps[1..], t, k);
        RunPrefix(s, steps, k);
        assert Dispatched(s, steps, t, k + 1);
      }
    }
  }

  ghost predicate Dispatched(s: Sched, steps: seq<Step>, t: nat, k: nat)
    requires Inv(s) && k <= |steps| && t < MAX_TASKS
  {
    var s' := Run(s, steps[..k]);
    s'.current == t && s'.tasks[t].state == Running
  }

  /** In ticks: at most 2550 of them. */
  lemma DispatchedInTime(s: Sched, steps: seq<Step>, t: nat)
    requires Inv(s) && t < MAX_TASKS && t != s.current && s.tasks[t].state == Ready
    requires TickCount(steps) >= 2550
    ensures exists k :: 0 <= k <= |steps| && Dispatched(s, steps, t, k)
  {
    SwitchEveryTen(s, steps);
    NoStarvation(s, steps, t);
  }

  // ---- Sleep ----

  /** A sleeping task is woken neither before its tick nor by anything else. */
  lemma {:induction false} SleepsUntil(s: Sched, steps: seq<Step>, t: nat)
    requires Inv(s) && 1 <= t < MAX_TASKS && s.tasks[t].state == Sleeping
    requires s.ticks + TickCount(steps) < s.tasks[t].wakeTick
    ensures Run(s, steps).tasks[t].state == Sleeping
    decreases |steps|
  {
    if steps != [] {
      DoKeeps(s, steps[0]);
      SleepStepKeeps(s, steps[0], t);
      SleepsUntil(Do(s, steps[0]), steps[1..], t);
    }
  }

  /** Sleeping for some milliseconds lasts at least that long, in ticks of ten. */
  lemma SleepLasts(s: Sched, ms: nat, steps: seq<Step>)
    requires Inv(s) && s.current >= 1 && Executing(s) && MS_PER_TICK * TickCount(steps) < ms
    ensures Inv(Sleep(s, ms)) && Run(Sleep(s, ms), steps).tasks[s.current].state == Sleeping
  {
    DoKeeps(s, SleepStep(ms));
    SleepsUntil(Sleep(s, ms), steps, s.current);
  }

  /** And no longer than rounding up to a tick makes it. */
  lemma SleepEnds(s: Sched, ms: nat)
    requires Inv(s)
    ensures MS_PER_TICK * (Sleep(s, ms).tasks[s.current].wakeTick - s.ticks) < ms + MS_PER_TICK
  {
  }

  lemma SleepStepKeeps(s: Sched, step: Step, t: nat)
    requires Inv(s) && 1 <= t < MAX_TASKS && s.tasks[t].state == Sleeping
    ensures var s' := Do(s, step);
            && |s'.tasks| == MAX_TASKS && s'.ticks == s.ticks + TickCount([step])
            && (if s'.ticks < s.tasks[t].wakeTick || !step.TickStep?
                then s'.tasks[t] == s.tasks[t].(savedSp := s'.tasks[t].savedSp)
                else s'.tasks[t].state == Ready || (s'.current == t && s'.tasks[t].state == Running))
  {
    hide Search;
    if Switches(s, step) {
      var now := s.ticks + 1;
      var woken := WakeAll(s.tasks, now);
      var parked := woken[s.current := Parked(woken[s.current], step.sp)];
      SearchReady(parked, s.current, 0);
      SearchInRange(parked, s.current, 0);
      assert parked[t].state == Woken(s.tasks[t], t, now).state;
    }
  }

  /** t is the current task and its code executes after the first k steps. */
  ghost predicate Executes(s: Sched, steps: seq<Step>, t: nat, k: nat)
    requires Inv(s) && k <= |steps|
  {
    var s' := Run(s, steps[..k]);
    s'.current == t && Executing(s')
  }

  /** The tick that wakes a sleeper: its wake tick, or the next one when that is past. */
  function WakesAt(s: Sched, t: nat): nat
    requires t < |s.tasks|
  {
    if s.tasks[t].wakeTick > s.ticks then s.tasks[t].wakeTick else s.ticks + 1
  }

  /** A sleeper executes again at most 2550 ticks after the tick that wakes it. */
  lemma {:induction false} SleeperRuns(s: Sched, steps: seq<Step>, t: nat)
    requires Inv(s) && 1 <= t < MAX_TASKS && s.tasks[t].state == Sleeping
    requires s.ticks + TickCount(steps) >= WakesAt(s, t) + 2550
    ensures exists k :: 0 <= k <= |steps| && Executes(s, steps, t, k)
    decreases |steps|
  {
    hide Inv, Do;
    CurrentInRange(s);
    DoKeeps(s, steps[0]);
    SleepStepKeeps(s, steps[0], t);
    var s', rest := Do(s, steps[0]), steps[1..];
    assert TickCount([steps[0]]) == if steps[0].TickStep? then 1 else 0;
    ghost var k;
    if s'.tasks[t].state == Sleeping {
      SleeperRuns(s', rest, t);
      k :| 0 <= k <= |rest| && Executes(s', rest, t, k);
    } else if s'.current == t {
      k := 0;
    } else {
      CurrentInRange(s');
      DispatchedInTime(s', rest, t);
      k :| 0 <= k <= |rest| && Dispatched(s', rest, t, k);
    }
    RunPrefix(s, steps, k);
    assert Executes(s, steps, t, k + 1);
  }

  lemma CurrentInRange(s: Sched)
    requires Inv(s)
    ensures s.current < MAX_TASKS && |s.tasks| == MAX_TASKS
  {
  }

  // ---- Context integrity ----

  /** A stack pointer recorded for a task: at a switch away from it, or when it is spawned. */
  datatype Saved = Saved(task: nat, sp: nat)

  function Records(s: Sched, step: Step): seq<Saved>
    requires |s.tasks| == MAX_TASKS && s.current < MAX_TASKS
  {
    match step
    case TickStep(sp) => if Switches(s, step) then [Saved(s.current, sp)] else []
    case SpawnStep(_, sp, _) =>
      var slot := FreeSlot(s.tasks, 1);
      if Executing(s) && slot.Some? then [Saved(slot.value, sp)] else []
    case _ => []
  }

  ghost function Log(s: Sched, steps: seq<Step>): seq<Saved>
    requires Inv(s)
    decreases |steps|
  {
    if steps == [] then []
    else
      DoKeeps(s, steps[0]);
      Records(s, steps[0]) + Log(Do(s, steps[0]), steps[1..])
  }

  /** The last stack pointer recorded for t, or `before` when there is none. */
  function LastSaved(log: seq<Saved>, t: nat, before: nat): nat {
    if log == [] then before
    else LastSaved(log[1..], t, if log[0].task == t then log[0].sp else before)
  }

  /** A step changes a saved stack pointer only by recording it. */
  lemma StepSaves(s: Sched, step: Step, t: nat)
    requires Inv(s) && t < MAX_TASKS
    ensures |Do(s, step).tasks| == MAX_TASKS
    ensures Do(s, step).tasks[t].savedSp == LastSaved(Records(s, step), t, s.tasks[t].savedSp)
  {
    hide Search;
    if Switches(s, step) {
      var now := s.ticks + 1;
      var woken := WakeAll(s.tasks, now);
      var parked := woken[s.current := Parked(woken[s.current], step.sp)];
      SearchInRange(parked, s.current, 0);
      assert parked[t].savedSp == if t == s.current then step.sp else s.tasks[t].savedSp;
    }
    assert LastSaved([], t, s.tasks[t].savedSp) == s.tasks[t].savedSp;
  }

  lemma {:induction false} LastSavedAppend(a: seq<Saved>, b: seq<Saved>, t: nat, before: nat)
    ensures LastSaved(a + b, t, before) == LastSaved(b, t, LastSaved(a, t, before))
  {
    if a == [] {
      assert a + b == b;
    } else {
      assert (a + b)[1..] == a[1..] + b;
      LastSavedAppend(a[1..], b, t, if a[0].task == t then a[0].sp else before);
    }
  }

  lemma {:induction false} RunSaves(s: Sched, steps: seq<Step>, t: nat)
    requires Inv(s) && t < MAX_TASKS
    ensures |Run(s, steps).tasks| == MAX_TASKS
    ensures Run(s, steps).tasks[t].savedSp == LastSaved(Log(s, steps), t, s.tasks[t].savedSp)
    decreases |steps|
  {
    hide Inv, Do, Records;
    CurrentInRange(s);
    if steps != [] {
      DoKeeps(s, steps[0]);
      StepSaves(s, steps[0], t);
      RunSaves(Do(s, steps[0]), steps[1..], t);
      LastSavedAppend(Records(s, steps[0]), Log(Do(s, steps[0]), steps[1..]), t, s.tasks[t].savedSp);
    }
  }

  /** Whatever happened before, a switch tick resumes the task it picks from the stack pointer
      last recorded for it, Running and under its own page tables; only that task is Running. */
  lemma ContextIntegrity(s: Sched, steps: seq<Step>, sp: nat)
    requires Inv(s) && IsSwitch(Run(s, steps).ticks + 1)
    ensures var s1 := Run(s, steps);
            var (s2, out) := Tick(s1, sp);
            && Inv(s2) && s2.tasks[s2.current].state == Running && s2.cr3 == s2.tasks[s2.current].root
            && out == LastSaved(Log(s, steps) + [Saved(s1.current, sp)], s2.current, s.tasks[s2.current].savedSp)
  {
    hide Search, Run, Log;
    var s1 := Run(s, steps);
    var now := s1.ticks + 1;
    var s1' := s1.(tasks := WakeAll(s1.tasks, now), ticks := now);
    assert Inv(s1');
    SwitchKeeps(s1', sp);
    var s2 := Tick(s1, sp).0;
    var t := s2.current;
    RunSaves(s, steps, t);
    LastSavedAppend(Log(s, steps), [Saved(s1.current, sp)], t, s.tasks[t].savedSp);
    assert [Saved(s1.current, sp)][1..] == [];
  }

  /** Between switches: a tick leaves the current task, its page tables and every saved stack pointer alone
      and returns the pointer it was handed. At a switch, too, a task that goes on running goes on
      from that pointer. So after any run the interrupted task resumes where it was interrupted,
      unless another one takes its place. */
  lemma TickResumes(s: Sched, steps: seq<Step>, sp: nat)
    requires Inv(s)
    ensures var s1 := Run(s, steps);
            var (s2, out) := Tick(s1, sp);
            && |s2.tasks| == |s1.tasks| == MAX_TASKS && s2.current < MAX_TASKS && s2.ticks == s1.ticks + 1
            && (s2.current == s1.current ==> out == sp && s2.cr3 == s1.cr3)
            && (s2.ticks % 10 != 0 ==>
                  && s2.current == s1.current
                  && forall i :: 0 <= i < MAX_TASKS ==> s2.tasks[i].savedSp == s1.tasks[i].savedSp)
            && (s2.current != s1.current ==> out == s1.tasks[s2.current].savedSp)
  {
    hide Run, Tick;
    TickKeeps(Run(s, steps), sp);
  }

  lemma TickKeeps(s: Sched, sp: nat)
    requires Shape(s)
    ensures var (s', out) := Tick(s, sp);
            && |s'.tasks| == MAX_TASKS && s'.ticks == s.ticks + 1 && s'.current < MAX_TASKS
            && (s'.current == s.current ==> out == sp && s'.cr3 == s.cr3)
            && (s'.ticks % 10 != 0 ==>
                  && s'.current == s.current
                  && forall i :: 0 <= i < MAX_TASKS ==> s'.tasks[i].savedSp == s.tasks[i].savedSp)
            && (s'.current != s.current ==> out == s.tasks[s'.current].savedSp)
  {
    hide Search;
    var now := s.ticks + 1;
    var woken := WakeAll(s.tasks, now);
    assert |woken| == MAX_TASKS && forall i :: 0 <= i < MAX_TASKS ==> woken[i].savedSp == s.tasks[i].savedSp;
    hide WakeAll;
    if IsSwitch(now) {
      SearchInRange(woken[s.current := Parked(woken[s.current], sp)], s.current, 0);
    }
  }

  // ---- Yield ----

  /** t takes no step of its own while it waits to be Running: syscall_yield halts until then. */
  ghost predicate Halts(s: Sched, steps: seq<Step>, t: nat)
    requires Inv(s) && t < MAX_TASKS
  {
    forall k :: 0 <= k < |steps| ==>
      var s' := Run(s, steps[..k]); s'.current == t && s'.tasks[t].state == Ready ==> steps[k].TickStep?
  }

  lemma HaltsOn(s: Sched, steps: seq<Step>, t: nat)
    requires Inv(s) && t < MAX_TASKS && steps != [] && Halts(s, steps, t)
    ensures Inv(Do(s, steps[0])) && Halts(Do(s, steps[0]), steps[1..], t)
    ensures s.current == t && s.tasks[t].state == Ready ==> steps[0].TickStep?
  {
    hide Do, Inv;
    CurrentInRange(s);
    assert Run(s, steps[..0]) == s;
    DoKeeps(s, steps[0]);
    var s', rest := Do(s, steps[0]), steps[1..];
    forall k | 0 <= k < |rest|
      ensures var s2 := Run(s', rest[..k]);
              |s2.tasks| == MAX_TASKS && (s2.current == t && s2.tasks[t].state == Ready ==> rest[k].TickStep?)
    {
      RunPrefix(s, steps, k);
      CurrentInRange(Run(s', rest[..k]));
      assert steps[k + 1] == rest[k];
    }
  }

  /** A task that has yielded runs again after at most 255 further switches: it is dispatched within the
      ticks up to the next switch and 2550 more, whatever the other tasks do. */
  lemma {:induction false} YielderRuns(s: Sched, steps: seq<Step>, t: nat)
    requires Inv(s) && t < MAX_TASKS && s.current == t && s.tasks[t].state == Ready && Halts(s, steps, t)
    requires TickCount(steps) >= 10 - s.ticks % 10 + 2550
    ensures exists k :: 0 <= k <= |steps| && Dispatched(s, steps, t, k)
    decreases |steps|
  {
    hide Do, Inv;
    CurrentInRange(s);
    HaltsOn(s, steps, t);
    WaitingTick(s, steps[0].sp);
    var s', rest := Do(s, steps[0]), steps[1..];
    ghost var k;
    if s'.current == t && s'.tasks[t].state == Running {
      k := 0;
      assert Run(s', rest[..0]) == s';
    } else if s'.current == t {
      YielderRuns(s', rest, t);
      k :| 0 <= k <= |rest| && Dispatched(s', rest, t, k);
    } else {
      CurrentInRange(s');
      DispatchedInTime(s', rest, t);
      k :| 0 <= k <= |rest| && Dispatched(s', rest, t, k);
    }
    RunPrefix(s, steps, k);
    assert Dispatched(s, steps, t, k + 1);
  }

  /** One tick while the current task waits: it waits on, or at a switch is dispatched or makes way. */
  lemma WaitingTick(s: Sched, sp: nat)
    requires Inv(s) && s.tasks[s.current].state == Ready
    ensures var s', t := Do(s, TickStep(sp)), s.current;
            && |s'.tasks| == MAX_TASKS && s'.ticks == s.ticks + 1
            && if s'.ticks % 10 != 0 then s'.current == t && s'.tasks[t].state == Ready
               else s'.tasks[t].state == if s'.current == t then Running else Ready
  {
    hide Search;
    var now := s.ticks + 1;
    if IsSwitch(now) {
      var woken := WakeAll(s.tasks, now);
      SearchInRange(woken[s.current := Parked(woken[s.current], sp)], s.current, 0);
    }
  }

  /** The same from the call: yielding never costs a task more than the rest of its turn and one round. */
  lemma YieldReturns(s: Sched, steps: seq<Step>)
    requires Inv(s) && Executing(s) && Halts(Do(s, YieldStep), steps, s.current)
    requires TickCount(steps) >= 10 - s.ticks % 10 + 2550
    ensures exists k :: 0 <= k <= |steps| && Dispatched(Do(s, YieldStep), steps, s.current, k)
  {
    hide Run;
    DoKeeps(s, YieldStep);
    YielderRuns(Do(s, YieldStep), steps, s.current);
  }

  /** The wake loop skips slot 0: a sleeping kernel task wakes at a switch tick if and only if
      no task is Ready then. */
  lemma KernelTaskWakes(s: Sched, sp: nat)
    requires Inv(s) && s.tasks[0].state == Sleeping && IsSwitch(s.ticks + 1)
    ensures var woken := WakeAll(s.tasks, s.ticks + 1);
            var s' := Tick(s, sp).0;
            |s'.tasks| == MAX_TASKS &&
            (s'.tasks[0].state != Sleeping <==> forall i :: 1 <= i < MAX_TASKS ==>
             woken[i].state != Ready && woken[i].state != Running)
  {
    hide Search;
    var woken := WakeAll(s.tasks, s.ticks + 1);
    var parked := woken[s.current := Parked(woken[s.current], sp)];
    SearchInRange(parked, s.current, 0);
    SearchReady(parked, s.current, 0);
    SearchMisses(parked, s.current, 0);
    var next := Search(parked, s.current, 0);
    assert parked[0].state == Sleeping;
    if next == 0 {
      forall i | 1 <= i < MAX_TASKS ensures woken[i].state != Ready && woken[i].state != Running {
        assert parked[i].state != Ready;
      }
    } else {
      assert parked[next].state == Ready;
    }
  }

  /** The kernel's task sleeps past its wake tick, while task 1 runs. */
  const OVERSLEPT := Sched(seq(MAX_TASKS, i requires 0 <= i => OversleptTask(i)), 1, 9, 2)

  function OversleptTask(i: nat): Task {
    if i == 0 then Task(0, Sleeping, 1, [], 5) else if i == 1 then Task(0, Running, 2, [], 0) else UNUSED_TASK
  }

  /** There the switch at tick 10, five ticks after its time, leaves the kernel's task asleep. */
  lemma KernelTaskOversleeps(sp: nat)
    ensures Inv(OVERSLEPT) && OVERSLEPT.tasks[0].wakeTick < OVERSLEPT.ticks + 1 && IsSwitch(OVERSLEPT.ticks + 1)
    ensures var s' := Tick(OVERSLEPT, sp).0; |s'.tasks| == MAX_TASKS && s'.tasks[0].state == Sleeping
  {
    KernelTaskWakes(OVERSLEPT, sp);
    hide Tick;
    var woken := WakeAll(OVERSLEPT.tasks, OVERSLEPT.ticks + 1);
    assert woken[1].state == Running;
  }

  /** Falling back to slot 0 when it is not Ready means that no slot is. */
  lemma {:induction false} SearchMisses(tasks: seq<Task>, current: nat, k: nat)
    requires |tasks| == MAX_TASKS && current < MAX_TASKS && k <= MAX_TASKS
    requires forall i :: 0 <= i < k ==> tasks[Slot(current, i)].state != Ready
    requires tasks[0].state != Ready
    ensures Search(tasks, current, k) == 0 ==> forall i :: 0 <= i < MAX_TASKS ==> tasks[i].state != Ready
    decreases MAX_TASKS - k
  {
    if k == MAX_TASKS {
      forall i | 0 <= i < MAX_TASKS ensures tasks[i].state != Ready {
        var j := if i > current then i - current - 1 else i + MAX_TASKS - current - 1;
        assert Slot(current, j) == i;
      }
    } else if tasks[Slot(current, k)].state != Ready {
      SearchMisses(tasks, current, k + 1);
    }
  }

  // ---- The task table ----

  class TaskTable {
    const tasks: array<Task>
    var current: nat
    var ticks: nat
    var cr3: nat

    ghost function View(): Sched
      reads this, tasks
    {
      Sched(tasks[..], current, ticks, cr3)
    }

    ghost predicate Valid()
      reads this, tasks
    {
      tasks.Length == MAX_TASKS && Inv(View())
    }

    /** init_scheduler: task 0 is the kernel's, Running under the page tables loaded at boot. */
    constructor (bootCr3: nat)
      ensures Valid() && fresh(tasks)
      ensures View() == Sched(seq(MAX_TASKS, _ => UNUSED_TASK)[0 := Task(0, Running, bootCr3, [], 0)], 0, 0, bootCr3)
    {
      tasks := new Task[MAX_TASKS](_ => UNUSED_TASK);
      current, ticks, cr3 := 0, 0, bootCr3;
      new;
      tasks[0] := Task(0, Running, bootCr3, [], 0);
      assert tasks[..] == seq(MAX_TASKS, _ => UNUSED_TASK)[0 := Task(0, Running, bootCr3, [], 0)];
    }

    method WakeSleeping()
      requires tasks.Length == MAX_TASKS
      modifies tasks
      ensures tasks[..] == WakeAll(old(tasks[..]), ticks)
      ensures forall i :: 0 <= i < MAX_TASKS ==>
        tasks[i] == if i > 0 && old(tasks[i]).state == Sleeping && old(tasks[i]).wakeTick <= ticks
                    then old(tasks[i]).(state := Ready) else old(tasks[i])
    {
      var i := 1;
      while i < MAX_TASKS
        invariant 1 <= i <= MAX_TASKS
        invariant forall j :: 0 <= j < MAX_TASKS ==>
          tasks[j] == if j < i then Woken(old(tasks[j]), j, ticks) else old(tasks[j])
      {
        if tasks[i].state == Sleeping && ticks >= tasks[i].wakeTick {
          tasks[i] := tasks[i].(state := Ready);
        }
        i := i + 1;
      }
    }

    /** The search loop: round robin from the slot after the current one. */
    method PickNext() returns (next: nat)
      requires tasks.Length == MAX_TASKS && current < MAX_TASKS
      ensures next == Search(tasks[..], current, 0)
      ensures next < MAX_TASKS && forall i :: 0 <= i < MAX_TASKS && tasks[i].state == Ready ==>
        tasks[next].state == Ready && Distance(current, next) <= Distance(current, i)
      ensures (forall i :: 0 <= i < MAX_TASKS ==> tasks[i].state != Ready) ==> next == 0
    {
      SearchFirst(tasks[..], current, 0);
      hide Slot, Distance;
      SlotAfter(current, 0);
      var start := (current + 1) % MAX_TASKS;
      next := start;
      ghost var k := 0;
      while tasks[next].state != Ready
        invariant 0 <= k < MAX_TASKS && next == Slot(current, k) && next < MAX_TASKS
        invariant Search(tasks[..], current, 0) == Search(tasks[..], current, k)
        decreases MAX_TASKS - k
      {
        SlotAfter(current, k);
        next := (next + 1) % MAX_TASKS;
        k := k + 1;
        if next == start {
          next := 0;
          return;
        }
      }
    }

    method TimerHandler(sp: nat) returns (out: nat)
      requires Valid()
      modifies this, tasks
      ensures Valid()
      ensures (View(), out) == Tick(old(View()), sp)
      ensures ticks == old(ticks) + 1 && current < MAX_TASKS
      ensures current == old(current) ==> out == sp && cr3 == old(cr3)
      ensures ticks % 10 != 0 ==> current == old(current) && forall i :: 0 <= i < MAX_TASKS ==>
        tasks[i] == if i > 0 && old(tasks[i]).state == Sleeping && old(tasks[i]).wakeTick <= ticks
                    then old(tasks[i]).(state := Ready) else old(tasks[i])
      ensures current != old(current) ==> cr3 == tasks[current].root && out == old(tasks[..])[current].savedSp
      ensures ticks % 10 == 0 ==> tasks[current].state == Running && forall i :: 0 <= i < MAX_TASKS ==>
        && tasks[i].savedSp == (if i == old(current) then sp else old(tasks[i].savedSp))
        && tasks[i].(savedSp := 0, state := Unused) == old(tasks[i]).(savedSp := 0, state := Unused)
    {
      hide Inv, Switch;
      CurrentInRange(View());
      DoKeeps(View(), TickStep(sp));
      ticks := ticks + 1;
      WakeSleeping();
      if ticks == 0 || ticks % 10 != 0 {
        return sp;
      }
      out := SwitchTask(sp);
    }

    /** The part of the tick that changes tasks. */
    method SwitchTask(sp: nat) returns (out: nat)
      requires tasks.Length == MAX_TASKS && current < MAX_TASKS
      modifies this, tasks
      ensures (View(), out) == Switch(old(View()), sp)
      ensures ticks == old(ticks) && current < MAX_TASKS && tasks[current].state == Running
      ensures if current == old(current) then out == sp && cr3 == old(cr3)
              else cr3 == tasks[current].root && out == old(tasks[..])[current].savedSp
      ensures forall i :: 0 <= i < MAX_TASKS ==>
        && tasks[i].savedSp == (if i == old(current) then sp else old(tasks[i].savedSp))
        && tasks[i].(savedSp := 0, state := Unused) == old(tasks[i]).(savedSp := 0, state := Unused)
      ensures forall i :: 0 <= i < MAX_TASKS && i != current ==>
        tasks[i].state == if i == old(current) && old(tasks[i].state) == Running then Ready else old(tasks[i].state)
    {
      hide Search, Distance;
      ghost var woken := tasks[..];
      tasks[current] := tasks[current].(savedSp := sp);
      if tasks[current].state == Running {
        tasks[current] := tasks[current].(state := Ready);
      }
      ghost var parked := woken[current := Parked(woken[current], sp)];
      assert tasks[..] == parked;
      var next := PickNext();
      SearchInRange(parked, current, 0);
      if next == current {
        tasks[next] := tasks[next].(state := Running);
        assert tasks[..] == parked[next := parked[next].(state := Running)];
        return sp;
      }
      current := next;
      tasks[next] := tasks[next].(state := Running);
      assert tasks[..] == parked[next := parked[next].(state := Running)];
      cr3 := tasks[next].root;
      out := tasks[next].savedSp;
    }

    method SleepMs(ms: nat)
      requires Valid() && Executing(View())
      modifies this, tasks
      ensures Valid() && View() == Sleep(old(View()), ms)
      ensures current == old(current) && ticks == old(ticks) && cr3 == old(cr3)
      ensures 10 * (tasks[current].wakeTick - ticks) - 10 < ms <= 10 * (tasks[current].wakeTick - ticks)
      ensures forall i :: 0 <= i < MAX_TASKS ==>
        tasks[i] == if i == current then old(tasks[i]).(state := Sleeping, wakeTick := tasks[i].wakeTick)
                    else old(tasks[i])
    {
      DoKeeps(View(), SleepStep(ms));
      tasks[current] := tasks[current].(wakeTick := ticks + MsToTicks(ms));
      tasks[current] := tasks[current].(state := Sleeping);
      assert tasks[..] == Sleep(old(View()), ms).tasks;
    }

    method YieldCurrent()
      requires Valid() && Executing(View())
      modifies this, tasks
      ensures Valid() && View() == Yield(old(View()))
      ensures current == old(current) && ticks == old(ticks) && cr3 == old(cr3)
      ensures forall i :: 0 <= i < MAX_TASKS ==>
        tasks[i] == if i == current then old(tasks[i]).(state := Ready) else old(tasks[i])
    {
      DoKeeps(View(), YieldStep);
      tasks[current] := tasks[current].(state := Ready);
    }

    /** The task-table half of exit_current_task. */
    method RetireCurrent()
      requires Valid() && Executing(View()) && current != 0
      modifies this, tasks
      ensures Valid() && View() == Exit(old(View()))
      ensures current == old(current) && ticks == old(ticks) && cr3 == tasks[0].root
      ensures forall i :: 0 <= i < MAX_TASKS ==>
        tasks[i] == if i == current then old(tasks[i]).(state := Unused) else old(tasks[i])
    {
      DoKeeps(View(), ExitStep);
      tasks[current] := tasks[current].(state := Unused);
      cr3 := tasks[0].root;
    }

    method HasFreeSlot() returns (free: bool)
      requires tasks.Length == MAX_TASKS
      ensures free <==> exists i :: 1 <= i < MAX_TASKS && tasks[i].state == Unused
    {
      var i := 1;
      while i < MAX_TASKS
        invariant 1 <= i <= MAX_TASKS
        invariant forall j :: 1 <= j < i ==> tasks[j].state != Unused
      {
        if tasks[i].state == Unused { return true; }
        i := i + 1;
      }
      return false;
    }

    /** Ok is the first unused slot, Err means that there is none. */
    method SpawnUserspace(root: nat, sp: nat, frames: seq<nat>) returns (r: Result<nat, string>)
      requires Valid() && Executing(View())
      modifies tasks
      ensures Valid() && View() == Spawn(old(View()), root, sp, frames)
      ensures r.Ok? <==> FreeSlot(old(tasks[..]), 1).Some?
      ensures r.Ok? ==> r.value == FreeSlot(old(tasks[..]), 1).value
      ensures r.Err? ==> forall i :: 1 <= i < MAX_TASKS ==> tasks[i].state != Unused
      ensures r.Ok? ==>
        && 1 <= r.value < MAX_TASKS && old(tasks[r.value].state) == Unused && tasks[r.value].state == Ready
        && (forall i :: 1 <= i < r.value ==> old(tasks[i].state) != Unused)
        && tasks[r.value].root == root && tasks[r.value].savedSp == sp
        && tasks[r.value].frames == (if |frames| <= MAX_USER_FRAMES then frames else frames[..MAX_USER_FRAMES])
      ensures forall i :: 0 <= i < MAX_TASKS && !(r.Ok? && i == r.value) ==> tasks[i] == old(tasks[i])
    {
      DoKeeps(View(), SpawnStep(root, sp, frames));
      var i := 1;
      while i < MAX_TASKS
        invariant 1 <= i <= MAX_TASKS && tasks[..] == old(tasks[..])
        invariant FreeSlot(tasks[..], 1) == FreeSlot(tasks[..], i)
        invariant forall j :: 1 <= j < i ==> tasks[j].state != Unused
      {
        if tasks[i].state == Unused {
          tasks[i] := Spawned(tasks[i], root, sp, frames);
          return Ok(i);
        }
        i := i + 1;
      }
      return Err("out of task slots");
    }
  }
}
