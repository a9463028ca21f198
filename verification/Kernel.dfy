// Spawning, running and exiting tasks over the frame allocator, the page tables and the task
// table: src/main.rs (kernel_main, spawn_userspace_task) and src/task.rs (exit_current_task).

module Kernels {
  import opened Wrappers
  import opened Bytes
  import opened Words
  import opened Frames
  import opened PageTables
  import opened KernelTables
  import opened UserTables
  import opened Paging
  import opened Scheduler
  import opened Ownership
  import opened Programs
  import opened KernelLaws
  import Elf

  /** What happens in a run: a timer tick, a call of the current task, or a store by it. */
  datatype Action =
    | DoTick(sp: nat) | DoSleep(ms: nat) | DoYield | DoExit
    | DoSpawn(code: seq<byte>, sp: nat) | DoStore(va: nat, v: byte)

  /** A program whose pages all fit the slot's record of them. */
  predicate Small(a: Action) { a.DoSpawn? ==> |a.code| <= (MAX_USER_FRAMES - 1) * 4096 }

  /** The scheduler's step for an action. */
  predicate Matches(a: Action, step: Step) {
    match a
    case DoTick(sp) => step == TickStep(sp)
    case DoSleep(ms) => step == SleepStep(ms)
    case DoYield => step == YieldStep
    case DoExit => step == ExitStep
    case DoSpawn(_, sp) => step.SpawnStep? && step.sp == sp
    case DoStore(_, _) => false
  }

  /** The actions that are steps of the scheduler: all but stores. */
  function Calls(actions: seq<Action>): seq<Action> {
    if actions == [] then []
    else Calls(actions[..|actions| - 1]) + if actions[|actions| - 1].DoStore? then [] else [actions[|actions| - 1]]
  }

  ghost predicate Logged(actions: seq<Action>, steps: seq<Step>) {
    |steps| == |Calls(actions)| && forall k :: 0 <= k < |steps| ==> Matches(Calls(actions)[k], steps[k])
  }

  lemma LoggedSnoc(actions: seq<Action>, i: nat, steps: seq<Step>, step: Step)
    requires i < |actions| && Logged(actions[..i], steps)
    ensures !actions[i].DoStore? && Matches(actions[i], step) ==> Logged(actions[..i + 1], steps + [step])
    ensures actions[i].DoStore? ==> Logged(actions[..i + 1], steps)
  {
    hide Matches;
    assert actions[..i + 1][..i] == actions[..i];
  }

  /** Actions that change what the task doing them can read. */
  predicate OwnAct(a: Action) { a.DoStore? || a.DoExit? }

  /** The task in slot j neither stores nor exits in the run. */
  ghost predicate Quiet(s: Sched, actions: seq<Action>, steps: seq<Step>, j: nat)
    requires Inv(s)
  {
    forall i :: 0 <= i < |actions| && OwnAct(actions[i]) ==> StateAt(s, actions, steps, i).current != j
  }

  /** The task table before the i-th action. */
  ghost function StateAt(s: Sched, actions: seq<Action>, steps: seq<Step>, i: nat): Sched
    requires Inv(s) && i <= |actions|
  {
    var n := |Calls(actions[..i])|;
    if n <= |steps| then Run(s, steps[..n]) else s
  }

  lemma StateAtEnd(s: Sched, actions: seq<Action>, steps: seq<Step>)
    requires Inv(s) && Logged(actions, steps)
    ensures StateAt(s, actions, steps, |actions|) == Run(s, steps)
  {
    hide Run;
    assert actions[..|actions|] == actions && steps[..|steps|] == steps;
  }

  /** The earlier states of a run stay the same as it goes on. */
  lemma QuietBefore(s: Sched, actions: seq<Action>, n: nat, before: seq<Step>, steps: seq<Step>, j: nat)
    requires Inv(s) && n < |actions| && Logged(actions[..n], before) && before <= steps
    requires Quiet(s, actions[..n + 1], steps, j)
    ensures Quiet(s, actions[..n], before, j)
    ensures OwnAct(actions[n]) ==> Run(s, before).current != j
  {
    hide Run, Logged, OwnAct;
    var more, less := actions[..n + 1], actions[..n];
    forall i | 0 <= i <= n ensures StateAt(s, more, steps, i) == StateAt(s, less, before, i) {
      assert more[..i] == less[..i] == actions[..i];
      CallsGrow(less, i);
      assert |Calls(less)| == |before| by { LoggedLength(less, before); }
      assert steps[..|Calls(less[..i])|] == before[..|Calls(less[..i])|];
    }
    StateAtEnd(s, less, before);
    assert more[n] == actions[n];
    forall i | 0 <= i < n && OwnAct(less[i]) ensures StateAt(s, less, before, i).current != j {
      assert less[i] == more[i];
    }
  }

  /** A task that is quiet in the longer run reads what it read. */
  lemma QuietStep(s: Sched, actions: seq<Action>, n: nat, before: seq<Step>, steps: seq<Step>, j: nat,
                  mem0: Memory, mem1: Memory, s1: Sched, mem2: Memory, s2: Sched)
    requires Inv(s) && n < |actions| && Logged(actions[..n], before) && before <= steps && s1 == Run(s, before)
    requires Live(s, j) && Quiet(s, actions[..n], before, j) ==> KeepsTask(mem0, s, mem1, s1, j)
    requires Live(s1, j) && !(OwnAct(actions[n]) && s1.current == j) ==> KeepsTask(mem1, s1, mem2, s2, j)
    ensures Live(s, j) && Quiet(s, actions[..n + 1], steps, j) ==> KeepsTask(mem0, s, mem2, s2, j)
  {
    hide Run, Logged, OwnAct, Quiet, KeepsTask, Live;
    if Live(s, j) && Quiet(s, actions[..n + 1], steps, j) {
      QuietBefore(s, actions, n, before, steps, j);
      StillLive(mem0, s, mem1, s1, j);
      KeptTwice(mem0, s, mem1, s1, mem2, s2, j);
    }
  }

  lemma LoggedLength(actions: seq<Action>, steps: seq<Step>)
    requires Logged(actions, steps)
    ensures |Calls(actions)| == |steps|
  {
  }

  lemma {:induction false} CallsGrow(actions: seq<Action>, i: nat)
    requires i <= |actions|
    ensures |Calls(actions[..i])| <= |Calls(actions)|
  {
    if i == |actions| {
      assert actions[..i] == actions;
    } else {
      CallsGrow(actions[..|actions| - 1], i);
      assert actions[..|actions| - 1][..i] == actions[..i];
    }
  }

  /** The current task can leave: it executes, and it is not task 0. */
  predicate CanLeave(s: Sched) {
    |s.tasks| == MAX_TASKS && 0 < s.current < MAX_TASKS && Executing(s)
  }

  /** No task leaves in the run. */
  ghost predicate NobodyLeft(s: Sched, steps: seq<Step>)
    requires Inv(s)
  {
    forall k :: 0 <= k < |steps| && steps[k].ExitStep? ==> !CanLeave(Run(s, steps[..k]))
  }

  lemma NobodyLeftSnoc(s: Sched, steps: seq<Step>, step: Step)
    requires Inv(s)
    ensures NobodyLeft(s, steps + [step]) <==> NobodyLeft(s, steps) && (step.ExitStep? ==> !CanLeave(Run(s, steps)))
  {
    hide Run, CanLeave;
    var more := steps + [step];
    assert more[..|steps|] == steps && more[|steps|] == step;
    forall k | 0 <= k < |steps| ensures more[k] == steps[k] && more[..k] == steps[..k] {
    }
  }

  class Kernel {
    const machine: Machine
    const table: TaskTable
    ghost var owner: map<nat, Owner>
    ghost var spaces: map<nat, Labels>

    /** The kernel's tables that an exit has given away; the allocator holds them free. */
    ghost var lost: set<nat>

    /** The frames in use, and those lost. */
    ghost function Held(): set<nat>
      reads this, machine.frames, machine.frames.bitmap
      requires machine.frames.Valid()
    {
      machine.frames.Used() + lost
    }

    /** Every frame held has one owner, the kernel's tables among them; none or all of the last-level
        tables below 512 GiB are lost. */
    ghost predicate Valid()
      reads this, machine, machine.frames, machine.frames.bitmap, table, table.tasks
    {
      && machine.frames.Valid() && table.Valid() && table.tasks[0].root == machine.kernelRoot
      && lost !! machine.frames.Used() && (lost == {} || lost == SharedTables(machine.kernel).Keys)
      && KernelOk(machine.mem, machine.kernelRoot, machine.kernel, Held())
      && Conserved(machine.mem, machine.kernel, Held(), table.View(), owner, spaces)
    }

    /** The kernel after init_scheduler: the frames in use are the kernel's tables and others, which
        include frame 0. */
    constructor (machine: Machine, table: TaskTable)
      requires machine.frames.Valid() && table.Valid() && table.tasks[0].root == machine.kernelRoot
      requires KernelOk(machine.mem, machine.kernelRoot, machine.kernel, machine.frames.Used())
      requires forall i :: 1 <= i < MAX_TASKS ==> table.tasks[i].state == Unused
      requires 0 in machine.frames.Used() - machine.kernel.Keys
      ensures Valid() && this.machine == machine && this.table == table && lost == {}
      ensures AllTracked(table.View(), owner)
      ensures ReservedFrames(owner) == machine.frames.Used() - machine.kernel.Keys
    {
      this.machine, this.table := machine, table;
      owner := map f | f in machine.frames.Used() :: if f in machine.kernel then KernelTable else Reserved;
      spaces, lost := map[], {};
      new;
      hide IsTree, KernelShape, NoGiants;
      assert Held() == machine.frames.Used();
      KernelUsed(machine.mem, machine.kernelRoot, machine.kernel, machine.frames.Used());
    }

    /** The bytes of each segment's first page go into the frame of the page at its address. */
    method FillPages(pages: seq<UserPage>, segments: seq<Segment>, elf: seq<byte>)
      requires ZeroPages(machine.mem, pages)
      requires forall a, b :: 0 <= a < b < |pages| ==> pages[a].frame != pages[b].frame
      requires forall s :: s in segments ==> s.offset + Min(4096, s.filesz) <= |elf|
      modifies machine`mem
      ensures Filled(machine.mem, pages, segments, elf)
      ensures forall f :: f in old(machine.mem) && f !in DataFrames(pages) ==>
        f in machine.mem && machine.mem[f] == old(machine.mem)[f]
    {
      hide PageImage, Zeros;
      var i := 0;
      while i < |pages|
        invariant 0 <= i <= |pages|
        invariant forall k :: 0 <= k < |pages| ==> pages[k].frame in machine.mem
        invariant forall k :: 0 <= k < i ==>
          machine.mem[pages[k].frame] == Data(PageImage(segments, elf, pages[k].req.vaddr))
        invariant forall k :: i <= k < |pages| ==> machine.mem[pages[k].frame] == Data(Zeros(4096))
        invariant forall f :: f in old(machine.mem) && f !in DataFrames(pages) ==>
          f in machine.mem && machine.mem[f] == old(machine.mem)[f]
      {
        assert pages[i].frame in DataFrames(pages);
        FillPage(pages[i], segments, elf);
        i := i + 1;
      }
    }

    method FillPage(p: UserPage, segments: seq<Segment>, elf: seq<byte>)
      requires p.frame in machine.mem && machine.mem[p.frame] == Data(Zeros(4096))
      requires forall s :: s in segments ==> s.offset + Min(4096, s.filesz) <= |elf|
      modifies machine`mem
      ensures machine.mem == old(machine.mem)[p.frame := Data(PageImage(segments, elf, p.req.vaddr))]
    {
      var s := Loader(segments, p.req.vaddr);
      LoaderIn(segments, p.req.vaddr);
      if s.Some? && s.value.filesz > 0 {
        var n := Min(4096, s.value.filesz);
        var src := elf[s.value.offset..s.value.offset + n];
        machine.mem := machine.mem[p.frame := Data(Splice(machine.mem[p.frame].bytes, 0, src))];
      }
    }

    method SegmentsOf(image: Elf.ElfImage) returns (segments: seq<Segment>)
      ensures |segments| == |image.segments|
      ensures forall k :: 0 <= k < |segments| ==>
        var e := image.segments[k]; segments[k] == Segment(e.vaddr, e.offset, e.filesz, e.memsz, e.flags)
    {
      segments := [];
      var i := 0;
      while i < |image.segments|
        invariant 0 <= i <= |image.segments| && |segments| == i
        invariant forall k :: 0 <= k < i ==>
          var e := image.segments[k]; segments[k] == Segment(e.vaddr, e.offset, e.filesz, e.memsz, e.flags)
      {
        var e := image.segments[i];
        segments := segments + [Segment(e.vaddr, e.offset, e.filesz, e.memsz, e.flags)];
        i := i + 1;
      }
    }

    /** The file for a flat program, and the one segment that parsing it yields. */
    method FlatSegments(code: seq<byte>) returns (elf: seq<byte>, segments: seq<Segment>)
      requires USER_BASE_VA + |code| <= LOW_END
      ensures |elf| == 120 + |code| && elf[120..] == code && segments == [CodeSegment(code)]
    {
      elf := Elf.BuildFlatElf(code, USER_BASE_VA);
      Pow256Values();
      Elf.ParseOfFlat(elf, code, USER_BASE_VA);
      var parsed := Elf.ParseElf(elf);
      assert parsed.value.segments == Elf.Loads(elf, 1);
      segments := SegmentsOf(parsed.value);
      assert segments == [CodeSegment(code)];
    }

    /** spawn_userspace_task up to the task table: the program in its own address space. */
    method BuildProgram(code: seq<byte>) returns (ok: bool, root: nat, pages: seq<UserPage>, ghost labels: Labels)
      requires machine.frames.Valid()
      requires KernelOk(machine.mem, machine.kernelRoot, machine.kernel, machine.frames.Used())
      requires Reached(machine.mem, machine.kernelRoot, code)
      modifies machine`mem, machine.frames`hint, machine.frames.bitmap
      ensures machine.frames.Valid()
      ensures !ok ==> machine.frames.Used() == Range(0, machine.frames.count)
      ensures ok ==> KernelOk(machine.mem, machine.kernelRoot, machine.kernel, machine.frames.Used())
      ensures ok ==> SameDirs(old(machine.mem), machine.mem, machine.kernelRoot)
      ensures ok ==> KeepsUnshared(old(machine.mem), machine.mem, machine.kernel, old(machine.frames.Used()))
      ensures ok && Untabled(old(machine.mem), machine.kernelRoot, code) ==>
        && KeepsKernel(old(machine.mem), machine.mem, machine.kernelRoot, machine.kernel)
        && Agree(old(machine.mem), machine.mem, old(machine.frames.Used()))
      ensures ok ==> UserSpace(machine.mem, root, labels, machine.kernel, machine.frames.Used())
      ensures ok ==> NoGiants(machine.mem, labels)
      ensures ok ==> Owned(machine.kernel, old(machine.frames.Used()), machine.frames.Used(), labels, pages)
      ensures ok ==> Requests(pages) == Asked(code)
      ensures ok ==> UserReach(machine.mem, root, DataFrames(pages))
      ensures ok ==> DataPages(machine.mem, pages)
      ensures ok ==> ProgramSeen(old(machine.mem), machine.kernelRoot, machine.mem, root, code)
    {
      hide NoGiants, Closed, KernelSpace, SameTranslation, UserSpace, UserReach, Building, ProgramSeen, Filled, Walk,
        Expect, Wanted, Requests, Reaches, Tabled, OffTables, SameDirs, KeepsUnshared, Untabled;
      var elf, segments := FlatSegments(code);
      ghost var mem0, used0 := machine.mem, machine.frames.Used();
      ok, root, pages, labels := machine.CreateUserPageTables(segments);
      if !ok { return; }
      RequestsAsked(mem0, machine.kernelRoot, code, pages);
      ghost var mem1, used := machine.mem, machine.frames.Used();
      BuildingFacts(mem0, machine.kernelRoot, machine.kernel, used0, mem1, used, root, labels, pages);
      FillPages(pages, segments, elf);
      FillKeeps(mem0, machine.kernelRoot, machine.kernel, used0, mem1, used, root, labels, pages, machine.mem);
      FilledData(machine.mem, pages, segments, elf);
      ProgramIsSeen(mem0, machine.kernelRoot, machine.mem, root, pages, elf, code);
    }

    /** The program joins the task table, in the first free slot, with fresh frames of its own. Where no
        page of it falls into a last-level table of the kernel, the kernel's translation and the
        frames in use before are as they were; otherwise only such tables changed. Without a
        free slot nothing changes; when memory runs out (`ok` is false) the kernel halts. */
    method SpawnTask(code: seq<byte>, sp: nat) returns (ok: bool, r: Result<nat, string>)
      requires Valid() && Executing(table.View()) && lost == {}
      requires Reached(machine.mem, machine.kernelRoot, code)
      modifies this, machine`mem, machine.frames`hint, machine.frames.bitmap, table.tasks
      ensures ok ==> Valid() && lost == {}
      ensures !ok ==> machine.frames.Valid() && machine.frames.Used() == Range(0, machine.frames.count)
      ensures ok ==> (r.Ok? <==> FreeSlot(old(table.tasks[..]), 1).Some?)
      ensures ok && r.Err? ==> unchanged(this, machine, machine.frames, machine.frames.bitmap, table.tasks)
      ensures ok && r.Ok? ==>
        var i := r.value;
        && FreeSlot(old(table.tasks[..]), 1) == Some(i) && i in spaces && i < MAX_TASKS
        && table.View() == Spawn(old(table.View()), table.tasks[i].root, sp, table.tasks[i].frames)
        && machine.frames.Used() == old(machine.frames.Used()) + OwnedBy(owner, i)
        && OwnedBy(owner, i) !! old(machine.frames.Used())
        && KeepsUnshared(old(machine.mem), machine.mem, machine.kernel, old(machine.frames.Used()))
        && ProgramSeen(old(machine.mem), machine.kernelRoot, machine.mem, table.tasks[i].root, code)
      ensures ok && Untabled(old(machine.mem), machine.kernelRoot, code) ==>
        && KeepsKernel(old(machine.mem), machine.mem, machine.kernelRoot, machine.kernel)
        && Agree(old(machine.mem), machine.mem, old(machine.frames.Used()))
      ensures ok ==> forall j: nat :: Live(old(table.View()), j) ==>
        KeepsTask(old(machine.mem), old(table.View()), machine.mem, table.View(), j)
      ensures ok ==> SameDirs(old(machine.mem), machine.mem, machine.kernelRoot)
      ensures ok ==> ReservedFrames(owner) == old(ReservedFrames(owner))
      ensures ok && old(AllTracked(table.View(), owner)) && |code| <= (MAX_USER_FRAMES - 1) * 4096 ==>
        AllTracked(table.View(), owner)
    {
      hide KernelOk, NoGiants, UserSpace, UserReach, ProgramSeen, Walk, Conserved, AllTracked, WithTask, FreeSlot,
        Spawn, SharedTables, Asked, Requests, Inv, ReservedFrames, DataPages, OwnedBy, KeepsTask, KeepsUnshared,
        Untabled, Closed, HasPd, Pde, Reaches, SameDirs, KeepsKernel, Owned, Range, DataFrames;
      ok := true;
      assert Held() == machine.frames.Used();
      var free := table.HasFreeSlot();
      if !free {
        KernelKept(machine.mem, machine.kernelRoot, machine.kernel);
        AllKept(machine.mem, table.View());
        return true, Err("out of task slots");
      }
      ghost var s := table.View();
      ghost var mem0, used0, owner0, spaces0 := machine.mem, machine.frames.Used(), owner, spaces;
      var root, pages; ghost var labels;
      ok, root, pages, labels := BuildProgram(code);
      r := Err("halted");
      if !ok { return; }
      var frames := FramesOf(pages);
      r := table.SpawnUserspace(root, sp, frames);
      ghost var i := r.value;
      owner, spaces := WithTask(owner, labels, DataFrames(pages), i), spaces[i := labels];
      SpawnEnd(mem0, machine.kernel, used0, s, owner0, spaces0,
               machine.mem, machine.frames.Used(), root, labels, pages, frames, sp, i, table.View());
      forall j: nat | Live(s, j) ensures KeepsTask(mem0, s, machine.mem, table.View(), j) {
        KeepsBySpawn(mem0, machine.kernel, used0, s, owner0, spaces0, machine.mem, root, sp, frames, j);
      }
      CodePageCount(code, pages);
      assert Held() == machine.frames.Used();
    }

    /** Everything the current task owns goes back to the allocator, except data frames that its slot
        does not record, and with it every last-level table of the kernel's below 512 GiB; task 0 is
        refused. */
    method ExitTask() returns (code: int)
      requires Valid() && Executing(table.View())
      modifies this, machine.frames.bitmap, table, table.tasks
      ensures Valid() && table.View() == Exit(old(table.View()))
      ensures code == if old(table.current) == 0 then -1 else 0
      ensures lost == if old(table.current) == 0 then old(lost) else SharedTables(machine.kernel).Keys
      ensures ReservedFrames(owner) == old(ReservedFrames(owner))
      ensures old(table.current) == 0 ==> machine.frames.Used() == old(machine.frames.Used()) && owner == old(owner)
      ensures old(table.current) != 0 ==>
        && OwnedBy(owner, old(table.current)) == {} && Held() <= old(Held())
        && old(Held()) - Held() <= old(OwnedBy(owner, table.current))
      ensures old(AllTracked(table.View(), owner)) ==> AllTracked(table.View(), owner)
      ensures old(table.current) != 0 && old(AllTracked(table.View(), owner)) ==>
        Held() == old(Held()) - old(OwnedBy(owner, table.current))
    {
      hide KernelOk, Conserved, AllTracked, WithoutTask, Exit, SharedTables, Inv, OwnedBy, TaskOk, Freed,
        ReservedFrames;
      ghost var s, i, used, held := table.View(), table.current, machine.frames.Used(), Held();
      if table.current == 0 {
        ExitKernelTask(table.View());
        code := -1;
        return;
      }
      CurrentInRange(s);
      var t := table.tasks[table.current];
      TaskFacts(machine.mem, machine.kernel, held, s, owner, spaces, machine.kernelRoot);
      FreeData(t.frames);
      if t.root != table.tasks[0].root && t.root != 0 {
        machine.FreeUserPageTables(t.root);
      }
      ghost var shared := SharedTables(machine.kernel).Keys;
      ghost var freed := spaces[i].Keys - machine.kernel.Keys + FrameSet(t.frames);
      GivenBack(machine.frames.Used(), used, lost, spaces[i].Keys, machine.kernel.Keys, FrameSet(t.frames), shared);
      lost := shared;
      ExitEnd(machine.mem, machine.kernelRoot, machine.kernel, held, s, owner, spaces, freed);
      owner := WithoutTask(owner, freed, i);
      table.RetireCurrent();
      code := 0;
    }

    /** The first step of a spawn, which takes and clears a frame for the root: the first clear one from
        the allocator's hint on. If that is a table the kernel has lost, the kernel's pages under it
        fault from here on; every other page, and otherwise every page, translates as before. */
    method TakeRoot() returns (ok: bool, root: nat)
      requires Valid()
      modifies machine`mem, machine.frames`hint, machine.frames.bitmap
      ensures machine.frames.Valid() && (ok <==> old(machine.frames.Used()) != Range(0, machine.frames.count))
      ensures ok ==>
        && FirstClear(old(machine.frames.Used()), 64 * Min(old(machine.frames.hint), machine.frames.words),
                      machine.frames.count, root)
        && machine.mem == old(machine.mem)[root := EmptyTable()]
      ensures ok ==> forall v :: Canonical(v) ==>
        Walk(machine.mem, machine.kernelRoot, v)
        == if root in lost && root in machine.kernel && machine.kernel[root] == AtNode(v) then Fault
           else Walk(old(machine.mem), machine.kernelRoot, v)
      ensures ok && root in lost ==> root in machine.kernel && machine.kernel[root].N1?
    {
      hide Walk, Conserved, FirstClear, NoGiants, KernelSpace, Inv;
      ok, root := machine.AllocTable();
      if !ok { return; }
      machine.ZeroTable(root);
      if root in lost {
        forall v | Canonical(v)
          ensures Walk(machine.mem, machine.kernelRoot, v)
               == if machine.kernel[root] == AtNode(v) then Fault else Walk(old(machine.mem), machine.kernelRoot, v)
        {
          TableCleared(old(machine.mem), machine.kernelRoot, machine.kernel, old(Held()), root, v);
        }
      } else {
        KernelUsed(old(machine.mem), machine.kernelRoot, machine.kernel, old(Held()));
        KernelSame(old(machine.mem), machine.kernelRoot, machine.kernel, old(Held()), machine.mem);
      }
    }

    method FreeData(frames: seq<nat>)
      requires machine.frames.Valid() && 0 !in frames
      modifies machine.frames.bitmap
      ensures machine.frames.Valid() && machine.frames.Used() == old(machine.frames.Used()) - FrameSet(frames)
    {
      var i := 0;
      while i < |frames|
        invariant 0 <= i <= |frames| && machine.frames.Valid()
        invariant machine.frames.Used() == old(machine.frames.Used()) - FrameSet(frames[..i])
      {
        if frames[i] != 0 {
          machine.frames.DeallocateFrame(frames[i]);
        }
        assert FrameSet(frames[..i + 1]) == FrameSet(frames[..i]) + {frames[i]};
        i := i + 1;
      }
      assert frames[..i] == frames;
    }

    method TickTask(sp: nat) returns (out: nat)
      requires Valid()
      modifies table, table.tasks
      ensures Valid() && SameSlots(old(table.View()), table.View())
      ensures (table.View(), out) == Tick(old(table.View()), sp)
      ensures old(AllTracked(table.View(), owner)) ==> AllTracked(table.View(), owner)
    {
      hide KernelOk, Conserved, AllTracked, Inv, Tick;
      ghost var s := table.View();
      CurrentInRange(s);
      out := table.TimerHandler(sp);
      StepSlots(s, TickStep(sp));
      ConservedBySameSlots(machine.mem, machine.kernel, Held(), s, owner, spaces, table.View());
    }

    method SleepTask(ms: nat)
      requires Valid() && Executing(table.View())
      modifies table, table.tasks
      ensures Valid() && SameSlots(old(table.View()), table.View()) && table.View() == Sleep(old(table.View()), ms)
      ensures old(AllTracked(table.View(), owner)) ==> AllTracked(table.View(), owner)
    {
      hide KernelOk, Conserved, AllTracked, Inv, Sleep;
      ghost var s := table.View();
      CurrentInRange(s);
      table.SleepMs(ms);
      StepSlots(s, SleepStep(ms));
      ConservedBySameSlots(machine.mem, machine.kernel, Held(), s, owner, spaces, table.View());
    }

    method YieldTask()
      requires Valid() && Executing(table.View())
      modifies table, table.tasks
      ensures Valid() && SameSlots(old(table.View()), table.View()) && table.View() == Yield(old(table.View()))
      ensures old(AllTracked(table.View(), owner)) ==> AllTracked(table.View(), owner)
    {
      hide KernelOk, Conserved, AllTracked, Inv, Yield;
      ghost var s := table.View();
      CurrentInRange(s);
      table.YieldCurrent();
      StepSlots(s, YieldStep);
      ConservedBySameSlots(machine.mem, machine.kernel, Held(), s, owner, spaces, table.View());
    }

    /** A store by the current task, through the page tables that are loaded; it faults unless the
        page is writable and open to users. What the task reads there changes, and nothing that
        another task reads or that anything is translated to. */
    method StoreByte(va: nat, v: byte) returns (stored: bool)
      requires Valid() && CanLeave(table.View())
      modifies machine`mem
      ensures Valid() && SameDirs(old(machine.mem), machine.mem, machine.kernelRoot)
      ensures KeepsKernel(old(machine.mem), machine.mem, machine.kernelRoot, machine.kernel)
      ensures var m := Walk(old(machine.mem), table.tasks[table.current].root, Indices(va));
              stored <==> va < CANONICAL_END && m.Mapped? && m.user && m.write
      ensures machine.mem == StoreAt(old(machine.mem), table.tasks[table.current].root, va, v)
      ensures !stored ==> machine.mem == old(machine.mem)
      ensures stored ==> ByteAt(machine.mem, table.tasks[table.current].root, va) == Some(v)
      ensures var root := table.tasks[table.current].root;
              forall x: nat :: !OneByte(old(machine.mem), root, va, x) ==>
                ByteAt(machine.mem, root, x) == ByteAt(old(machine.mem), root, x)
      ensures forall j: nat :: Live(table.View(), j) && j != table.current ==>
        KeepsTask(old(machine.mem), old(table.View()), machine.mem, table.View(), j)
      ensures forall j: nat :: Live(table.View(), j) ==>
        SameTranslation(old(machine.mem), machine.mem, table.tasks[j].root)
    {
      hide KernelOk, Conserved, Inv, Walk, SameTranslation, SameDirs, Closed;
      ghost var s := table.View();
      LoadedRoot(s);
      var m := Walk(machine.mem, table.cr3, Indices(va));
      stored := va < CANONICAL_END && m.Mapped? && m.user && m.write;
      StoreKeeps(machine.mem, machine.kernelRoot, machine.kernel, Held(), s, owner, spaces, table.current, va, v);
      StoreOk(machine.mem, machine.kernel, Held(), s, owner, spaces, va, v);
      if stored {
        machine.mem := machine.mem[m.frame := Data(machine.mem[m.frame].bytes[va % 4096 := v])];
      }
      ghost var root := s.tasks[s.current].root;
      forall x: nat | !OneByte(old(machine.mem), root, va, x)
        ensures ByteAt(machine.mem, root, x) == ByteAt(old(machine.mem), root, x)
      {
        StoreElsewhere(old(machine.mem), root, va, v, x);
      }
    }

    /** One action; it happens only while the current task's code executes, unless it is a tick, and
        a store only in a user program. `left` tells that a task exited. */
    method Act(a: Action) returns (ok: bool, left: bool, ghost step: Step)
      requires Valid()
      requires a.DoSpawn? ==> lost == {} && Reached(machine.mem, machine.kernelRoot, a.code)
      modifies this, machine`mem, machine.frames`hint, machine.frames.bitmap, table, table.tasks
      ensures ok ==> Valid() && (left <==> a.DoExit? && CanLeave(old(table.View())))
      ensures ok ==> lost == if left then SharedTables(machine.kernel).Keys else old(lost)
      ensures ok && a.DoStore? ==>
        && table.View() == old(table.View())
        && machine.mem == if CanLeave(table.View())
                          then StoreAt(old(machine.mem), table.tasks[table.current].root, a.va, a.v)
                          else old(machine.mem)
      ensures ok && !a.DoStore? ==> Matches(a, step) && table.View() == Do(old(table.View()), step)
      ensures ok ==> SameDirs(old(machine.mem), machine.mem, machine.kernelRoot)
      ensures ok && (a.DoSpawn? ==> Untabled(old(machine.mem), machine.kernelRoot, a.code)) ==>
        KeepsKernel(old(machine.mem), machine.mem, machine.kernelRoot, machine.kernel)
      ensures ok ==> forall j: nat :: Live(old(table.View()), j) && !(OwnAct(a) && old(table.current) == j) ==>
        KeepsTask(old(machine.mem), old(table.View()), machine.mem, table.View(), j)
      ensures ok ==> ReservedFrames(owner) == old(ReservedFrames(owner))
      ensures ok && old(AllTracked(table.View(), owner)) && Small(a) ==> AllTracked(table.View(), owner)
    {
      hide KernelOk, Conserved, AllTracked, SharedTables, Inv, Tick, Sleep, Yield, Exit, Spawn, ReservedFrames, Closed,
        ProgramSeen, FreeSlot, OwnedBy, Walk, KeepsTask, SameSlots, Live, Reached, Untabled, KeepsUnshared, HasPd, Pde;
      ok, left, step := true, false, IdleStep(a);
      ghost var s, mem0 := table.View(), machine.mem;
      CurrentInRange(s);
      AllKept(mem0, s);
      if a.DoTick? {
        var out := TickTask(a.sp);
        SlotsKept(mem0, s, table.View());
      } else if table.tasks[table.current].state == Running || table.tasks[table.current].state == Ready {
        match a
        case DoTick(_) =>
        case DoSleep(ms) =>
          SleepTask(ms);
          SlotsKept(mem0, s, table.View());
        case DoYield =>
          YieldTask();
          SlotsKept(mem0, s, table.View());
        case DoExit =>
          var code := ExitTask();
          left := code == 0;
          forall j: nat | Live(s, j) && s.current != j ensures KeepsTask(mem0, s, machine.mem, table.View(), j) {
            KeepsByExit(mem0, s, j);
          }
        case DoStore(va, v) =>
          if table.current != 0 {
            var stored := StoreByte(va, v);
          }
        case DoSpawn(code, sp) =>
          var r;
          ok, r := SpawnTask(code, sp);
          if !ok { return; }
          if r.Ok? {
            step := SpawnStep(table.tasks[r.value].root, sp, table.tasks[r.value].frames);
          } else {
            NoSlot(s, step);
          }
      }
    }

    /** Any run of the kernel, until it halts for want of memory: every frame held has one owner
        throughout, the reserved frames stay the same ones, and the task table makes a run of the
        scheduler. A kernel with last-level tables below 512 GiB (`shared`) gives exactly those away
        with the first task that exits, and runs on so up to the next spawn. */
    method RunActions(actions: seq<Action>, shared: bool, ghost j: nat)
      returns (ok: bool, n: nat, ghost steps: seq<Step>)
      requires Valid() && lost == {} && (shared || SharedTables(machine.kernel) == map[])
      requires forall a :: a in actions && a.DoSpawn? ==> Reached(machine.mem, machine.kernelRoot, a.code)
      modifies this, machine`mem, machine.frames`hint, machine.frames.bitmap, table, table.tasks
      ensures ok ==> n <= |actions| && Logged(actions[..n], steps)
      ensures ok ==> Valid() && table.View() == Run(old(table.View()), steps)
      ensures ok ==> lost == if NobodyLeft(old(table.View()), steps) then {} else SharedTables(machine.kernel).Keys
      ensures ok && n < |actions| ==> shared && actions[n].DoSpawn? && !NobodyLeft(old(table.View()), steps)
      ensures ok && Live(old(table.View()), j) && Quiet(old(table.View()), actions[..n], steps, j) ==>
        KeepsTask(old(machine.mem), old(table.View()), machine.mem, table.View(), j)
      ensures ok ==> SameDirs(old(machine.mem), machine.mem, machine.kernelRoot)
      ensures ok && (forall a :: a in actions && a.DoSpawn? ==>
                       Untabled(old(machine.mem), machine.kernelRoot, a.code)) ==>
        KeepsKernel(old(machine.mem), machine.mem, machine.kernelRoot, machine.kernel)
      ensures ok ==> ReservedFrames(owner) == old(ReservedFrames(owner))
      ensures ok && old(AllTracked(table.View(), owner)) && (forall a :: a in actions ==> Small(a)) ==>
        AllTracked(table.View(), owner)
    {
      hide KernelOk, Conserved, AllTracked, SharedTables, Inv, ReservedFrames, Do, Run, Calls, Matches, CanLeave,
        NobodyLeft, Logged, Quiet, KeepsTask, Live, Reached, Untabled, SameDirs, KeepsKernel, Held, OwnAct, Small;
      ghost var s, mem0, kroot := table.View(), machine.mem, machine.kernelRoot;
      ok, n, steps := true, 0, [];
      var gone := false;
      RunStart(s, actions);
      AllKept(mem0, s);
      KernelKept(mem0, kroot, machine.kernel);
      while n < |actions|
        invariant 0 <= n <= |actions| && ok && Logged(actions[..n], steps)
        invariant Valid() && table.View() == Run(s, steps)
        invariant gone <==> !NobodyLeft(s, steps)
        invariant lost == if gone then SharedTables(machine.kernel).Keys else {}
        invariant Live(s, j) && Quiet(s, actions[..n], steps, j) ==> KeepsTask(mem0, s, machine.mem, table.View(), j)
        invariant SameDirs(mem0, machine.mem, kroot)
        invariant (forall a :: a in actions && a.DoSpawn? ==> Untabled(mem0, kroot, a.code)) ==>
          KeepsKernel(mem0, machine.mem, kroot, machine.kernel)
        invariant ReservedFrames(owner) == old(ReservedFrames(owner))
        invariant old(AllTracked(table.View(), owner)) && (forall a :: a in actions ==> Small(a)) ==>
          AllTracked(table.View(), owner)
      {
        ghost var step, before := YieldStep, steps;
        ghost var mem1, s1 := machine.mem, table.View();
        var a, left := actions[n], false;
        if a.DoSpawn? {
          if gone && shared { return; }
          ReachedKept(mem0, mem1, kroot, a.code);
        }
        ok, left, step := Act(a);
        if !ok { return; }
        SameDirsTwice(mem0, mem1, machine.mem, kroot);
        KernelKeptTwice(mem0, mem1, machine.mem, kroot, machine.kernel);
        LoggedSnoc(actions, n, steps, step);
        if !a.DoStore? {
          RunAppend(s, before, step);
          NobodyLeftSnoc(s, before, step);
          ExitMatches(a, step);
          steps := before + [step];
        }
        QuietStep(s, actions, n, before, steps, j, mem0, mem1, s1, machine.mem, table.View());
        gone := gone || left;
        n := n + 1;
      }
      assert actions[..n] == actions;
    }

    method FramesOf(pages: seq<UserPage>) returns (frames: seq<nat>)
      ensures |frames| == |pages| && forall k :: 0 <= k < |frames| ==> frames[k] == pages[k].frame
      ensures forall f :: f in frames <==> f in DataFrames(pages)
    {
      frames := [];
      for i := 0 to |pages|
        invariant |frames| == i && forall k :: 0 <= k < i ==> frames[k] == pages[k].frame
      {
        frames := frames + [pages[i].frame];
      }
      forall f | f in DataFrames(pages) ensures f in frames {
        var k :| 0 <= k < |pages| && pages[k].frame == f;
        assert frames[k] == f;
      }
    }
  }

  /** The step that an action is when it does nothing. */
  function IdleStep(a: Action): Step {
    match a
    case DoTick(sp) => TickStep(sp)
    case DoSleep(ms) => SleepStep(ms)
    case DoYield => YieldStep
    case DoExit => ExitStep
    case DoSpawn(_, sp) => SpawnStep(0, sp, [])
    case DoStore(_, _) => YieldStep
  }

  lemma RunStart(s: Sched, actions: seq<Action>)
    requires Inv(s)
    ensures Run(s, []) == s && NobodyLeft(s, []) && Logged(actions[..0], [])
  {
  }

  lemma ExitMatches(a: Action, step: Step)
    requires Matches(a, step)
    ensures step.ExitStep? <==> a.DoExit?
  {
  }

  lemma LoadedRoot(s: Sched)
    requires Inv(s) && CanLeave(s)
    ensures s.cr3 == s.tasks[s.current].root && Live(s, s.current)
  {
  }

  lemma StoreOk(mem: Memory, kernel: Labels, used: set<nat>, s: Sched, owner: map<nat, Owner>,
                spaces: map<nat, Labels>, va: nat, v: byte)
    requires Conserved(mem, kernel, used, s, owner, spaces) && Live(s, s.current)
    requires SameTranslation(mem, StoreAt(mem, s.tasks[s.current].root, va, v), s.tasks[s.current].root)
    ensures var root := s.tasks[s.current].root;
            var m := Walk(mem, root, Indices(va));
            && (m.Mapped? && m.user ==> m.frame in mem && mem[m.frame].Data? && |mem[m.frame].bytes| == 4096)
            && (va < CANONICAL_END && m.Mapped? && m.user && m.write ==>
                  ByteAt(StoreAt(mem, root, va, v), root, va) == Some(v))
  {
    hide Walk, UserSpace, NoGiants, SharedTables;
    assert TaskOk(mem, kernel, used, s.tasks[s.current], owner, spaces[s.current], s.current);
    assert Canonical(Indices(va));
  }

  /** What an exit gives away is what it frees less what the task owns. */
  lemma GivenBack(now: set<nat>, used: set<nat>, lost: set<nat>, tables: set<nat>, kernel: set<nat>, data: set<nat>,
                  shared: set<nat>)
    requires now == used - data - tables && tables * kernel == shared && data !! kernel && kernel <= used + lost
    requires lost == {} || lost == shared
    ensures now + shared == used + lost - (tables - kernel + data) && shared !! now
  {
    forall f ensures f in shared <==> f in tables && f in kernel {
      assert f in shared <==> f in tables * kernel;
    }
  }
}
