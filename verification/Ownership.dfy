// Which frame belongs to whom: the task table's part of src/task.rs.

/** Who owns which frame. */
module Ownership {
  import opened Wrappers
  import opened PageTables
  import opened KernelTables
  import opened UserTables
  import opened Scheduler

  /** The owner of a frame in use. A leaked frame belonged to an exited task that held more pages
      than a task slot records. */
  datatype Owner = Reserved | KernelTable | TaskTables(slot: nat) | TaskData(slot: nat) | Leaked

  predicate Live(s: Sched, i: nat) {
    1 <= i < |s.tasks| && s.tasks[i].state != Unused
  }

  /** The data frames that belong to the task in slot i. */
  ghost function DataOf(owner: map<nat, Owner>, i: nat): set<nat> { set f | f in owner && owner[f] == TaskData(i) }

  /** Slot i: its tables form its address space. They are the frames owned as its tables, and the
      kernel's last-level tables below 512 GiB, which it shares. What it can reach as a user
      are its own data frames. */
  ghost predicate TaskOk(mem: Memory, kernel: Labels, used: set<nat>, t: Task, owner: map<nat, Owner>, labels: Labels,
                         i: nat) {
    && UserSpace(mem, t.root, labels, kernel, used) && NoGiants(mem, labels)
    && labels.Keys * kernel.Keys == SharedTables(kernel).Keys
    && UserReach(mem, t.root, DataOf(owner, i))
    && (forall f :: f in labels && f !in kernel <==> f in owner && owner[f] == TaskTables(i))
    && (forall f :: f in t.frames ==> f in owner && owner[f] == TaskData(i))
    && (forall f :: f in owner && owner[f] == TaskData(i) ==> f in mem && mem[f].Data? && |mem[f].bytes| == 4096)
  }

  /** Every frame in use has an owner, frame 0 the boot; tasks that own something are live. */
  ghost predicate OwnersOk(kernel: Labels, used: set<nat>, s: Sched, owner: map<nat, Owner>) {
    && used == owner.Keys
    && 0 in owner && owner[0] == Reserved
    && (forall f :: f in kernel <==> f in owner && owner[f] == KernelTable)
    && (forall f :: f in owner && owner[f].TaskTables? ==> Live(s, owner[f].slot))
    && (forall f :: f in owner && owner[f].TaskData? ==> Live(s, owner[f].slot))
  }

  /** The frames in use are the disjoint union of the reserved frames, the kernel's tables, each
      live task's tables and data frames, and the leaked ones: `owner` gives each one owner. */
  ghost predicate Conserved(mem: Memory, kernel: Labels, used: set<nat>, s: Sched, owner: map<nat, Owner>,
                            spaces: map<nat, Labels>) {
    && OwnersOk(kernel, used, s, owner)
    && (forall i: nat :: Live(s, i) ==> i in spaces && TaskOk(mem, kernel, used, s.tasks[i], owner, spaces[i], i))
  }

  /** No task holds a data frame that its slot does not record. */
  ghost predicate AllTracked(s: Sched, owner: map<nat, Owner>) {
    && (forall f :: f in owner && owner[f].TaskData? ==> Live(s, owner[f].slot) && f in s.tasks[owner[f].slot].frames)
    && (forall f :: f in owner ==> owner[f] != Leaked)
  }

  /** Slots keep what their tasks own when the scheduler only changes states and stack pointers. */
  ghost predicate SameSlots(s: Sched, s': Sched) {
    && |s'.tasks| == |s.tasks|
    && forall i :: 0 <= i < |s.tasks| ==>
         && s'.tasks[i].root == s.tasks[i].root && s'.tasks[i].frames == s.tasks[i].frames
         && (s'.tasks[i].state == Unused <==> s.tasks[i].state == Unused)
  }

  lemma ConservedBySameSlots(mem: Memory, kernel: Labels, used: set<nat>, s: Sched, owner: map<nat, Owner>,
                             spaces: map<nat, Labels>, s': Sched)
    requires Conserved(mem, kernel, used, s, owner, spaces) && SameSlots(s, s')
    ensures Conserved(mem, kernel, used, s', owner, spaces)
    ensures AllTracked(s, owner) ==> AllTracked(s', owner)
  {
    hide UserSpace, UserReach;
    forall i: nat | Live(s', i) ensures i in spaces && TaskOk(mem, kernel, used, s'.tasks[i], owner, spaces[i], i) {
      assert Live(s, i);
      assert TaskOk(mem, kernel, used, s.tasks[i], owner, spaces[i], i);
    }
    forall f | f in owner && owner[f].TaskData? ensures Live(s', owner[f].slot) {
      assert Live(s, owner[f].slot);
    }
    forall f | f in owner && owner[f].TaskTables? ensures Live(s', owner[f].slot) {
      assert Live(s, owner[f].slot);
    }
  }

  // ---- Spawn ----

  /** The owners after a task with these tables and data frames joins in slot i. */
  ghost function WithTask(owner: map<nat, Owner>, labels: Labels, data: set<nat>, i: nat): map<nat, Owner> {
    map f | f in owner.Keys + labels.Keys + data ::
      if f in owner then owner[f] else if f in labels then TaskTables(i) else TaskData(i)
  }

  /** The frames in use are as they were, but for what is in the tables that the kernel shares. */
  ghost predicate KeepsUnshared(mem: Memory, mem': Memory, kernel: Labels, used: set<nat>) {
    Agree(mem, mem', used - SharedTables(kernel).Keys) && forall f :: f in SharedTables(kernel) ==> IsTable(mem', f)
  }

  lemma ConservedBySpawn(mem: Memory, kernel: Labels, used: set<nat>, s: Sched, owner: map<nat, Owner>,
                         spaces: map<nat, Labels>, mem': Memory, used': set<nat>, root: nat, labels: Labels,
                         data: set<nat>, frames: seq<nat>, sp: nat, i: nat, s': Sched)
    requires Conserved(mem, kernel, used, s, owner, spaces) && KeepsUnshared(mem, mem', kernel, used)
    requires |s.tasks| == MAX_TASKS && s.current < MAX_TASKS
    requires FreeSlot(s.tasks, 1) == Some(i) && s' == Spawn(s, root, sp, frames)
    requires UserSpace(mem', root, labels, kernel, used') && NoGiants(mem', labels)
    requires used' == used + labels.Keys + data
    requires labels.Keys - kernel.Keys !! used && labels.Keys * kernel.Keys == SharedTables(kernel).Keys
    requires data !! used + labels.Keys && (forall f :: f in frames <==> f in data)
    requires forall f :: f in data ==> f in mem' && mem'[f].Data? && |mem'[f].bytes| == 4096
    requires UserReach(mem', root, data)
    ensures Conserved(mem', kernel, used', s', WithTask(owner, labels, data, i), spaces[i := labels])
  {
    hide UserSpace, UserReach, NoGiants, Spawn, FreeSlot, WithTask, TaskOk, KeepsUnshared, SharedTables, OwnersOk;
    var owner' := WithTask(owner, labels, data, i);
    SpawnSlots(s, root, sp, frames, i, s');
    OwnersJoin(kernel, used, s, owner, used', labels, data, i, s');
    NewTask(mem', kernel, used, used', s'.tasks[i], owner, owner', labels, data, i);
    forall j: nat | Live(s', j) && j != i
      ensures j in spaces && TaskOk(mem', kernel, used', s'.tasks[j], owner', spaces[j], j)
    {
      assert Live(s, j) && TaskOk(mem, kernel, used, s.tasks[j], owner, spaces[j], j);
      TaskKept(mem, kernel, used, s.tasks[j], owner, spaces[j], j, mem', used', owner');
    }
  }

  /** The owners when a task joins; the slot it takes owned nothing. */
  lemma OwnersJoin(kernel: Labels, used: set<nat>, s: Sched, owner: map<nat, Owner>, used': set<nat>, labels: Labels,
                   data: set<nat>, i: nat, s': Sched)
    requires OwnersOk(kernel, used, s, owner) && used' == used + labels.Keys + data && !Live(s, i) && Live(s', i)
    requires forall j: nat :: j != i ==> (Live(s', j) <==> Live(s, j))
    ensures OwnersOk(kernel, used', s', WithTask(owner, labels, data, i)) && kernel.Keys <= used && owner.Keys == used
    ensures forall f :: f in owner ==> owner[f] != TaskTables(i) && owner[f] != TaskData(i)
    ensures forall f :: f in kernel <==> f in owner && owner[f] == KernelTable
    ensures var owner' := WithTask(owner, labels, data, i);
            && owner'.Keys == used' && (forall f :: f in owner ==> f in owner' && owner'[f] == owner[f])
            && forall f, j :: f in owner' && f !in owner && j != i ==>
                 owner'[f] != TaskTables(j) && owner'[f] != TaskData(j)
  {
    hide WithTask, Live;
    SpawnOwners(owner, labels, data, i);
  }

  lemma NewTask(mem: Memory, kernel: Labels, used: set<nat>, used': set<nat>, t: Task, owner: map<nat, Owner>,
                owner': map<nat, Owner>, labels: Labels, data: set<nat>, i: nat)
    requires UserSpace(mem, t.root, labels, kernel, used') && NoGiants(mem, labels) && owner.Keys == used
    requires owner' == WithTask(owner, labels, data, i)
    requires labels.Keys - kernel.Keys !! used && labels.Keys * kernel.Keys == SharedTables(kernel).Keys
    requires data !! used + labels.Keys && kernel.Keys <= used
    requires forall f :: f in owner ==> owner[f] != TaskTables(i) && owner[f] != TaskData(i)
    requires forall f :: f in t.frames ==> f in data
    requires forall f :: f in data ==> f in mem && mem[f].Data? && |mem[f].bytes| == 4096
    requires UserReach(mem, t.root, data)
    ensures TaskOk(mem, kernel, used', t, owner', labels, i)
  {
    hide UserSpace, Walk, SharedTables;
    assert data <= DataOf(owner', i);
  }

  lemma TrackedBySpawn(s: Sched, owner: map<nat, Owner>, labels: Labels, data: set<nat>, root: nat, frames: seq<nat>,
                       sp: nat, i: nat, s': Sched)
    requires |s.tasks| == MAX_TASKS && s.current < MAX_TASKS
    requires FreeSlot(s.tasks, 1) == Some(i) && s' == Spawn(s, root, sp, frames)
    requires AllTracked(s, owner) && |frames| <= MAX_USER_FRAMES && forall f :: f in frames <==> f in data
    ensures AllTracked(s', WithTask(owner, labels, data, i))
  {
    hide Spawn, FreeSlot, WithTask;
    SpawnSlots(s, root, sp, frames, i, s');
    SpawnOwners(owner, labels, data, i);
  }

  lemma SpawnSlots(s: Sched, root: nat, sp: nat, frames: seq<nat>, i: nat, s': Sched)
    requires |s.tasks| == MAX_TASKS && s.current < MAX_TASKS
    requires FreeSlot(s.tasks, 1) == Some(i) && s' == Spawn(s, root, sp, frames)
    ensures |s'.tasks| == MAX_TASKS && 1 <= i < MAX_TASKS && s.tasks[i].state == Unused
    ensures s'.tasks[i].state == Ready && s'.tasks[i].root == root
    ensures s'.tasks[i].frames <= frames && (|frames| <= MAX_USER_FRAMES ==> s'.tasks[i].frames == frames)
    ensures forall j :: 0 <= j < MAX_TASKS && j != i ==> s'.tasks[j] == s.tasks[j]
  {
  }

  lemma SpawnOwners(owner: map<nat, Owner>, labels: Labels, data: set<nat>, i: nat)
    ensures WithTask(owner, labels, data, i).Keys == owner.Keys + labels.Keys + data
    ensures forall f :: f in owner ==> WithTask(owner, labels, data, i)[f] == owner[f]
    ensures forall f :: f in labels && f !in owner ==> WithTask(owner, labels, data, i)[f] == TaskTables(i)
    ensures forall f :: f in data && f !in owner && f !in labels ==> WithTask(owner, labels, data, i)[f] == TaskData(i)
  {
  }

  /** Another slot's task when frames are added to those in use. */
  lemma TaskKept(mem: Memory, kernel: Labels, used: set<nat>, t: Task, owner: map<nat, Owner>, labels: Labels, j: nat,
                 mem': Memory, used': set<nat>, owner': map<nat, Owner>)
    requires TaskOk(mem, kernel, used, t, owner, labels, j) && KeepsUnshared(mem, mem', kernel, used) && used <= used'
    requires owner.Keys == used && owner'.Keys == used'
    requires forall f :: f in kernel <==> f in owner && owner[f] == KernelTable
    requires forall f :: f in owner ==> owner'[f] == owner[f]
    requires forall f :: f in owner' && f !in owner ==> owner'[f] != TaskTables(j) && owner'[f] != TaskData(j)
    ensures TaskOk(mem', kernel, used', t, owner', labels, j)
  {
    hide UserSpace, Walk, NoGiants;
    UnsharedUser(mem, kernel, used, t, owner, labels, j, mem', used');
    assert DataOf(owner', j) == DataOf(owner, j);
    forall f | f in owner && owner[f] == TaskData(j) ensures f in mem' && mem'[f] == mem[f] {
      assert f !in kernel;
    }
  }

  /** What the users of a task reach is as it was. */
  lemma UnsharedUser(mem: Memory, kernel: Labels, used: set<nat>, t: Task, owner: map<nat, Owner>, labels: Labels,
                     j: nat, mem': Memory, used': set<nat>)
    requires TaskOk(mem, kernel, used, t, owner, labels, j) && KeepsUnshared(mem, mem', kernel, used) && used <= used'
    ensures UserSpace(mem', t.root, labels, kernel, used') && NoGiants(mem', labels) && SameUser(mem, mem', t.root)
    ensures UserReach(mem', t.root, DataOf(owner, j))
  {
    hide UserSpace, Walk, NoGiants;
    LabelsUsed(mem, t.root, labels, kernel, used);
    forall f | f in labels && f in kernel ensures IsTable(mem', f) {
      assert f in labels.Keys * kernel.Keys;
      assert f in SharedTables(kernel).Keys;
    }
    assert Agree(mem, mem', labels.Keys - kernel.Keys);
    UserFrameShared(mem, t.root, labels, kernel, used, mem', used');
  }

  // ---- Exit ----

  /** The owners after the task in slot i gives back `freed`; what it held besides is leaked. */
  ghost function WithoutTask(owner: map<nat, Owner>, freed: set<nat>, i: nat): map<nat, Owner> {
    map f | f in owner && f !in freed :: if owner[f] == TaskData(i) then Leaked else owner[f]
  }

  lemma ConservedByExit(mem: Memory, kernel: Labels, used: set<nat>, s: Sched, owner: map<nat, Owner>,
                        spaces: map<nat, Labels>, freed: set<nat>, s': Sched)
    requires Conserved(mem, kernel, used, s, owner, spaces)
    requires |s.tasks| == MAX_TASKS && 1 <= s.current < MAX_TASKS && s.tasks[s.current].state != Unused && s' == Exit(s)
    requires s.current in spaces
    requires freed == spaces[s.current].Keys - kernel.Keys + set f | f in s.tasks[s.current].frames
    ensures Conserved(mem, kernel, used - freed, s', WithoutTask(owner, freed, s.current), spaces)
  {
    hide UserSpace, WithoutTask, TaskOk;
    var i := s.current;
    var owner' := WithoutTask(owner, freed, i);
    ExitOwners(owner, freed, i);
    assert Live(s, i) && TaskOk(mem, kernel, used, s.tasks[i], owner, spaces[i], i);
    FreedOwners(mem, kernel, used, s.tasks[i], owner, spaces[i], i, freed);
    forall f | f in owner' && (owner'[f].TaskTables? || owner'[f].TaskData?)
      ensures owner'[f].slot != i && Live(s', owner'[f].slot)
    {
      assert Live(s, owner[f].slot);
    }
    forall j: nat | Live(s', j)
      ensures j in spaces && TaskOk(mem, kernel, used - freed, s'.tasks[j], owner', spaces[j], j)
    {
      assert j != i && Live(s, j) && TaskOk(mem, kernel, used, s.tasks[j], owner, spaces[j], j);
      OtherTask(mem, kernel, used, s.tasks[j], owner, spaces[j], j, freed, i);
    }
  }

  /** What a task gives back is its own. */
  lemma FreedOwners(mem: Memory, kernel: Labels, used: set<nat>, t: Task, owner: map<nat, Owner>, labels: Labels,
                    i: nat, freed: set<nat>)
    requires TaskOk(mem, kernel, used, t, owner, labels, i)
    requires freed == labels.Keys - kernel.Keys + set f | f in t.frames
    ensures forall f :: f in freed ==> f in owner && (owner[f] == TaskTables(i) || owner[f] == TaskData(i))
    ensures forall f :: f in owner && owner[f] == TaskTables(i) ==> f in freed
  {
    hide UserSpace, UserReach;
  }

  lemma OtherTask(mem: Memory, kernel: Labels, used: set<nat>, t: Task, owner: map<nat, Owner>, labels: Labels, j: nat,
                  freed: set<nat>, i: nat)
    requires TaskOk(mem, kernel, used, t, owner, labels, j) && i != j && owner.Keys == used
    requires forall f :: f in kernel ==> f in owner && owner[f] == KernelTable
    requires forall f :: f in freed ==> f in owner && (owner[f] == TaskTables(i) || owner[f] == TaskData(i))
    ensures TaskOk(mem, kernel, used - freed, t, WithoutTask(owner, freed, i), labels, j)
  {
    hide UserSpace, WithoutTask, Walk;
    ExitOwners(owner, freed, i);
    assert DataOf(WithoutTask(owner, freed, i), j) == DataOf(owner, j);
    SharedKept(mem, kernel, used, t, owner, labels, j, freed, i);
    ShrinkUsed(mem, t.root, labels, kernel, used, used - freed);
  }

  /** None of another task's tables is among what task i gives back. */
  lemma SharedKept(mem: Memory, kernel: Labels, used: set<nat>, t: Task, owner: map<nat, Owner>, labels: Labels, j: nat,
                   freed: set<nat>, i: nat)
    requires TaskOk(mem, kernel, used, t, owner, labels, j) && i != j && owner.Keys == used
    requires forall f :: f in kernel ==> f in owner && owner[f] == KernelTable
    requires forall f :: f in freed ==> f in owner && (owner[f] == TaskTables(i) || owner[f] == TaskData(i))
    ensures labels.Keys <= used - freed
  {
    hide UserSpace, UserReach, SharedTables;
    forall f | f in labels ensures f in used - freed {
      if f in kernel {
        assert owner[f] == KernelTable;
      } else {
        assert owner[f] == TaskTables(j);
      }
    }
  }

  lemma TrackedByExit(s: Sched, owner: map<nat, Owner>, freed: set<nat>, s': Sched)
    requires |s.tasks| == MAX_TASKS && 1 <= s.current < MAX_TASKS && s' == Exit(s) && AllTracked(s, owner)
    requires forall f :: f in s.tasks[s.current].frames ==> f in freed
    ensures AllTracked(s', WithoutTask(owner, freed, s.current))
  {
    hide WithoutTask;
    ExitOwners(owner, freed, s.current);
  }

  lemma ExitOwners(owner: map<nat, Owner>, freed: set<nat>, i: nat)
    ensures WithoutTask(owner, freed, i).Keys == owner.Keys - freed
    ensures forall f :: f in owner && f !in freed ==>
      WithoutTask(owner, freed, i)[f] == if owner[f] == TaskData(i) then Leaked else owner[f]
  {
  }

  lemma ShrinkUsed(mem: Memory, root: nat, labels: Labels, kernel: Labels, used: set<nat>, used': set<nat>)
    requires UserSpace(mem, root, labels, kernel, used) && labels.Keys <= used'
    ensures UserSpace(mem, root, labels, kernel, used')
  {
  }
}
