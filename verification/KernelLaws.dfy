// What spawning and exiting tasks keep: src/main.rs (spawn_userspace_task) and src/task.rs
// (exit_current_task).

/** What the kernel's operations keep, as laws about its state. */
module KernelLaws {
  import opened Wrappers
  import opened Bytes
  import opened Words
  import opened Frames
  import opened PageTables
  import opened KernelTables
  import opened UserTables
  import opened Scheduler
  import opened Ownership
  import opened Programs

  /** The frames that belong to the task in slot i. */
  ghost function OwnedBy(owner: map<nat, Owner>, i: nat): set<nat> {
    set f | f in owner && (owner[f] == TaskTables(i) || owner[f] == TaskData(i))
  }

  ghost function ReservedFrames(owner: map<nat, Owner>): set<nat> { set f | f in owner && owner[f] == Reserved }

  ghost function FrameSet(frames: seq<nat>): set<nat> { set f | f in frames }

  /** The kernel's tables: a tree in use, with a table below 512 GiB and no 1 GiB page. */
  ghost predicate KernelOk(mem: Memory, kroot: nat, kernel: Labels, used: set<nat>) {
    KernelSpace(mem, kroot, kernel, used) && Ptr(At(mem, kroot, 0)) && NoGiants(mem, kernel)
  }

  /** Tables that are all in `used'` as well. */
  lemma KernelMoved(mem: Memory, kroot: nat, kernel: Labels, used: set<nat>, used': set<nat>)
    requires KernelOk(mem, kroot, kernel, used) && kernel.Keys <= used'
    ensures KernelOk(mem, kroot, kernel, used')
  {
  }

  lemma KernelUsed(mem: Memory, kroot: nat, kernel: Labels, used: set<nat>)
    requires KernelOk(mem, kroot, kernel, used)
    ensures kernel.Keys <= used && kroot in kernel
  {
  }

  /** The kernel keeps its page directories, entry for entry. */
  ghost predicate SameDirs(mem: Memory, mem': Memory, kroot: nat) {
    forall v :: Canonical(v) ==>
      && HasPd(mem', kroot, v) == HasPd(mem, kroot, v)
      && (HasPd(mem, kroot, v) ==> Pde(mem', kroot, v) == Pde(mem, kroot, v))
  }

  lemma SameDirsTwice(mem: Memory, mem': Memory, mem'': Memory, kroot: nat)
    requires SameDirs(mem, mem', kroot) && SameDirs(mem', mem'', kroot)
    ensures SameDirs(mem, mem'', kroot)
  {
    hide HasPd, Pde;
  }

  /** So its 2 MiB pages and its last-level tables stay where they are. */
  lemma DirsKept(mem: Memory, mem': Memory, kroot: nat, v: Va)
    requires SameDirs(mem, mem', kroot) && Canonical(v)
    ensures Leafy(mem', kroot, v) <==> Leafy(mem, kroot, v)
    ensures Tabled(mem', kroot, v) <==> Tabled(mem, kroot, v)
    ensures Reaches(mem', kroot, v) <==> Reaches(mem, kroot, v)
  {
    hide HasPd, Pde;
  }

  /** Memory that differs outside the kernel's tables only. */
  lemma KernelSame(mem: Memory, kroot: nat, kernel: Labels, used: set<nat>, mem': Memory)
    requires KernelOk(mem, kroot, kernel, used) && Agree(mem, mem', kernel.Keys)
    ensures KernelOk(mem', kroot, kernel, used) && SameTranslation(mem, mem', kroot) && SameDirs(mem, mem', kroot)
    ensures Closed(mem, kernel) ==> Closed(mem', kernel)
  {
    hide Walk, IsTree, KernelShape, NoGiants, Closed, HasPd, Pde;
    KernelFrame(mem, kroot, kernel, kernel.Keys, mem');
    GiantsKept(mem, kernel, mem');
    KernelPath0(mem, mem', kroot, kernel, used);
    KernelUsed(mem, kroot, kernel, used);
  }

  /** Memory that differs in the kernel's last-level tables, too. */
  lemma KernelDirs(mem: Memory, kroot: nat, kernel: Labels, used: set<nat>, mem': Memory)
    requires KernelOk(mem, kroot, kernel, used) && Agree(mem, mem', used - SharedTables(kernel).Keys)
    ensures SameDirs(mem, mem', kroot) && Ptr(At(mem', kroot, 0))
  {
    forall f, i | f in kernel && !kernel[f].N1? && 0 <= i < 512 ensures At(mem', f, i) == At(mem, f, i) {
      assert IsTable(mem, f) && f in used - SharedTables(kernel).Keys;
    }
    KernelPath0(mem, mem', kroot, kernel, used);
    assert kroot in kernel && kernel[kroot] == N4;
  }

  // ---- Exit restores what spawn took ----

  /** Giving back a task's tables and its recorded data frames restores the frames in use from
      before it was built if and only if the kernel has no last-level table below its first
      PML4 entry and the task has at most MAX_USER_FRAMES pages. */
  lemma SpawnExitRestores(mem0: Memory, kroot: nat, kernel: Labels, used0: set<nat>,
                          mem: Memory, used: set<nat>, root: nat, labels: Labels, pages: seq<UserPage>)
    requires Building(mem0, kroot, kernel, used0, mem, used, root, labels, pages)
    ensures used - Freed(mem, root, kroot) - DataFrames(pages[..Min(|pages|, MAX_USER_FRAMES)]) == used0
       <==> SharedTables(kernel) == map[] && |pages| <= MAX_USER_FRAMES
  {
    hide Building, SharedTables, Freed;
    BuildingFacts(mem0, kroot, kernel, used0, mem, used, root, labels, pages);
    FreedIsReachable(mem, root, labels, kroot, kernel, used);
    var n := Min(|pages|, MAX_USER_FRAMES);
    var left := used - Freed(mem, root, kroot) - DataFrames(pages[..n]);
    if SharedTables(kernel) != map[] {
      assert SharedTables(kernel).Keys != {};
      var f :| f in SharedTables(kernel).Keys;
      assert f in labels.Keys * kernel.Keys;
      assert f in used0 && f !in left;
    } else if |pages| > MAX_USER_FRAMES {
      assert pages[n] in pages;
      assert pages[n].frame in left && pages[n].frame !in used0;
    } else {
      assert pages[..n] == pages;
      forall f | f in labels ensures f !in used0 {
        assert f !in labels.Keys * kernel.Keys;
        assert f in labels.Keys - kernel.Keys;
      }
      assert left == used0;
    }
  }

  /** The kernel tables that an exit gives away are exactly the last-level ones the task shares. */
  lemma KernelTablesFreed(mem0: Memory, kroot: nat, kernel: Labels, used0: set<nat>,
                          mem: Memory, used: set<nat>, root: nat, labels: Labels, pages: seq<UserPage>)
    requires Building(mem0, kroot, kernel, used0, mem, used, root, labels, pages)
    ensures Freed(mem, root, kroot) * kernel.Keys == SharedTables(kernel).Keys
  {
    hide Building, SharedTables, Freed;
    BuildingFacts(mem0, kroot, kernel, used0, mem, used, root, labels, pages);
    FreedIsReachable(mem, root, labels, kroot, kernel, used);
  }

  /** map_page gives the kernel a table that every task built later shares, if and only if the page
      lies below 512 GiB. */
  lemma MappedPageIsShared(kernel: Labels, kernel': Labels, v: Va)
    requires WayTo(kernel, kernel', v)
    ensures SharedTables(kernel') == map[] <==> SharedTables(kernel) == map[] && v.i4 != 0
  {
    if SharedTables(kernel') == map[] {
      forall f | f in SharedTables(kernel) ensures f in SharedTables(kernel') {
      }
      assert SharedTables(kernel) == map[];
      var f :| f in kernel' && kernel'[f] == AtNode(v);
      assert f !in SharedTables(kernel');
    } else if SharedTables(kernel) == map[] && v.i4 != 0 {
      forall f | f in kernel' ensures f !in SharedTables(kernel') {
        assert f in kernel ==> f !in SharedTables(kernel);
        assert f !in kernel ==> OnWay(kernel'[f], v);
      }
    }
  }

  // ---- Building a program ----

  /** The pages of a flat program, and its stack page. */
  function Asked(code: seq<byte>): seq<Request> { Wanted([CodeSegment(code)]) + [STACK] }

  /** The program lies below 512 GiB, and the kernel has a directory entry for each of its pages. */
  ghost predicate Reached(mem: Memory, kroot: nat, code: seq<byte>) {
    && USER_BASE_VA + |code| <= LOW_END
    && forall r :: r in Asked(code) ==> Reaches(mem, kroot, Indices(r.vaddr))
  }

  /** None of its pages falls into a last-level table of the kernel. */
  ghost predicate Untabled(mem: Memory, kroot: nat, code: seq<byte>) {
    forall r :: r in Asked(code) ==> !Tabled(mem, kroot, Indices(r.vaddr))
  }

  lemma ReachedKept(mem: Memory, mem': Memory, kroot: nat, code: seq<byte>)
    requires SameDirs(mem, mem', kroot)
    ensures Reached(mem', kroot, code) <==> Reached(mem, kroot, code)
    ensures Untabled(mem', kroot, code) <==> Untabled(mem, kroot, code)
  {
    hide Reaches, Tabled, Asked, SameDirs;
    forall va: nat
      ensures Reaches(mem', kroot, Indices(va)) <==> Reaches(mem, kroot, Indices(va))
      ensures Tabled(mem', kroot, Indices(va)) <==> Tabled(mem, kroot, Indices(va))
    {
      CanonicalIndices(va);
      DirsKept(mem, mem', kroot, Indices(va));
    }
  }

  /** Where the kernel's 2 MiB pages lie, a program is reached and meets no table. */
  lemma LeafyIsReached(mem: Memory, kroot: nat, v: Va)
    requires Leafy(mem, kroot, v) && v.i4 == 0
    ensures Reaches(mem, kroot, v) && !Tabled(mem, kroot, v)
  {
    hide HasPd, Pde;
  }

  lemma RequestsAsked(mem: Memory, kroot: nat, code: seq<byte>, pages: seq<UserPage>)
    requires Reached(mem, kroot, code) && Requests(pages) == Asked(code)
    ensures forall p :: p in pages ==> Indices(p.req.vaddr).i4 == 0
    ensures OffTables(mem, kroot, pages) <==> Untabled(mem, kroot, code)
  {
    hide Tabled, Asked;
    forall k | 0 <= k < |pages| ensures pages[k].req in Asked(code) {
      assert Requests(pages)[k] == pages[k].req;
    }
    forall r | r in Asked(code) ensures exists k :: 0 <= k < |pages| && pages[k].req == r {
      var k :| 0 <= k < |Requests(pages)| && Requests(pages)[k] == r;
      assert pages[k].req == r;
    }
    forall p | p in pages ensures Indices(p.req.vaddr).i4 == 0 {
      assert Reaches(mem, kroot, Indices(p.req.vaddr));
    }
  }

  /** Filling data frames changes no table, so no translation. */
  lemma FillKeeps(mem0: Memory, kroot: nat, kernel: Labels, used0: set<nat>,
                  mem: Memory, used: set<nat>, root: nat, labels: Labels, pages: seq<UserPage>, mem': Memory)
    requires KernelOk(mem0, kroot, kernel, used0) && forall p :: p in pages ==> Indices(p.req.vaddr).i4 == 0
    requires Building(mem0, kroot, kernel, used0, mem, used, root, labels, pages)
    requires forall f :: f in mem && f !in DataFrames(pages) ==> f in mem' && mem'[f] == mem[f]
    ensures UserSpace(mem', root, labels, kernel, used) && NoGiants(mem', labels)
    ensures KernelOk(mem', kroot, kernel, used) && SameDirs(mem0, mem', kroot)
    ensures KeepsUnshared(mem0, mem', kernel, used0)
    ensures forall v :: Canonical(v) ==> Walk(mem', root, v) == Expect(mem0, kroot, pages, v)
    ensures UserReach(mem', root, DataFrames(pages))
    ensures OffTables(mem0, kroot, pages) ==> KeepsKernel(mem0, mem', kroot, kernel) && Agree(mem0, mem', used0)
  {
    hide UserSpace, KernelSpace, Walk, NoGiants, Closed, Expect, KernelExpect, OffTables, Mirrors, HasPd, Pde;
    LabelsUsed(mem, root, labels, kernel, used);
    assert Agree(mem, mem', labels.Keys) && Agree(mem, mem', used0);
    UserFrame(mem, root, labels, kernel, used, mem', used);
    KernelDirs(mem0, kroot, kernel, used0, mem);
    KernelDirs(mem0, kroot, kernel, used0, mem');
    KernelSame(mem, kroot, kernel, used, mem');
    forall f | f in SharedTables(kernel) ensures IsTable(mem', f) {
      KernelTableAt(mem', kroot, kernel, used, f);
    }
    if OffTables(mem0, kroot, pages) {
      BuildEnd(mem0, kroot, kernel, used0, mem, used, root, labels, pages);
      SameTranslationTwice(mem0, mem, mem', kroot);
    }
    forall v | Canonical(v)
      ensures var m := Walk(mem', root, v); m.Mapped? && m.user ==> m.frame in DataFrames(pages) && v.i4 == 0
    {
      ExpectUser(mem0, kroot, kernel, used0, pages, v);
    }
  }

  ghost predicate DataPages(mem: Memory, pages: seq<UserPage>) {
    forall f :: f in DataFrames(pages) ==> f in mem && mem[f].Data? && |mem[f].bytes| == 4096
  }

  lemma FilledData(mem: Memory, pages: seq<UserPage>, segments: seq<Segment>, elf: seq<byte>)
    requires Filled(mem, pages, segments, elf)
    ensures DataPages(mem, pages)
  {
    forall f | f in DataFrames(pages) ensures f in mem && mem[f].Data? && |mem[f].bytes| == 4096 {
      var p :| p in pages && p.frame == f;
      var k :| 0 <= k < |pages| && pages[k] == p;
    }
  }

  lemma {:induction false} LoaderIn(segments: seq<Segment>, va: nat)
    ensures var s := Loader(segments, va); s.Some? ==> s.value in segments
  {
    if segments != [] {
      LoaderIn(segments[1..], va);
    }
  }

  /** A flat program has a page per 4096 bytes of code, and a stack page. */
  lemma CodePageCount(code: seq<byte>, pages: seq<UserPage>)
    requires Requests(pages) == Asked(code)
    requires USER_BASE_VA + |code| <= LOW_END
    ensures |pages| == (|code| + 4095) / 4096 + 1
  {
    CodePages(code, pages);
    var n := |pages| - 1;
    if n > 0 {
      PagesFromAll(USER_BASE_VA, USER_BASE_VA + |code|, true, true, n - 1);
    }
    if USER_BASE_VA + 4096 * n < USER_BASE_VA + |code| {
      PagesFromAt(USER_BASE_VA, USER_BASE_VA + |code|, true, true, n);
    }
  }

  // ---- Spawn ----

  lemma SpawnEnd(mem: Memory, kernel: Labels, used: set<nat>, s: Sched, owner: map<nat, Owner>,
                 spaces: map<nat, Labels>, mem': Memory, used': set<nat>, root: nat, labels: Labels,
                 pages: seq<UserPage>, frames: seq<nat>, sp: nat, i: nat, s': Sched)
    requires Conserved(mem, kernel, used, s, owner, spaces) && KeepsUnshared(mem, mem', kernel, used) && Inv(s)
    requires FreeSlot(s.tasks, 1) == Some(i) && s' == Spawn(s, root, sp, frames)
    requires UserSpace(mem', root, labels, kernel, used') && NoGiants(mem', labels) && DataPages(mem', pages)
    requires Owned(kernel, used, used', labels, pages) && UserReach(mem', root, DataFrames(pages))
    requires |frames| == |pages| && forall f :: f in frames <==> f in DataFrames(pages)
    ensures var owner' := WithTask(owner, labels, DataFrames(pages), i);
            && Conserved(mem', kernel, used', s', owner', spaces[i := labels])
            && used' == used + OwnedBy(owner', i) && OwnedBy(owner', i) !! used
            && ReservedFrames(owner') == ReservedFrames(owner)
            && (AllTracked(s, owner) && |pages| <= MAX_USER_FRAMES ==> AllTracked(s', owner'))
    ensures |s'.tasks| == MAX_TASKS && 1 <= i < MAX_TASKS && s'.tasks[0] == s.tasks[0] && s'.tasks[i].root == root
    ensures s' == Spawn(s, root, sp, s'.tasks[i].frames)
  {
    hide UserSpace, UserReach, NoGiants, Conserved, AllTracked, WithTask, Spawn, FreeSlot, SharedTables, KeepsUnshared;
    var data := DataFrames(pages);
    ConservedBySpawn(mem, kernel, used, s, owner, spaces, mem', used', root, labels, data, frames, sp, i, s');
    if AllTracked(s, owner) && |pages| <= MAX_USER_FRAMES {
      TrackedBySpawn(s, owner, labels, data, root, frames, sp, i, s');
    }
    SpawnSlots(s, root, sp, frames, i, s');
    RecordedFrames(s, root, sp, frames, i);
    SpawnOwners(owner, labels, data, i);
    FreshOwners(mem, kernel, used, s, owner, spaces, labels, data, i);
    ReservedStay(mem, kernel, used, s, owner, spaces, labels, data, i);
  }

  lemma ReservedStay(mem: Memory, kernel: Labels, used: set<nat>, s: Sched, owner: map<nat, Owner>,
                     spaces: map<nat, Labels>, labels: Labels, data: set<nat>, i: nat)
    requires Conserved(mem, kernel, used, s, owner, spaces)
    ensures ReservedFrames(WithTask(owner, labels, data, i)) == ReservedFrames(owner)
  {
    hide Conserved;
  }

  /** Spawning with the frames that the slot records gives the same task. */
  lemma RecordedFrames(s: Sched, root: nat, sp: nat, frames: seq<nat>, i: nat)
    requires Inv(s) && FreeSlot(s.tasks, 1) == Some(i)
    ensures var s' := Spawn(s, root, sp, frames); i < |s'.tasks| && s' == Spawn(s, root, sp, s'.tasks[i].frames)
  {
    var kept := frames[..Min(|frames|, MAX_USER_FRAMES)];
    assert Spawn(s, root, sp, frames).tasks[i].frames == kept && kept[..Min(|kept|, MAX_USER_FRAMES)] == kept;
  }

  /** What the new task owns: its tables that are not the kernel's, and its data. */
  lemma FreshOwners(mem: Memory, kernel: Labels, used: set<nat>, s: Sched, owner: map<nat, Owner>,
                    spaces: map<nat, Labels>, labels: Labels, data: set<nat>, i: nat)
    requires Conserved(mem, kernel, used, s, owner, spaces) && 1 <= i < |s.tasks| && s.tasks[i].state == Unused
    requires labels.Keys - kernel.Keys !! used && data !! used
    ensures OwnedBy(WithTask(owner, labels, data, i), i) == labels.Keys - kernel.Keys + data
  {
    hide TaskOk;
    forall f | f in owner ensures owner[f] != TaskTables(i) && owner[f] != TaskData(i) {
      assert !Live(s, i);
    }
  }

  // ---- Exit ----

  lemma ExitKernelTask(s: Sched)
    requires Inv(s) && s.current == 0
    ensures Exit(s) == s
  {
  }

  /** The current task's own tables and recorded data frames: none is the kernel's, and none frame 0. */
  lemma TaskFacts(mem: Memory, kernel: Labels, used: set<nat>, s: Sched, owner: map<nat, Owner>,
                  spaces: map<nat, Labels>, kroot: nat)
    requires Conserved(mem, kernel, used, s, owner, spaces) && KernelOk(mem, kroot, kernel, used)
    requires |s.tasks| == MAX_TASKS && 1 <= s.current < MAX_TASKS && s.tasks[s.current].state != Unused
    ensures s.current in spaces
    ensures var t := s.tasks[s.current]; 0 !in t.frames && t.root != 0 && t.root != kroot
    ensures Freed(mem, s.tasks[s.current].root, kroot) == spaces[s.current].Keys
    ensures spaces[s.current].Keys * kernel.Keys == SharedTables(kernel).Keys
    ensures FrameSet(s.tasks[s.current].frames) !! kernel.Keys && kernel.Keys <= used
  {
    var i := s.current;
    assert Live(s, i);
    assert TaskOk(mem, kernel, used, s.tasks[i], owner, spaces[i], i);
    FreedIsReachable(mem, s.tasks[i].root, spaces[i], kroot, kernel, used);
    UserRoot(mem, s.tasks[i].root, spaces[i], kernel);
    assert s.tasks[i].root in spaces[i] && s.tasks[i].root !in kernel && kroot in kernel;
  }

  /** What is left when the current task has given back what it owns. */
  lemma ExitEnd(mem: Memory, kroot: nat, kernel: Labels, used: set<nat>, s: Sched, owner: map<nat, Owner>,
                spaces: map<nat, Labels>, freed: set<nat>)
    requires Conserved(mem, kernel, used, s, owner, spaces) && KernelOk(mem, kroot, kernel, used)
    requires |s.tasks| == MAX_TASKS && 1 <= s.current < MAX_TASKS && s.tasks[s.current].state != Unused
    requires s.current in spaces
    requires freed == spaces[s.current].Keys - kernel.Keys + FrameSet(s.tasks[s.current].frames)
    ensures var owner', s' := WithoutTask(owner, freed, s.current), Exit(s);
            && Conserved(mem, kernel, used - freed, s', owner', spaces)
            && KernelOk(mem, kroot, kernel, used - freed)
            && ReservedFrames(owner') == ReservedFrames(owner)
            && OwnedBy(owner', s.current) == {} && freed <= OwnedBy(owner, s.current)
            && (AllTracked(s, owner) ==> AllTracked(s', owner') && freed == OwnedBy(owner, s.current))
            && |s'.tasks| == MAX_TASKS && s'.tasks[0] == s.tasks[0]
  {
    hide UserSpace, UserReach, WithoutTask, TaskOk, KernelOk;
    var i := s.current;
    ConservedByExit(mem, kernel, used, s, owner, spaces, freed, Exit(s));
    ExitOwners(owner, freed, i);
    assert Live(s, i) && TaskOk(mem, kernel, used, s.tasks[i], owner, spaces[i], i);
    FreedOwners(mem, kernel, used, s.tasks[i], owner, spaces[i], i, freed);
    if AllTracked(s, owner) {
      TrackedByExit(s, owner, freed, Exit(s));
      assert OwnedBy(owner, i) <= freed;
    }
    KernelUsed(mem, kroot, kernel, used);
    KernelMoved(mem, kroot, kernel, used, used - freed);
  }

  // ---- A store by a user program ----

  /** Addresses from here on are not canonical or the kernel's half. */
  const CANONICAL_END := 0x8000_0000_0000

  /** The byte v stored at va, if its page is writable and open to users. */
  function StoreAt(mem: Memory, root: nat, va: nat, v: byte): Memory {
    var m := Walk(mem, root, Indices(va));
    if va < CANONICAL_END && m.Mapped? && m.user && m.write && ByteAt(mem, root, va).Some?
    then mem[m.frame := Data(mem[m.frame].bytes[va % 4096 := v])] else mem
  }

  /** Both addresses lead to the same byte of the same frame. */
  ghost predicate OneByte(mem: Memory, root: nat, va: nat, x: nat) {
    var m, n := Walk(mem, root, Indices(va)), Walk(mem, root, Indices(x));
    m.Mapped? && n.Mapped? && m.frame == n.frame && va % 4096 == x % 4096
  }

  /** What is read through any other byte stays. */
  lemma StoreElsewhere(mem: Memory, root: nat, va: nat, v: byte, x: nat)
    requires SameTranslation(mem, StoreAt(mem, root, va, v), root) && !OneByte(mem, root, va, x)
    ensures ByteAt(StoreAt(mem, root, va, v), root, x) == ByteAt(mem, root, x)
  {
    hide Walk, Indices;
  }

  /** What a live task stores goes to a data frame of its own: every table is as before, so every
      translation is, and so is what every other task reads. */
  lemma StoreKeeps(mem: Memory, kroot: nat, kernel: Labels, used: set<nat>, s: Sched, owner: map<nat, Owner>,
                   spaces: map<nat, Labels>, i: nat, va: nat, v: byte)
    requires Conserved(mem, kernel, used, s, owner, spaces) && KernelOk(mem, kroot, kernel, used) && Live(s, i)
    ensures var mem' := StoreAt(mem, s.tasks[i].root, va, v);
            && Conserved(mem', kernel, used, s, owner, spaces) && KernelOk(mem', kroot, kernel, used)
            && SameTranslation(mem, mem', kroot) && SameDirs(mem, mem', kroot)
            && (Closed(mem, kernel) ==> Closed(mem', kernel))
            && (forall j: nat :: Live(s, j) ==> SameTranslation(mem, mem', s.tasks[j].root))
            && (forall j: nat, x: nat :: Live(s, j) && j != i ==>
                  ByteAt(mem', s.tasks[j].root, x) == ByteAt(mem, s.tasks[j].root, x))
  {
    hide UserSpace, KernelOk, Walk, TaskOk, UserReach, SharedTables, SameTranslation, SameDirs, NoGiants,
      Closed;
    var root, mem' := s.tasks[i].root, StoreAt(mem, s.tasks[i].root, va, v);
    assert TaskOk(mem, kernel, used, s.tasks[i], owner, spaces[i], i);
    StoreFrame(mem, kernel, used, s.tasks[i], owner, spaces[i], i, va, v);
    forall f | f in owner && owner[f] != TaskData(i) && f in mem ensures f in mem' && mem'[f] == mem[f] {
    }
    KernelSame(mem, kroot, kernel, used, mem');
    forall j: nat | Live(s, j)
      ensures j in spaces && TaskOk(mem', kernel, used, s.tasks[j], owner, spaces[j], j)
      ensures SameTranslation(mem, mem', s.tasks[j].root)
    {
      assert TaskOk(mem, kernel, used, s.tasks[j], owner, spaces[j], j);
      TaskStored(mem, kernel, used, s.tasks[j], owner, spaces[j], j, i, mem');
    }
    forall j: nat, x: nat | Live(s, j) && j != i
      ensures ByteAt(mem', s.tasks[j].root, x) == ByteAt(mem, s.tasks[j].root, x)
    {
      assert TaskOk(mem, kernel, used, s.tasks[j], owner, spaces[j], j);
      OtherReads(mem, kernel, used, s.tasks[j], owner, spaces[j], j, i, mem', x);
    }
  }

  lemma StoreFrame(mem: Memory, kernel: Labels, used: set<nat>, t: Task, owner: map<nat, Owner>, labels: Labels,
                   i: nat, va: nat, v: byte)
    requires TaskOk(mem, kernel, used, t, owner, labels, i)
    ensures OnlyIn(mem, StoreAt(mem, t.root, va, v), DataOf(owner, i))
  {
    hide UserSpace, Walk, NoGiants, SharedTables;
  }

  /** Two memories that differ in data frames of one task only, which keep their size. */
  ghost predicate OnlyIn(mem: Memory, mem': Memory, data: set<nat>) {
    forall f :: f in mem ==>
      f in mem' && (mem'[f] == mem[f]
                    || (f in data && mem[f].Data? && mem'[f].Data? && |mem'[f].bytes| == |mem[f].bytes|))
  }

  lemma TaskStored(mem: Memory, kernel: Labels, used: set<nat>, t: Task, owner: map<nat, Owner>, labels: Labels,
                   j: nat, i: nat, mem': Memory)
    requires TaskOk(mem, kernel, used, t, owner, labels, j) && OnlyIn(mem, mem', DataOf(owner, i))
    requires forall f :: f in kernel ==> f in owner && owner[f] == KernelTable
    ensures TaskOk(mem', kernel, used, t, owner, labels, j) && SameTranslation(mem, mem', t.root)
  {
    hide UserSpace, Walk, NoGiants, SharedTables;
    forall f | f in labels && f in mem ensures f in mem' && mem'[f] == mem[f] {
      assert f !in DataOf(owner, i);
    }
    UserFrame(mem, t.root, labels, kernel, used, mem', used);
  }

  lemma OtherReads(mem: Memory, kernel: Labels, used: set<nat>, t: Task, owner: map<nat, Owner>, labels: Labels,
                   j: nat, i: nat, mem': Memory, x: nat)
    requires TaskOk(mem, kernel, used, t, owner, labels, j) && OnlyIn(mem, mem', DataOf(owner, i)) && i != j
    requires SameTranslation(mem, mem', t.root)
    ensures ByteAt(mem', t.root, x) == ByteAt(mem, t.root, x)
  {
    hide UserSpace, Walk, NoGiants, SharedTables;
    var m := Walk(mem, t.root, Indices(x));
    assert Walk(mem', t.root, Indices(x)) == m;
    if m.Mapped? && m.user {
      assert m.frame in DataOf(owner, j) && m.frame !in DataOf(owner, i);
    }
  }

  // ---- What a task sees of the others' actions ----

  /** The task in slot j is still live, with the same page tables, and reads the same bytes. */
  ghost predicate KeepsTask(mem: Memory, s: Sched, mem': Memory, s': Sched, j: nat) {
    && Live(s, j) && Live(s', j) && s'.tasks[j].root == s.tasks[j].root
    && forall x: nat :: ByteAt(mem', s.tasks[j].root, x) == ByteAt(mem, s.tasks[j].root, x)
  }

  lemma KeepsBySlots(mem: Memory, s: Sched, s': Sched, j: nat)
    requires SameSlots(s, s') && Live(s, j)
    ensures KeepsTask(mem, s, mem, s', j)
  {
    hide ByteAt;
  }

  lemma SlotsKept(mem: Memory, s: Sched, s': Sched)
    requires SameSlots(s, s')
    ensures forall j: nat :: Live(s, j) ==> KeepsTask(mem, s, mem, s', j)
  {
    hide KeepsTask, SameSlots, Live;
    forall j: nat | Live(s, j) ensures KeepsTask(mem, s, mem, s', j) {
      KeepsBySlots(mem, s, s', j);
    }
  }

  lemma AllKept(mem: Memory, s: Sched)
    ensures forall j: nat :: Live(s, j) ==> KeepsTask(mem, s, mem, s, j)
  {
    hide ByteAt;
  }

  lemma StillLive(mem: Memory, s: Sched, mem': Memory, s': Sched, j: nat)
    requires KeepsTask(mem, s, mem', s', j)
    ensures Live(s', j)
  {
  }

  lemma KeptTwice(mem: Memory, s: Sched, mem': Memory, s': Sched, mem'': Memory, s'': Sched, j: nat)
    requires KeepsTask(mem, s, mem', s', j) && KeepsTask(mem', s', mem'', s'', j)
    ensures KeepsTask(mem, s, mem'', s'', j)
  {
    hide ByteAt;
  }

  lemma KeepsByExit(mem: Memory, s: Sched, j: nat)
    requires Inv(s) && Live(s, j) && (s.current == j ==> Exit(s) == s)
    ensures KeepsTask(mem, s, mem, Exit(s), j)
  {
    hide ByteAt;
  }

  /** A spawn writes only frames that were free and tables that the kernel shares, so no byte that a
      task reads. */
  lemma KeepsBySpawn(mem: Memory, kernel: Labels, used: set<nat>, s: Sched, owner: map<nat, Owner>,
                     spaces: map<nat, Labels>, mem': Memory, root: nat, sp: nat, frames: seq<nat>, j: nat)
    requires Conserved(mem, kernel, used, s, owner, spaces) && KeepsUnshared(mem, mem', kernel, used)
    requires Inv(s) && Live(s, j)
    ensures KeepsTask(mem, s, mem', Spawn(s, root, sp, frames), j)
  {
    hide UserSpace, Walk, NoGiants, SharedTables, ByteAt, SameUser;
    var t := s.tasks[j];
    assert TaskOk(mem, kernel, used, t, owner, spaces[j], j);
    UnsharedUser(mem, kernel, used, t, owner, spaces[j], j, mem', used);
    forall f | f in DataOf(owner, j) ensures f in mem && f in mem' && mem'[f] == mem[f] {
      assert f !in kernel;
      SharedIsKernel(kernel, f);
    }
    forall x: nat ensures ByteAt(mem', t.root, x) == ByteAt(mem, t.root, x) {
      SameByte(mem, mem', t.root, DataOf(owner, j), x);
    }
  }

  lemma SharedIsKernel(kernel: Labels, f: nat)
    ensures f in SharedTables(kernel) ==> f in kernel
  {
  }

  lemma SameByte(mem: Memory, mem': Memory, root: nat, data: set<nat>, x: nat)
    requires SameUser(mem, mem', root) && UserReach(mem, root, data)
    requires forall f :: f in data ==> f in mem && f in mem' && mem'[f] == mem[f]
    ensures ByteAt(mem', root, x) == ByteAt(mem, root, x)
  {
    hide Walk;
    CanonicalIndices(x);
    assert Canonical(Indices(x));
  }

  // ---- What the kernel itself sees ----

  /** The kernel translates as before, and no page of it has been opened to users. */
  ghost predicate KeepsKernel(mem: Memory, mem': Memory, kroot: nat, kernel: Labels) {
    SameTranslation(mem, mem', kroot) && (Closed(mem, kernel) ==> Closed(mem', kernel))
  }

  lemma KernelKept(mem: Memory, kroot: nat, kernel: Labels)
    ensures KeepsKernel(mem, mem, kroot, kernel) && SameDirs(mem, mem, kroot)
  {
  }

  lemma KernelKeptTwice(mem: Memory, mem': Memory, mem'': Memory, kroot: nat, kernel: Labels)
    ensures KeepsKernel(mem, mem', kroot, kernel) && KeepsKernel(mem', mem'', kroot, kernel) ==>
      KeepsKernel(mem, mem'', kroot, kernel)
  {
    hide SameTranslation, Closed;
    if SameTranslation(mem, mem', kroot) && SameTranslation(mem', mem'', kroot) {
      SameTranslationTwice(mem, mem', mem'', kroot);
    }
  }

  /** A last-level table of the kernel that is cleared: its pages fault, every other one stays. */
  lemma TableCleared(mem: Memory, kroot: nat, kernel: Labels, used: set<nat>, f: nat, v: Va)
    requires KernelOk(mem, kroot, kernel, used) && f in kernel && kernel[f].N1? && Canonical(v)
    ensures Walk(mem[f := EmptyTable()], kroot, v) == if AtNode(v) == kernel[f] then Fault else Walk(mem, kroot, v)
  {
    var mem' := mem[f := EmptyTable()];
    hide NoGiants, Find;
    KernelRoot(mem, kroot, kernel);
    WalkFollows(mem, kroot, kernel, v);
    forall g, i | g != f ensures At(mem', g, i) == At(mem, g, i) {
    }
    if AtNode(v) == kernel[f] {
      KernelPath(mem, kroot, kernel, f, v);
      assert At(mem', f, v.i1) == EMPTY;
    }
  }

  /** With frames 0 to 516 in use and the hint at their last word, and frame 517 the kernel's table for
      the local APIC, lost: the next spawn takes it for a root, and the local APIC's page faults. */
  lemma LapicTableTaken(mem: Memory, kroot: nat, kernel: Labels, held: set<nat>)
    requires KernelOk(mem, kroot, kernel, held) && 517 in kernel && kernel[517] == AtNode(Indices(0xFEE0_0000))
    ensures FirstClear(Range(0, 517), 64 * 8, 0x4_0000, 517)
    ensures Walk(mem[517 := EmptyTable()], kroot, Indices(0xFEE0_0000)) == Fault
  {
    hide Walk, KernelOk;
    assert forall g: nat :: g !in Range(0, 517) ==> g >= 517;
    TableCleared(mem, kroot, kernel, held, 517, Indices(0xFEE0_0000));
  }

  // ---- What follows from conservation ----

  /** No frame belongs to two tasks, to a task and the kernel, or to tables and data at once; tables
      are shared only with the kernel, the last-level ones below 512 GiB. */
  lemma NoSharing(mem: Memory, kernel: Labels, used: set<nat>, s: Sched, owner: map<nat, Owner>,
                  spaces: map<nat, Labels>, i: nat, j: nat)
    requires Conserved(mem, kernel, used, s, owner, spaces) && Live(s, i) && Live(s, j) && i != j
    ensures i in spaces && j in spaces
    ensures spaces[i].Keys * spaces[j].Keys == SharedTables(kernel).Keys
    ensures var (a, b) := (s.tasks[i], s.tasks[j]);
            && FrameSet(a.frames) !! FrameSet(b.frames) + spaces[i].Keys + spaces[j].Keys + kernel.Keys
            && spaces[i].Keys + FrameSet(a.frames) <= used && a.root != b.root
  {
    hide UserSpace, UserReach, SharedTables;
    assert TaskOk(mem, kernel, used, s.tasks[i], owner, spaces[i], i);
    assert TaskOk(mem, kernel, used, s.tasks[j], owner, spaces[j], j);
    TaskRoot(mem, kernel, used, s.tasks[i], owner, spaces[i], i);
    TaskRoot(mem, kernel, used, s.tasks[j], owner, spaces[j], j);
    forall f ensures f in spaces[i].Keys * spaces[j].Keys <==> f in SharedTables(kernel).Keys {
      assert f in SharedTables(kernel).Keys <==> f in spaces[i].Keys * kernel.Keys;
      assert f in SharedTables(kernel).Keys <==> f in spaces[j].Keys * kernel.Keys;
      assert f in spaces[i] && f !in kernel ==> owner[f] == TaskTables(i);
    }
  }

  lemma TaskRoot(mem: Memory, kernel: Labels, used: set<nat>, t: Task, owner: map<nat, Owner>, labels: Labels, i: nat)
    requires TaskOk(mem, kernel, used, t, owner, labels, i)
    ensures t.root in labels && t.root !in kernel && labels.Keys <= used
  {
    UserRoot(mem, t.root, labels, kernel);
  }

  /** Isolation: whatever page a task can touch as a user lies in a data frame of its own, so it is
      no page table, no kernel or reserved frame, and no frame of another task. */
  lemma Isolation(mem: Memory, kernel: Labels, used: set<nat>, s: Sched, owner: map<nat, Owner>,
                  spaces: map<nat, Labels>, i: nat, v: Va)
    requires Conserved(mem, kernel, used, s, owner, spaces) && Live(s, i) && Canonical(v)
    requires var m := Walk(mem, s.tasks[i].root, v); m.Mapped? && m.user
    ensures var f := Walk(mem, s.tasks[i].root, v).frame;
            && f in used && owner[f] == TaskData(i) && f !in kernel && f in mem && mem[f].Data?
            && (forall j: nat, w :: Live(s, j) && j != i && Canonical(w) ==>
                  && j in spaces && f !in spaces[j]
                  && var m := Walk(mem, s.tasks[j].root, w); m.Mapped? && m.user ==> m.frame != f)
  {
    hide UserSpace, Walk, SharedTables;
    assert TaskOk(mem, kernel, used, s.tasks[i], owner, spaces[i], i);
    var f := Walk(mem, s.tasks[i].root, v).frame;
    forall j: nat, w | Live(s, j) && j != i && Canonical(w)
      ensures j in spaces && f !in spaces[j]
      ensures var m := Walk(mem, s.tasks[j].root, w); m.Mapped? && m.user ==> m.frame != f
    {
      assert TaskOk(mem, kernel, used, s.tasks[j], owner, spaces[j], j);
    }
  }

  /** When no task is live and none left a frame behind, the frames in use are those of boot. */
  lemma AllGivenBack(mem: Memory, kernel: Labels, used: set<nat>, s: Sched, owner: map<nat, Owner>,
                     spaces: map<nat, Labels>)
    requires Conserved(mem, kernel, used, s, owner, spaces) && AllTracked(s, owner)
    requires forall i: nat :: !Live(s, i)
    ensures used == ReservedFrames(owner) + kernel.Keys
  {
    hide TaskOk;
  }

  // ---- Runs ----

  lemma StepSlots(s: Sched, step: Step)
    requires Inv(s) && (step.TickStep? || step.SleepStep? || step.YieldStep?)
    ensures SameSlots(s, Do(s, step))
  {
    hide Search;
    if Switches(s, step) {
      var now := s.ticks + 1;
      var woken := WakeAll(s.tasks, now);
      var parked := woken[s.current := Parked(woken[s.current], step.sp)];
      SearchReady(parked, s.current, 0);
      SearchInRange(parked, s.current, 0);
    }
  }

  lemma NoSlot(s: Sched, step: Step)
    requires Inv(s) && step.SpawnStep? && FreeSlot(s.tasks, 1).None?
    ensures Do(s, step) == s
  {
  }

  lemma {:induction false} RunAppend(s: Sched, steps: seq<Step>, step: Step)
    requires Inv(s)
    ensures Run(s, steps + [step]) == Do(Run(s, steps), step)
    decreases |steps|
  {
    hide Do;
    if steps == [] {
      RunPrefix(s, [step], 0);
      assert [] + [step] == [step][..1] == [step];
    } else {
      DoKeeps(s, steps[0]);
      RunAppend(Do(s, steps[0]), steps[1..], step);
      assert (steps + [step])[1..] == steps[1..] + [step];
    }
  }
}
