// The boot sequence up to init_scheduler: src/main.rs (kernel_main), with what detect_memory,
// acpi::init, framebuffer_init and wake_aps ask of the frame allocator and the page tables.

module Booting {
  import opened Wrappers
  import opened Bytes
  import opened Words
  import opened Frames
  import opened PageTables
  import opened KernelTables
  import opened UserTables
  import opened Paging
  import opened Scheduler
  import opened Ownership
  import opened Programs
  import opened KernelLaws
  import opened Kernels

  /** The allocator manages this much memory until the real size is known. */
  const BOOT_RAM := 0x4000_0000

  /** A call at boot: map_page or map_page_uc, mark_used, or allocate_frame for good. */
  datatype BootStep = Map(virt: nat, cached: bool) | Reserve(base: nat, end: nat) | Take

  /** Every page mapped lies at or above 512 GiB. */
  predicate High(steps: seq<BootStep>) {
    forall s :: s in steps && s.Map? ==> Indices(s.virt).i4 != 0
  }

  /** No page mapped lies in the 2 MiB of v. */
  predicate Clears(steps: seq<BootStep>, v: Va) {
    forall s :: s in steps && s.Map? ==> AtNode(Indices(s.virt)) != AtNode(v)
  }

  /** Every frame that a reserved region touches is in use, if the region starts within RAM and the
      frame is one the allocator counts. */
  ghost predicate Reserves(steps: seq<BootStep>, ram: nat, count: nat, used: set<nat>) {
    forall s :: s in steps && s.Reserve? && s.base < s.end && s.base < ram ==>
      Range(FrameOf(s.base), FrameOf(s.end - 1) + 1) * Range(0, count) <= used
  }

  /** What the page v is translated to when `steps` come after `base`: the last page mapped there. */
  function BootView(base: Mapping, steps: seq<BootStep>, v: Va): Mapping {
    if steps == [] then base
    else
      var s := steps[|steps| - 1];
      if s.Map? && Indices(s.virt) == v then Mapped(s.virt / 4096, false, true, false, !s.cached)
      else BootView(base, steps[..|steps| - 1], v)
  }

  /** Some step maps the page v. */
  predicate Names(steps: seq<BootStep>, v: Va) { exists s :: s in steps && s.Map? && Indices(s.virt) == v }

  lemma {:induction false} BootViewMapped(base: Mapping, steps: seq<BootStep>, v: Va)
    ensures BootView(base, steps, v).Mapped? <==> base.Mapped? || Names(steps, v)
  {
    if steps != [] {
      var n := |steps| - 1;
      BootViewMapped(base, steps[..n], v);
      assert forall s :: s in steps <==> s in steps[..n] || s == steps[n];
    }
  }

  /** The page of a frame, at the address that is its own, is mapped after boot if and only if it lies
      within the first 2 GiB or a step maps it. */
  lemma FrameMapped(steps: seq<BootStep>, f: nat)
    requires f < MAX_FRAME_COUNT
    ensures var v := Indices(f * FRAME_SIZE);
            BootView(InitView(v), steps, v).Mapped? <==> f < 0x8_0000 || Names(steps, v)
  {
    hide BootView, Names;
    var v := Indices(f * FRAME_SIZE);
    BootViewMapped(InitView(v), steps, v);
    assert v.i4 == 0 && (v.i3 < 2 <==> f < 0x8_0000) by { FrameIndices(f); }
  }

  /** Before any step an address below 2 GiB is its own translation; from there to 512 GiB there is none. */
  lemma IdentityMap(a: nat)
    requires a < LOW_END
    ensures InitView(Indices(a)) == if a < 0x8000_0000 then Mapped(a / 4096, false, true, false, false) else Fault
  {
    PageNumber(a);
  }

  lemma FrameIndices(f: nat)
    requires f < MAX_FRAME_COUNT
    ensures var v := Indices(f * FRAME_SIZE); v.i4 == 0 && v.i3 == f / 0x4_0000
  {
  }

  /** The allocator hands out only frames that boot mapped if it counts none past 2 GiB, which means
      less than a frame of RAM more; with more RAM it counts frame 0x80000, which no one maps
      unless a step does. */
  lemma FramesBeyondMap(ram: nat, steps: seq<BootStep>)
    requires ram > BOOT_RAM
    ensures var count := WholeWords(Capped(ram) / FRAME_SIZE);
            && (ram < 0x8000_0000 + FRAME_SIZE ==>
                  forall f: nat :: f < count ==>
                    var v := Indices(f * FRAME_SIZE); BootView(InitView(v), steps, v).Mapped?)
            && (ram >= 0x8000_0000 + FRAME_SIZE && !Names(steps, Indices(0x8000_0000)) ==>
                  0x8_0000 < count && BootView(InitView(Indices(0x8000_0000)), steps, Indices(0x8000_0000)) == Fault)
  {
    hide BootView, InitView, Names;
    var count := WholeWords(Capped(ram) / FRAME_SIZE);
    assert ram < 0x8000_0000 + FRAME_SIZE ==> count <= 0x8_0000;
    assert ram >= 0x8000_0000 + FRAME_SIZE ==> count > 0x8_0000;
    forall f: nat | f < count && ram < 0x8000_0000 + FRAME_SIZE
      ensures var v := Indices(f * FRAME_SIZE); BootView(InitView(v), steps, v).Mapped?
    {
      FrameMapped(steps, f);
    }
    FrameMapped(steps, 0x8_0000);
  }

  /** What `steps` made of the kernel's tables mem0 and kernel0. */
  ghost predicate Booted(mem0: Memory, kernel0: Labels, mem: Memory, kroot: nat, kernel: Labels, used: set<nat>,
                         base: set<nat>, steps: seq<BootStep>) {
    && KernelOk(mem, kroot, kernel, used) && Closed(mem, kernel) && base <= used && base !! kernel.Keys
    && (SharedTables(kernel) == map[] <==> SharedTables(kernel0) == map[] && High(steps))
    && (forall v :: Canonical(v) ==> (Leafy(mem, kroot, v) <==> Leafy(mem0, kroot, v) && Clears(steps, v)))
    && (forall v :: Canonical(v) ==> (Tabled(mem, kroot, v) <==> Tabled(mem0, kroot, v) || !Clears(steps, v)))
    && (forall v :: Canonical(v) ==> Walk(mem, kroot, v) == BootView(Walk(mem0, kroot, v), steps, v))
  }

  /** Every program that ends within the first 2 GiB can be spawned where each page has an entry. */
  lemma LowPrograms(mem: Memory, kroot: nat, code: seq<byte>)
    requires forall v :: Canonical(v) && v.i4 == 0 && v.i3 < 2 ==> Leafy(mem, kroot, v) || Tabled(mem, kroot, v)
    requires USER_BASE_VA + |code| <= 0x8000_0000
    ensures Reached(mem, kroot, code)
  {
    hide Leafy, Tabled, Asked, Reaches;
    forall r | r in Asked(code) ensures Reaches(mem, kroot, Indices(r.vaddr)) {
      AskedLow(code, r);
      LowEntry(mem, kroot, Indices(r.vaddr));
    }
  }

  lemma AskedLow(code: seq<byte>, r: Request)
    requires USER_BASE_VA + |code| <= 0x8000_0000 && r in Asked(code)
    ensures var v := Indices(r.vaddr); Canonical(v) && v.i4 == 0 && v.i3 < 2
  {
    assert r.vaddr < 0x8000_0000 by { AskedBelow(code, r); }
    hide Asked;
  }

  lemma AskedBelow(code: seq<byte>, r: Request)
    requires USER_BASE_VA + |code| <= 0x8000_0000 && r in Asked(code)
    ensures r.vaddr < 0x8000_0000
  {
    hide PagesFrom, Indices;
    var wanted := SegmentPages(CodeSegment(code));
    assert [CodeSegment(code)][..0] == [];
    assert Wanted([CodeSegment(code)]) == wanted;
    if r != STACK {
      var m :| 0 <= m < |wanted| && wanted[m] == r;
      PagesFromAll(USER_BASE_VA, USER_BASE_VA + |code|, true, true, m);
    }
  }

  lemma LowEntry(mem: Memory, kroot: nat, v: Va)
    requires v.i4 == 0 && (Leafy(mem, kroot, v) || Tabled(mem, kroot, v))
    ensures Reaches(mem, kroot, v)
  {
  }

  /** A table below the root entry 0 stays there. */
  lemma LowTableStays(mem: Memory, kroot: nat, kernel: Labels, mem': Memory, kernel': Labels)
    requires IsTree(mem, kroot, kernel) && Ptr(At(mem, kroot, 0))
    requires IsTree(mem', kroot, kernel') && Extends(kernel, kernel')
    ensures Ptr(At(mem', kroot, 0))
  {
    assert Follows(mem, kernel, kroot, 0);
    var f := At(mem, kroot, 0).frame;
    assert f in kernel && kernel[f] == N3(0);
    assert Find(mem', kroot, kernel'[f]) == Some(f);
  }

  lemma MapStep(mem0: Memory, kernel0: Labels, mem: Memory, kroot: nat, kernel: Labels, used: set<nat>, base: set<nat>,
                steps: seq<BootStep>, step: BootStep, mem': Memory, kernel': Labels, used': set<nat>)
    requires Booted(mem0, kernel0, mem, kroot, kernel, used, base, steps) && step.Map?
    requires KernelSpace(mem', kroot, kernel', used') && NoGiants(mem', kernel') && Closed(mem', kernel')
    requires Grown(mem, kernel, used, mem', kernel', used')
    requires WayTo(kernel, kernel', Indices(step.virt)) && LeavesKept(mem, mem', kroot, Indices(step.virt))
    requires forall v :: Canonical(v) ==>
      Walk(mem', kroot, v) == if v == Indices(step.virt) then Mapped(step.virt / 4096, false, true, false, !step.cached)
                              else Walk(mem, kroot, v)
    ensures Booted(mem0, kernel0, mem', kroot, kernel', used', base, steps + [step])
  {
    hide NoGiants, Closed, Leafy, Tabled, KernelShape, IsTree, SharedTables, WayTo, Walk, BootView;
    forall v ensures BootView(Walk(mem0, kroot, v), steps + [step], v)
                  == if Indices(step.virt) == v then Mapped(step.virt / 4096, false, true, false, !step.cached)
                     else BootView(Walk(mem0, kroot, v), steps, v)
    {
      ViewSnoc(Walk(mem0, kroot, v), steps, step, v);
    }
    LowTableStays(mem, kroot, kernel, mem', kernel');
    MappedPageIsShared(kernel, kernel', Indices(step.virt));
    assert forall s :: s in steps + [step] <==> s in steps || s == step;
    forall f | f in base ensures f !in kernel' {
      assert f in used && f !in kernel;
    }
  }

  lemma ViewSnoc(base: Mapping, steps: seq<BootStep>, step: BootStep, v: Va)
    ensures BootView(base, steps + [step], v)
         == if step.Map? && Indices(step.virt) == v then Mapped(step.virt / 4096, false, true, false, !step.cached)
            else BootView(base, steps, v)
  {
    assert (steps + [step])[..|steps|] == steps;
  }

  lemma OtherStep(mem0: Memory, kernel0: Labels, mem: Memory, kroot: nat, kernel: Labels, used: set<nat>,
                  base: set<nat>, steps: seq<BootStep>, step: BootStep, used': set<nat>)
    requires Booted(mem0, kernel0, mem, kroot, kernel, used, base, steps) && !step.Map? && used <= used'
    ensures Booted(mem0, kernel0, mem, kroot, kernel, used', base, steps + [step])
  {
    hide Leafy, Tabled, SharedTables, KernelOk, Walk, BootView, Closed;
    forall v ensures BootView(Walk(mem0, kroot, v), steps + [step], v) == BootView(Walk(mem0, kroot, v), steps, v) {
      ViewSnoc(Walk(mem0, kroot, v), steps, step, v);
    }
    KernelUsed(mem, kroot, kernel, used);
    KernelMoved(mem, kroot, kernel, used, used');
    assert forall s :: s in steps + [step] <==> s in steps || s == step;
  }

  method BootCalls(machine: Machine, steps: seq<BootStep>, ghost base: set<nat>, ghost mem0: Memory,
                   ghost kernel0: Labels, ghost before: seq<BootStep>) returns (ok: bool)
    requires machine.frames.Valid() && machine.frames.count > 0
    requires Booted(mem0, kernel0, machine.mem, machine.kernelRoot, machine.kernel, machine.frames.Used(), base, before)
    modifies machine`mem, machine`kernel, machine.frames`hint, machine.frames.bitmap
    ensures machine.frames.Valid()
    ensures !ok ==> machine.frames.Used() == Range(0, machine.frames.count)
    ensures ok ==> Booted(mem0, kernel0, machine.mem, machine.kernelRoot, machine.kernel, machine.frames.Used(), base,
                          before + steps)
    ensures ok ==> old(machine.frames.Used()) <= machine.frames.Used()
    ensures steps == [] ==> machine.frames.Used() == old(machine.frames.Used())
    ensures ok ==> Reserves(steps, machine.frames.totalRam, machine.frames.count, machine.frames.Used())
  {
    hide Booted;
    ok := true;
    var i := 0;
    assert before + steps[..0] == before;
    while i < |steps|
      invariant 0 <= i <= |steps| && machine.frames.Valid()
      invariant Booted(mem0, kernel0, machine.mem, machine.kernelRoot, machine.kernel, machine.frames.Used(), base,
                       before + steps[..i])
      invariant old(machine.frames.Used()) <= machine.frames.Used()
      invariant i == 0 ==> machine.frames.Used() == old(machine.frames.Used())
      invariant Reserves(steps[..i], machine.frames.totalRam, machine.frames.count, machine.frames.Used())
    {
      ok := BootCall(machine, steps[i], base, mem0, kernel0, before + steps[..i]);
      if !ok { return; }
      assert steps[..i + 1] == steps[..i] + [steps[i]];
      assert before + steps[..i + 1] == before + steps[..i] + [steps[i]];
      i := i + 1;
    }
    assert steps[..i] == steps;
  }

  method BootCall(machine: Machine, step: BootStep, ghost base: set<nat>, ghost mem0: Memory,
                  ghost kernel0: Labels, ghost before: seq<BootStep>) returns (ok: bool)
    requires machine.frames.Valid() && machine.frames.count > 0
    requires Booted(mem0, kernel0, machine.mem, machine.kernelRoot, machine.kernel, machine.frames.Used(), base, before)
    modifies machine`mem, machine`kernel, machine.frames`hint, machine.frames.bitmap
    ensures machine.frames.Valid()
    ensures !ok ==> machine.frames.Used() == Range(0, machine.frames.count)
    ensures ok ==> Booted(mem0, kernel0, machine.mem, machine.kernelRoot, machine.kernel, machine.frames.Used(), base,
                          before + [step])
    ensures ok ==> old(machine.frames.Used()) <= machine.frames.Used()
    ensures ok ==> Reserves([step], machine.frames.totalRam, machine.frames.count, machine.frames.Used())
  {
    hide Leafy, Tabled, SharedTables, Closed, NoGiants, KernelShape, IsTree, LeavesKept, WayTo, Walk, High, Clears,
      BootView;
    ok := true;
    ghost var mem1, kernel1, used1, kroot := machine.mem, machine.kernel, machine.frames.Used(), machine.kernelRoot;
    match step
    case Map(virt, cached) =>
      if cached {
        ok := machine.MapPage(virt);
      } else {
        ok := machine.MapPageUc(virt);
      }
      if ok {
        MapStep(mem0, kernel0, mem1, kroot, kernel1, used1, base, before, step,
                machine.mem, machine.kernel, machine.frames.Used());
      }
    case Reserve(start, end) =>
      machine.frames.MarkUsed(start, end);
      OtherStep(mem0, kernel0, mem1, kroot, kernel1, used1, base, before, step, machine.frames.Used());
    case Take =>
      var f := machine.frames.AllocateFrame();
      OtherStep(mem0, kernel0, mem1, kroot, kernel1, used1, base, before, step, machine.frames.Used());
  }

  /** The size of RAM as the allocator takes it. */
  function Capped(ram: nat): nat {
    if ram <= MAX_FRAME_COUNT * FRAME_SIZE then ram else MAX_FRAME_COUNT * FRAME_SIZE
  }

  /** kernel_main up to init_scheduler: 1 GiB of memory and the page tables, the calls of
      detect_memory, the real size of RAM, and the calls of the later phases. The kernel that comes
      of it conserves frames, and shares tables with its tasks unless every page mapped lies at or
      above 512 GiB. It translates as paging::init left it but where a page was mapped, and can
      run every program that ends within 2 GiB. */
  method Boot(kernelEnd: nat, mem: Memory, before: seq<BootStep>, ram: nat, after: seq<BootStep>)
    returns (k: Option<Kernel>)
    ensures k.Some? ==> && k.value.Valid() && k.value.lost == {} && AllTracked(k.value.table.View(), k.value.owner)
                        && (forall i: nat :: !Live(k.value.table.View(), i))
    ensures k.Some? ==>
      var m := k.value.machine;
      && m.frames.Used() == ReservedFrames(k.value.owner) + m.kernel.Keys
      && m.frames.count == (if ram > BOOT_RAM then WholeWords(Capped(ram) / FRAME_SIZE) else BOOT_RAM / FRAME_SIZE)
      && (forall f: nat :: f < BOOT_RAM / FRAME_SIZE && (f * FRAME_SIZE < kernelEnd || f * FRAME_SIZE < 0x10_0000) ==>
            f in ReservedFrames(k.value.owner))
      && Reserves(before, BOOT_RAM, BOOT_RAM / FRAME_SIZE, m.frames.Used())
      && Reserves(after, m.frames.totalRam, m.frames.count, m.frames.Used())
      && (after == [] ==> forall f :: f in m.frames.Used() ==> f < BOOT_RAM / FRAME_SIZE)
      && (SharedTables(m.kernel) == map[] <==> High(before + after))
      && Closed(m.mem, m.kernel)
      && (forall v :: Canonical(v) ==>
            && (Leafy(m.mem, m.kernelRoot, v) <==> v.i4 == 0 && v.i3 < 2 && Clears(before + after, v))
            && (Tabled(m.mem, m.kernelRoot, v) <==> !Clears(before + after, v))
            && Walk(m.mem, m.kernelRoot, v) == BootView(InitView(v), before + after, v))
      && (forall code: seq<byte> :: USER_BASE_VA + |code| <= 0x8000_0000 ==> Reached(m.mem, m.kernelRoot, code))
  {
    hide Leafy, Tabled, SharedTables, High, Clears, AllTracked, Conserved, Reserves, Inv, KernelOk, BootView, Walk,
      Reached, Closed, InitView;
    var machine; ghost var base;
    machine, base := BootMemory(kernelEnd, mem, before, ram, after);
    if machine.None? { return None; }
    var m := machine.value;
    var table := new TaskTable(m.kernelRoot);
    var kernel := new Kernel(m, table);
    assert m.frames.Used() == ReservedFrames(kernel.owner) + m.kernel.Keys;
    return Some(kernel);
  }

  /** The phases that set up memory; `base` are the frames of the low megabyte and the kernel image. */
  method BootMemory(kernelEnd: nat, mem: Memory, before: seq<BootStep>, ram: nat, after: seq<BootStep>)
    returns (r: Option<Machine>, ghost base: set<nat>)
    ensures r.Some? ==>
      var m := r.value;
      && fresh(m) && fresh(m.frames) && fresh(m.frames.bitmap) && m.frames.Valid()
      && KernelOk(m.mem, m.kernelRoot, m.kernel, m.frames.Used()) && Closed(m.mem, m.kernel)
      && m.kernel.Keys <= m.frames.Used() && base <= m.frames.Used() - m.kernel.Keys
      && (forall f: nat :: f < BOOT_RAM / FRAME_SIZE && (f * FRAME_SIZE < kernelEnd || f * FRAME_SIZE < 0x10_0000) ==>
            f in base)
    ensures r.Some? ==>
      var m := r.value;
      && m.frames.count == (if ram > BOOT_RAM then WholeWords(Capped(ram) / FRAME_SIZE) else BOOT_RAM / FRAME_SIZE)
      && Reserves(before, BOOT_RAM, BOOT_RAM / FRAME_SIZE, m.frames.Used())
      && Reserves(after, m.frames.totalRam, m.frames.count, m.frames.Used())
      && (after == [] ==> forall f :: f in m.frames.Used() ==> f < BOOT_RAM / FRAME_SIZE)
    ensures r.Some? ==>
      var m := r.value;
      && (SharedTables(m.kernel) == map[] <==> High(before + after))
      && (forall v :: Canonical(v) ==>
            && (Leafy(m.mem, m.kernelRoot, v) <==> v.i4 == 0 && v.i3 < 2 && Clears(before + after, v))
            && (Tabled(m.mem, m.kernelRoot, v) <==> !Clears(before + after, v))
            && Walk(m.mem, m.kernelRoot, v) == BootView(InitView(v), before + after, v))
      && (forall code: seq<byte> :: USER_BASE_VA + |code| <= 0x8000_0000 ==> Reached(m.mem, m.kernelRoot, code))
  {
    hide Booted, Leafy, Tabled, SharedTables, High, Clears, Reserves, KernelOk, BootView, Walk, Reached, Closed,
      InitView;
    var machine := BootMachine(kernelEnd, mem);
    base := {};
    if machine.None? { return None, base; }
    var m := machine.value;
    base := m.frames.Used() - m.kernel.Keys;
    ghost var mem0, kernel0 := m.mem, m.kernel;
    BootStart(mem0, m.kernelRoot, kernel0, m.frames.Used(), base);
    var ok := BootCalls(m, before, base, mem0, kernel0, []);
    if !ok { return None, base; }
    assert [] + before == before;
    Resize(m.frames, ram);
    ghost var used := m.frames.Used();
    ok := BootCalls(m, after, base, mem0, kernel0, before);
    if !ok { return None, base; }
    ReservesKept(before, BOOT_RAM, BOOT_RAM / FRAME_SIZE, used, m.frames.Used());
    BootEnd(mem0, m.kernelRoot, kernel0, m.mem, m.kernel, m.frames.Used(), base, before + after);
    return Some(m), base;
  }

  /** Phases 1 and 2: the allocator with 1 GiB, and paging::init. */
  method BootMachine(kernelEnd: nat, mem: Memory) returns (r: Option<Machine>)
    ensures r.Some? ==>
      var m := r.value;
      && fresh(m) && fresh(m.frames) && fresh(m.frames.bitmap) && m.frames.Valid() && m.frames.stale == {}
      && m.frames.totalRam == BOOT_RAM && m.frames.count == BOOT_RAM / FRAME_SIZE
      && KernelOk(m.mem, m.kernelRoot, m.kernel, m.frames.Used()) && SharedTables(m.kernel) == map[]
      && Closed(m.mem, m.kernel)
      && (forall f: nat :: f < BOOT_RAM / FRAME_SIZE && (f * FRAME_SIZE < kernelEnd || f * FRAME_SIZE < 0x10_0000) ==>
            f in m.frames.Used() - m.kernel.Keys)
      && forall v :: Canonical(v) ==>
           && (Leafy(m.mem, m.kernelRoot, v) <==> v.i4 == 0 && v.i3 < 2) && !Tabled(m.mem, m.kernelRoot, v)
           && Walk(m.mem, m.kernelRoot, v) == InitView(v)
  {
    hide Leafy, Tabled, SharedTables, Closed, NoGiants, KernelShape, IsTree, Walk, InitView;
    var frames := new FrameAllocator();
    frames.SetTotalRam(BOOT_RAM);
    frames.Init(kernelEnd);
    var machine := new Machine(frames, mem);
    var ok := machine.Init();
    if !ok { return None; }
    return Some(machine);
  }

  /** Phase 3: the real size of RAM, if it is more. No frame in use is forgotten, and no other one
      becomes used. */
  method Resize(frames: FrameAllocator, ram: nat)
    requires frames.Valid() && frames.stale == {}
    requires frames.totalRam == BOOT_RAM && frames.count == BOOT_RAM / FRAME_SIZE
    modifies frames`totalRam, frames`words, frames`count, frames`stale
    ensures frames.Valid() && frames.Used() == old(frames.Used()) && frames.count > 0
    ensures frames.count == if ram > BOOT_RAM then WholeWords(Capped(ram) / FRAME_SIZE) else BOOT_RAM / FRAME_SIZE
    ensures forall f :: f in frames.Used() ==> f < BOOT_RAM / FRAME_SIZE
  {
    if ram > BOOT_RAM {
      frames.Reinit(ram);
      assert forall f :: f in old(frames.Used()) ==> f in Range(0, frames.count);
      assert frames.Used() == old(frames.Used());
    }
  }

  lemma ReservesKept(steps: seq<BootStep>, ram: nat, count: nat, used: set<nat>, used': set<nat>)
    requires Reserves(steps, ram, count, used) && used <= used'
    ensures Reserves(steps, ram, count, used')
  {
    hide Range;
  }

  lemma BootStart(mem: Memory, kroot: nat, kernel: Labels, used: set<nat>, base: set<nat>)
    requires KernelOk(mem, kroot, kernel, used) && Closed(mem, kernel) && base <= used && base !! kernel.Keys
    ensures Booted(mem, kernel, mem, kroot, kernel, used, base, [])
  {
    hide KernelOk, Closed, Leafy, Tabled, Walk, SharedTables;
  }

  lemma BootEnd(mem0: Memory, kroot: nat, kernel0: Labels, mem: Memory, kernel: Labels, used: set<nat>, base: set<nat>,
                steps: seq<BootStep>)
    requires Booted(mem0, kernel0, mem, kroot, kernel, used, base, steps) && SharedTables(kernel0) == map[]
    requires forall v :: Canonical(v) ==>
      && (Leafy(mem0, kroot, v) <==> v.i4 == 0 && v.i3 < 2) && !Tabled(mem0, kroot, v)
      && Walk(mem0, kroot, v) == InitView(v)
    ensures KernelOk(mem, kroot, kernel, used) && Closed(mem, kernel) && kernel.Keys <= used
    ensures base <= used - kernel.Keys && (SharedTables(kernel) == map[] <==> High(steps))
    ensures forall v :: Canonical(v) ==>
      && (Leafy(mem, kroot, v) <==> v.i4 == 0 && v.i3 < 2 && Clears(steps, v))
      && (Tabled(mem, kroot, v) <==> !Clears(steps, v))
      && Walk(mem, kroot, v) == BootView(InitView(v), steps, v)
    ensures forall code: seq<byte> :: USER_BASE_VA + |code| <= 0x8000_0000 ==> Reached(mem, kroot, code)
  {
    hide KernelOk, Closed, Leafy, Tabled, Walk, SharedTables, Clears, High, BootView, InitView, Reached;
    KernelUsed(mem, kroot, kernel, used);
    forall code: seq<byte> | USER_BASE_VA + |code| <= 0x8000_0000 ensures Reached(mem, kroot, code) {
      LowPrograms(mem, kroot, code);
    }
  }

  /** The last step of every boot maps the local APIC's page, below 4 GiB: so every task shares
      tables with the kernel, though none of the 2 MiB pages below 2 GiB is touched. */
  lemma LapicBoot(steps: seq<BootStep>)
    requires Map(0xFEE0_0000, false) in steps
    ensures !High(steps)
    ensures forall v :: Canonical(v) && v.i3 < 2 ==> Clears([Map(0xFEE0_0000, false)], v)
  {
    assert Indices(0xFEE0_0000).i4 == 0;
    assert Indices(0xFEE0_0000).i3 == 3;
  }
}
