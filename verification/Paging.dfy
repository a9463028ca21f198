// Building, changing and freeing page tables: src/arch/x86_64/paging.rs.

module Paging {
  import opened Wrappers
  import opened Bytes
  import opened Words
  import opened Frames
  import opened PageTables
  import opened KernelTables
  import opened UserTables

  class Machine {
    var mem: Memory
    const frames: FrameAllocator
    var kernelRoot: nat
    ghost var kernel: Labels

    ghost predicate Valid()
      reads this, frames, frames.bitmap
    {
      && frames.Valid()
      && KernelSpace(mem, kernelRoot, kernel, frames.Used())
    }

    constructor (frames: FrameAllocator, mem: Memory)
      requires frames.Valid()
      ensures this.frames == frames && this.mem == mem
      ensures frames.Valid() && frames.Used() == old(frames.Used())
    {
      this.frames, this.mem := frames, mem;
      kernelRoot, kernel := 0, map[];
    }

    // ---- Table frames ----

    method AllocTable() returns (ok: bool, f: nat)
      requires frames.Valid()
      modifies frames`hint, frames.bitmap
      ensures frames.Valid()
      ensures ok ==> f !in old(frames.Used()) && frames.Used() == old(frames.Used()) + {f}
      ensures ok ==> FirstClear(old(frames.Used()), 64 * Min(old(frames.hint), frames.words), frames.count, f)
      ensures !ok ==> frames.Used() == old(frames.Used()) == Range(0, frames.count)
    {
      var r := frames.AllocateFrame();
      if r.Some? { return true, r.value; }
      return false, 0;
    }

    method ZeroTable(f: nat)
      modifies this`mem
      ensures mem == old(mem)[f := EmptyTable()]
    {
      var es := if IsTable(mem, f) then mem[f].entries else seq(512, _ => EMPTY);
      var i := 0;
      while i < 512
        invariant 0 <= i <= 512 && |es| == 512
        invariant forall k :: 0 <= k < i ==> es[k] == EMPTY
      {
        es := es[i := EMPTY];
        i := i + 1;
      }
      assert es == EmptyTable().entries;
      mem := mem[f := Table(es)];
    }

    method SplitInto(pt: nat, base: nat)
      modifies this`mem
      ensures mem == old(mem)[pt := SplitPage(base)]
    {
      ZeroTable(pt);
      var i := 0;
      while i < 512
        invariant 0 <= i <= 512 && IsTable(mem, pt)
        invariant mem == old(mem)[pt := mem[pt]]
        invariant forall k :: 0 <= k < i ==> mem[pt].entries[k] == SplitPage(base).entries[k]
      {
        mem := WithEntry(mem, pt, i, Page4K(base + i, true, false, true));
        i := i + 1;
      }
      assert mem[pt].entries == SplitPage(base).entries;
    }

    method CopyTable(dst: nat, src: nat)
      requires IsTable(mem, src) && dst != src
      modifies this`mem
      ensures mem == old(mem)[dst := old(mem)[src]]
    {
      ZeroTable(dst);
      var k := 0;
      while k < 512
        invariant 0 <= k <= 512 && IsTable(mem, dst)
        invariant mem == old(mem)[dst := mem[dst]]
        invariant mem[dst].entries[..k] == old(mem)[src].entries[..k]
      {
        mem := WithEntry(mem, dst, k, At(mem, src, k));
        k := k + 1;
      }
      assert mem[dst].entries == old(mem)[src].entries;
    }

    // ---- paging::init ----

    method FillLarge(pd: nat, first: nat)
      modifies this`mem
      ensures mem == old(mem)[pd := LargePages(first)]
    {
      ZeroTable(pd);
      var i := 0;
      while i < 512
        invariant 0 <= i <= 512 && IsTable(mem, pd)
        invariant mem == old(mem)[pd := mem[pd]]
        invariant forall k :: 0 <= k < i ==> mem[pd].entries[k] == LargePages(first).entries[k]
      {
        mem := WithEntry(mem, pd, i, Page2M(first + 512 * i));
        i := i + 1;
      }
      assert mem[pd].entries == LargePages(first).entries;
    }

    /** The kernel identity-maps the first 2 GiB, for the supervisor only, with 2 MiB pages. */
    method Init() returns (ok: bool)
      requires frames.Valid()
      modifies this`mem, this`kernelRoot, this`kernel, frames`hint, frames.bitmap
      ensures frames.Valid()
      ensures !ok ==> frames.Used() == Range(0, frames.count)
      ensures ok ==> Valid() && Ptr(At(mem, kernelRoot, 0)) && NoGiants(mem, kernel) && Closed(mem, kernel)
      ensures ok ==> SharedTables(kernel) == map[]
      ensures ok ==> forall v :: Canonical(v) ==>
        (Leafy(mem, kernelRoot, v) <==> v.i4 == 0 && v.i3 < 2) && !Tabled(mem, kernelRoot, v)
      ensures ok ==> frames.Used() == old(frames.Used()) + kernel.Keys && kernel.Keys !! old(frames.Used())
      ensures ok ==> Agree(old(mem), mem, old(frames.Used()))
      ensures ok ==> forall v :: Canonical(v) ==> Walk(mem, kernelRoot, v) == InitView(v)
    {
      hide KernelSpace, NoGiants, Closed, Walk, Boot, BootLabels, SharedTables, Leafy, Tabled;
      var pml4, pdpt, pd0, pd1;
      ok, pml4, pdpt, pd0, pd1 := InitTables();
      if !ok { return; }
      kernelRoot := pml4;
      kernel := BootLabels(pml4, pdpt, pd0, pd1);
      BootLabelled(mem, pml4, pdpt, pd0, pd1, kernel);
      BootTables(mem, pml4, pdpt, pd0, pd1, kernel, frames.Used());
      forall v | Canonical(v) ensures Walk(mem, kernelRoot, v) == InitView(v) {
        BootWalk(mem, pml4, pdpt, pd0, pd1, v);
      }
      forall v | Canonical(v)
        ensures (Leafy(mem, kernelRoot, v) <==> v.i4 == 0 && v.i3 < 2) && !Tabled(mem, kernelRoot, v)
      {
        BootLeafy(mem, pml4, pdpt, pd0, pd1, v);
      }
    }

    method InitTables() returns (ok: bool, pml4: nat, pdpt: nat, pd0: nat, pd1: nat)
      requires frames.Valid()
      modifies this`mem, frames`hint, frames.bitmap
      ensures frames.Valid()
      ensures !ok ==> frames.Used() == Range(0, frames.count)
      ensures ok ==> Boot(mem, pml4, pdpt, pd0, pd1) && Agree(old(mem), mem, old(frames.Used()))
      ensures ok ==> frames.Used() == old(frames.Used()) + {pml4, pdpt, pd0, pd1}
      ensures ok ==> {pml4, pdpt, pd0, pd1} !! old(frames.Used())
    {
      hide Boot, IsTable, EmptyTable, LargePages;
      pd0, pd1 := 0, 0;
      ok, pml4, pdpt := InitRoot();
      if !ok { return; }
      ok, pd0 := InitDirectory(pdpt, 0);
      if !ok { return; }
      ok, pd1 := InitDirectory(pdpt, 1);
      if !ok { return; }
      BootEntries(mem, pml4, pdpt, pd0, pd1);
    }

    /** The root with its entry 0, before init's loop. */
    method InitRoot() returns (ok: bool, pml4: nat, pdpt: nat)
      requires frames.Valid()
      modifies this`mem, frames`hint, frames.bitmap
      ensures frames.Valid()
      ensures !ok ==> frames.Used() == Range(0, frames.count)
      ensures ok ==> frames.Used() == old(frames.Used()) + {pml4, pdpt} && {pml4, pdpt} !! old(frames.Used())
      ensures ok ==>
        && pml4 != pdpt && IsTable(mem, pml4) && IsTable(mem, pdpt)
        && mem == old(mem)[pml4 := Table(EmptyTable().entries[0 := TableEntry(pdpt)])]
                          [pdpt := EmptyTable()]
    {
      pdpt := 0;
      ok, pml4 := AllocTable();
      if !ok { return; }
      ok, pdpt := AllocTable();
      if !ok { return; }
      ZeroTable(pml4);
      EmptyIsTable(mem, pml4);
      mem := WithEntry(mem, pml4, 0, TableEntry(pdpt));
      ZeroTable(pdpt);
      EmptyIsTable(mem, pdpt);
    }

    /** One turn of init's loop: the directory for the idx-th GiB. */
    method InitDirectory(pdpt: nat, idx: nat) returns (ok: bool, pd: nat)
      requires frames.Valid() && IsTable(mem, pdpt) && idx < 512 && pdpt in frames.Used()
      modifies this`mem, frames`hint, frames.bitmap
      ensures frames.Valid()
      ensures !ok ==> frames.Used() == Range(0, frames.count)
      ensures ok ==> pd !in old(frames.Used()) && frames.Used() == old(frames.Used()) + {pd}
      ensures ok ==>
        mem == old(mem)[pdpt := Table(old(mem)[pdpt].entries[idx := TableEntry(pd)])][pd := LargePages(0x4_0000 * idx)]
      ensures ok ==> IsTable(mem, pdpt)
    {
      ok, pd := AllocTable();
      if !ok { return; }
      mem := WithEntry(mem, pdpt, idx, TableEntry(pd));
      FillLarge(pd, 0x4_0000 * idx);
    }

    // ---- Kernel mappings: map_page and map_page_uc ----

    /** PML4 -> PDPT and PDPT -> PD: follow the entry, or hang an empty table under it. */
    method EnsureTable(table: nat, idx: nat) returns (ok: bool, next: nat)
      requires Valid() && NoGiants(mem, kernel)
      requires table in kernel && (kernel[table].N4? || kernel[table].N3?) && idx < 512
      modifies this`mem, this`kernel, frames`hint, frames.bitmap
      ensures frames.Valid()
      ensures !ok ==> frames.Used() == Range(0, frames.count)
      ensures ok ==> Extended(kernelRoot, old(mem), old(kernel), old(frames.Used()), mem, kernel, frames.Used())
      ensures ok ==> next in kernel && kernel[next] == Child(old(kernel[table]), idx)
      ensures ok ==> Joins(old(kernel), kernel, Child(old(kernel[table]), idx))
    {
      assert KernelEntry(kernel[table], At(mem, table, idx));
      assert Follows(mem, kernel, table, idx);
      if At(mem, table, idx).present {
        assert kernel[table].N3? ==> !At(mem, table, idx).size;
        assert frames.Used() == frames.Used() + kernel.Keys;
        return true, At(mem, table, idx).frame;
      }
      ok, next := HangTable(table, idx);
    }

    /** PD -> PT: follow the entry, split a 2 MiB page, or hang an empty table. */
    method EnsurePt(pd: nat, idx: nat) returns (ok: bool, pt: nat)
      requires Valid() && NoGiants(mem, kernel)
      requires pd in kernel && kernel[pd].N2? && idx < 512
      modifies this`mem, this`kernel, frames`hint, frames.bitmap
      ensures frames.Valid()
      ensures !ok ==> frames.Used() == Range(0, frames.count)
      ensures ok ==> Extended(kernelRoot, old(mem), old(kernel), old(frames.Used()), mem, kernel, frames.Used())
      ensures ok ==> pt in kernel && kernel[pt] == Child(old(kernel[pd]), idx)
      ensures ok ==> Joins(old(kernel), kernel, Child(old(kernel[pd]), idx))
    {
      assert KernelEntry(kernel[pd], At(mem, pd, idx));
      assert Follows(mem, kernel, pd, idx);
      if At(mem, pd, idx).present {
        if At(mem, pd, idx).size {
          ok, pt := SplitLarge(pd, idx);
        } else {
          assert frames.Used() == frames.Used() + kernel.Keys;
          return true, At(mem, pd, idx).frame;
        }
      } else {
        ok, pt := HangTable(pd, idx);
      }
    }

    method HangTable(table: nat, idx: nat) returns (ok: bool, next: nat)
      requires Valid() && NoGiants(mem, kernel)
      requires table in kernel && !kernel[table].N1? && idx < 512
      requires !At(mem, table, idx).present
      modifies this`mem, this`kernel, frames`hint, frames.bitmap
      ensures frames.Valid()
      ensures !ok ==> frames.Used() == Range(0, frames.count)
      ensures ok ==> Extended(kernelRoot, old(mem), old(kernel), old(frames.Used()), mem, kernel, frames.Used())
      ensures ok ==> next in kernel && kernel[next] == Child(old(kernel[table]), idx)
      ensures ok ==> Joins(old(kernel), kernel, Child(old(kernel[table]), idx))
    {
      hide KernelSpace, SameTranslation, Grown, NoGiants, Walk, Closed;
      ghost var mem0, labels0 := mem, kernel;
      KernelTableAt(mem0, kernelRoot, kernel, frames.Used(), table);
      ok, next := AllocTable();
      if !ok { return; }
      ZeroTable(next);
      mem := WithEntry(mem, table, idx, TableEntry(next));
      kernel := kernel[next := Child(kernel[table], idx)];
      assert mem == WithEntry(mem0, table, idx, TableEntry(next))[next := EmptyTable()];
      LinkKernel(mem0, kernelRoot, labels0, old(frames.Used()), table, idx, next, EmptyTable(), mem, kernel);
    }

    method SplitLarge(pd: nat, idx: nat) returns (ok: bool, pt: nat)
      requires Valid() && NoGiants(mem, kernel)
      requires pd in kernel && kernel[pd].N2? && idx < 512
      requires Large(At(mem, pd, idx))
      modifies this`mem, this`kernel, frames`hint, frames.bitmap
      ensures frames.Valid()
      ensures !ok ==> frames.Used() == Range(0, frames.count)
      ensures ok ==> Extended(kernelRoot, old(mem), old(kernel), old(frames.Used()), mem, kernel, frames.Used())
      ensures ok ==> pt in kernel && kernel[pt] == Child(old(kernel[pd]), idx)
      ensures ok ==> Joins(old(kernel), kernel, Child(old(kernel[pd]), idx))
    {
      hide KernelSpace, SameTranslation, Grown, NoGiants, Walk, Closed;
      ghost var mem0, labels0 := mem, kernel;
      KernelTableAt(mem0, kernelRoot, kernel, frames.Used(), pd);
      var base := Base2M(At(mem, pd, idx));
      ok, pt := AllocTable();
      if !ok { return; }
      SplitInto(pt, base);
      mem := WithEntry(mem, pd, idx, TableEntry(pt));
      kernel := kernel[pt := Child(kernel[pd], idx)];
      assert mem == WithEntry(mem0, pd, idx, TableEntry(pt))[pt := SplitPage(base)];
      LinkKernel(mem0, kernelRoot, labels0, old(frames.Used()), pd, idx, pt, SplitPage(base), mem, kernel);
    }

    /** The new leaf is the translation of its page; every other page keeps its own. */
    method MapKernelPage(virt: nat, leaf: Entry) returns (ok: bool)
      requires Valid() && NoGiants(mem, kernel)
      requires leaf.present && !leaf.user
      modifies this`mem, this`kernel, frames`hint, frames.bitmap
      ensures frames.Valid()
      ensures !ok ==> frames.Used() == Range(0, frames.count)
      ensures ok ==> Valid() && NoGiants(mem, kernel)
      ensures ok ==> Grown(old(mem), old(kernel), old(frames.Used()), mem, kernel, frames.Used())
      ensures ok ==> WayTo(old(kernel), kernel, Indices(virt)) && (old(Closed(mem, kernel)) ==> Closed(mem, kernel))
      ensures ok ==> forall v :: Canonical(v) ==>
        Walk(mem, kernelRoot, v) == if v == Indices(virt) then Leaf(leaf, leaf.frame) else old(Walk(mem, kernelRoot, v))
    {
      hide KernelShape, NoGiants, Closed, Walk, Extended, SameTranslation, Grown, Joins, WayTo;
      var v := Indices(virt);
      var pdpt, pd, pt;
      ok, pdpt := EnsureTable(kernelRoot, v.i4);
      if !ok { return; }
      ExtendedGives(kernelRoot, old(mem), old(kernel), old(frames.Used()), mem, kernel, frames.Used());
      ghost var mem1, kernel1, used1 := mem, kernel, frames.Used();
      ok, pd := EnsureTable(pdpt, v.i3);
      if !ok { return; }
      ExtendedTwice(kernelRoot, old(mem), old(kernel), old(frames.Used()), mem1, kernel1, used1, mem, kernel,
                    frames.Used());
      ghost var mem2, kernel2, used2 := mem, kernel, frames.Used();
      ok, pt := EnsurePt(pd, v.i2);
      if !ok { return; }
      ExtendedTwice(kernelRoot, old(mem), old(kernel), old(frames.Used()), mem2, kernel2, used2, mem, kernel,
                    frames.Used());
      ghost var mem3 := mem;
      WayOf(old(kernel), kernel1, kernel2, kernel, v, pt);
      mem := WithEntry(mem, pt, v.i1, leaf);
      MappedOne(kernelRoot, old(mem), old(kernel), old(frames.Used()), mem3, kernel, frames.Used(), pt, v, leaf, mem);
    }

    method MapPage(virt: nat) returns (ok: bool)
      requires Valid() && NoGiants(mem, kernel)
      modifies this`mem, this`kernel, frames`hint, frames.bitmap
      ensures frames.Valid()
      ensures !ok ==> frames.Used() == Range(0, frames.count)
      ensures ok ==> Valid() && NoGiants(mem, kernel)
      ensures ok ==> Grown(old(mem), old(kernel), old(frames.Used()), mem, kernel, frames.Used())
      ensures ok ==> WayTo(old(kernel), kernel, Indices(virt)) && (old(Closed(mem, kernel)) ==> Closed(mem, kernel))
      ensures ok ==> LeavesKept(old(mem), mem, kernelRoot, Indices(virt))
      ensures ok ==> forall v :: Canonical(v) ==>
        Walk(mem, kernelRoot, v) == if v == Indices(virt) then Mapped(virt / 4096, false, true, false, false)
                                    else old(Walk(mem, kernelRoot, v))
    {
      hide KernelSpace, NoGiants, Closed, Grown, Walk, Leafy, Tabled, WayTo;
      ok := MapKernelPage(virt, Page4K(virt / 4096, true, false, true));
      if ok {
        MapLeaves(old(mem), kernelRoot, old(kernel), old(frames.Used()), mem, kernel, frames.Used(), Indices(virt));
      }
    }

    method MapPageUc(virt: nat) returns (ok: bool)
      requires Valid() && NoGiants(mem, kernel)
      modifies this`mem, this`kernel, frames`hint, frames.bitmap
      ensures frames.Valid()
      ensures !ok ==> frames.Used() == Range(0, frames.count)
      ensures ok ==> Valid() && NoGiants(mem, kernel)
      ensures ok ==> Grown(old(mem), old(kernel), old(frames.Used()), mem, kernel, frames.Used())
      ensures ok ==> WayTo(old(kernel), kernel, Indices(virt)) && (old(Closed(mem, kernel)) ==> Closed(mem, kernel))
      ensures ok ==> LeavesKept(old(mem), mem, kernelRoot, Indices(virt))
      ensures ok ==> forall v :: Canonical(v) ==>
        Walk(mem, kernelRoot, v) == if v == Indices(virt) then Mapped(virt / 4096, false, true, false, true)
                                    else old(Walk(mem, kernelRoot, v))
    {
      hide KernelSpace, NoGiants, Closed, Grown, Walk, Leafy, Tabled, WayTo;
      ok := MapKernelPage(virt, Page4KUc(virt / 4096));
      if ok {
        MapLeaves(old(mem), kernelRoot, old(kernel), old(frames.Used()), mem, kernel, frames.Used(), Indices(virt));
      }
    }

    // ---- A task's tables: create_user_page_tables ----

    /** One turn of the cloning loop. */
    method CloneDirectoryEntry(ghost mem0: Memory, ghost used0: set<nat>, ghost root: nat, kpdpt: nat, pdpt: nat,
                               ghost labels: Labels, k: nat)
      returns (ok: bool, ghost labels': Labels)
      requires frames.Valid() && k < 512 && kpdpt == At(mem0, kernelRoot, 0).frame
      requires Cloning(mem0, kernelRoot, kernel, used0, mem, frames.Used(), root, pdpt, labels, k)
      modifies this`mem, frames`hint, frames.bitmap
      ensures frames.Valid()
      ensures !ok ==> frames.Used() == Range(0, frames.count)
      ensures ok ==> Cloning(mem0, kernelRoot, kernel, used0, mem, frames.Used(), root, pdpt, labels', k + 1)
    {
      hide Cloning;
      CloningFacts(mem0, kernelRoot, kernel, used0, mem, frames.Used(), root, pdpt, labels, k);
      ok, labels' := true, labels;
      var e, pd := At(mem, kpdpt, k), 0;
      if e.present {
        if e.size {
          mem := WithEntry(mem, pdpt, k, e);
        } else {
          ok, pd := AllocTable();
          if !ok { return; }
          CopyTable(pd, e.frame);
          mem := WithEntry(mem, pdpt, k, TableEntryUser(pd));
          labels' := labels[pd := N2(0, k)];
        }
      }
      CloningStep(mem0, kernelRoot, kernel, used0, old(mem), old(frames.Used()), root, pdpt, labels, k,
                  pd, mem, frames.Used(), labels');
    }

    /** Step 1: a root whose entry 0 clones the kernel's hierarchy. */
    method CloneKernel() returns (ok: bool, root: nat, ghost labels: Labels)
      requires Valid() && Ptr(At(mem, kernelRoot, 0))
      modifies this`mem, frames`hint, frames.bitmap
      ensures frames.Valid()
      ensures !ok ==> frames.Used() == Range(0, frames.count)
      ensures ok ==> UserSpace(mem, root, labels, kernel, frames.Used()) && Mirrors(old(mem), kernelRoot, mem, root)
      ensures ok ==> frames.Used() == old(frames.Used()) + labels.Keys
      ensures ok ==> labels.Keys - kernel.Keys !! old(frames.Used())
      ensures ok ==> labels.Keys * kernel.Keys == SharedTables(kernel).Keys
      ensures ok ==> NoGiants(old(mem), kernel) ==> NoGiants(mem, labels)
      ensures ok ==> Agree(old(mem), mem, old(frames.Used()))
      ensures ok ==> forall v :: Canonical(v) ==> Walk(mem, root, v) == KernelView(old(mem), kernelRoot, v)
    {
      hide Cloning, UserSpace, KernelSpace, Walk, SameTranslation, NoGiants, Mirrors, SharedTables, KernelView;
      ghost var mem0, used0 := mem, frames.Used();
      labels := SharedTables(kernel);
      var kpdpt, pdpt;
      ok, root, kpdpt, pdpt := StartClone();
      if !ok { return; }
      var k := 0;
      while k < 512
        invariant 0 <= k <= 512 && frames.Valid()
        invariant Cloning(mem0, kernelRoot, kernel, used0, mem, frames.Used(), root, pdpt, labels, k)
      {
        ok, labels := CloneDirectoryEntry(mem0, used0, root, kpdpt, pdpt, labels, k);
        if !ok { return; }
        k := k + 1;
      }
      CloningFacts(mem0, kernelRoot, kernel, used0, mem, frames.Used(), root, pdpt, labels, k);
      ghost var mem1, labels1 := mem, labels;
      mem := WithEntry(mem, root, 0, TableEntryUser(pdpt));
      labels := labels[pdpt := N3(0)][root := N4];
      CloningEnd(mem0, kernelRoot, kernel, used0, mem1, frames.Used(), root, pdpt, labels1, mem, labels);
      ok := true;
    }

    /** The empty root and the empty table that the loop fills from the kernel's. */
    method StartClone() returns (ok: bool, root: nat, kpdpt: nat, pdpt: nat)
      requires Valid() && Ptr(At(mem, kernelRoot, 0))
      modifies this`mem, frames`hint, frames.bitmap
      ensures frames.Valid()
      ensures !ok ==> frames.Used() == Range(0, frames.count)
      ensures ok ==> kpdpt == At(old(mem), kernelRoot, 0).frame
      ensures ok ==> Cloning(old(mem), kernelRoot, kernel, old(frames.Used()), mem, frames.Used(), root, pdpt,
                             SharedTables(kernel), 0)
    {
      hide Cloning, KernelSpace, Walk, SameTranslation, SharedTables;
      kpdpt, pdpt := 0, 0;
      ok, root := AllocTable();
      if !ok { return; }
      ZeroTable(root);
      KernelFrame(old(mem), kernelRoot, kernel, old(frames.Used()), mem);
      KernelPdpt(old(mem), kernelRoot, kernel, old(frames.Used()));
      kpdpt := At(mem, kernelRoot, 0).frame;
      ok, pdpt := AllocTable();
      if !ok { return; }
      ZeroTable(pdpt);
      CloningStart(old(mem), kernelRoot, kernel, old(frames.Used()), root, pdpt);
    }

    /** map_user_page: the last-level table for an address, splitting a 2 MiB page if need be. */
    method MapUserPage(root: nat, virt: nat, ghost labels: Labels) returns (ok: bool, pt: nat, ghost labels': Labels)
      requires frames.Valid() && kernel.Keys <= frames.Used()
      requires UserSpace(mem, root, labels, kernel, frames.Used())
      requires HasPd(mem, root, Indices(virt)) && Pde(mem, root, Indices(virt)).present
      modifies this`mem, frames`hint, frames.bitmap
      ensures frames.Valid()
      ensures !ok ==> frames.Used() == Range(0, frames.count)
      ensures ok ==> UserSpace(mem, root, labels', kernel, frames.Used()) && SameTranslation(old(mem), mem, root)
      ensures ok ==> Repointed(old(mem), mem, root)
      ensures ok ==> frames.Used() == old(frames.Used()) + labels'.Keys
      ensures ok ==> labels.Keys <= labels'.Keys && labels'.Keys - labels.Keys !! old(frames.Used())
      ensures ok ==> Agree(old(mem), mem, old(frames.Used()) - (labels.Keys - kernel.Keys))
      ensures ok ==> TaskTable(mem, root, labels', kernel, Indices(virt), pt)
      ensures ok ==> NoGiants(old(mem), labels) ==> NoGiants(mem, labels')
    {
      hide UserSpace, SameTranslation, NoGiants, Repointed;
      var v := Indices(virt);
      LowTables(mem, root, labels, kernel, frames.Used(), v);
      var pdpt := At(mem, root, v.i4).frame;
      var pd := At(mem, pdpt, v.i3).frame;
      var e := At(mem, pd, v.i2);
      ok, labels' := true, labels;
      if e.size {
        ok, pt := AllocTable();
        if !ok { return; }
        SplitInto(pt, Base2M(e));
        mem := WithEntry(mem, pd, v.i2, TableEntryUser(pt));
        labels' := labels[pt := AtNode(v)];
        assert mem == WithEntry(old(mem), pd, v.i2, TableEntryUser(pt))[pt := SplitPage(Base2M(e))];
        SplitUser(old(mem), root, labels, kernel, old(frames.Used()), v, pt, mem, labels');
      } else {
        pt := e.frame;
        SameTranslationSelf(mem, root);
        assert labels.Keys <= frames.Used() by { LabelsUsed(mem, root, labels, kernel, frames.Used()); }
      }
    }

    /** A fresh zeroed frame, mapped at the request's address with its rights. */
    method MapFresh(ghost mem0: Memory, ghost used0: set<nat>, root: nat, req: Request,
                    ghost labels: Labels, pages: seq<UserPage>)
      returns (ok: bool, pages': seq<UserPage>, ghost labels': Labels)
      requires frames.Valid() && KernelSpace(mem0, kernelRoot, kernel, used0)
      requires Reaches(mem0, kernelRoot, Indices(req.vaddr))
      requires Building(mem0, kernelRoot, kernel, used0, mem, frames.Used(), root, labels, pages)
      modifies this`mem, frames`hint, frames.bitmap
      ensures frames.Valid()
      ensures !ok ==> frames.Used() == Range(0, frames.count)
      ensures ok ==> Building(mem0, kernelRoot, kernel, used0, mem, frames.Used(), root, labels', pages')
      ensures ok ==> Requests(pages') == Requests(pages) + [req]
    {
      hide UserSpace, KernelSpace, Building, SameTranslation, NoGiants, Mirrors, Repointed, TaskTable, Reaches, HasPd,
        Pde;
      pages', labels' := pages, labels;
      BuildingFacts(mem0, kernelRoot, kernel, used0, mem, frames.Used(), root, labels, pages);
      var fresh0;
      ok, fresh0 := AllocTable();
      if !ok { return; }
      mem := mem[fresh0 := Data(Zeros(4096))];
      ghost var memA, usedA := mem, frames.Used();
      UserFrame(old(mem), root, labels, kernel, old(frames.Used()), memA, usedA);
      Entered(mem0, kernelRoot, old(mem), memA, root, Indices(req.vaddr));
      var pt;
      ok, pt, labels' := MapUserPage(root, req.vaddr, labels);
      if !ok { return; }
      ghost var memB := mem;
      assert IsTable(mem, pt) by { TableFound(mem, root, labels', kernel, Indices(req.vaddr), pt); }
      var i1 := Indices(req.vaddr).i1;
      mem := WithEntry(mem, pt, i1, Page4K(fresh0, req.write, true, req.exec));
      pages' := pages + [UserPage(req, fresh0)];
      BuildStep(mem0, kernelRoot, kernel, used0, old(mem), old(frames.Used()), root, labels, pages,
                UserPage(req, fresh0), memA, memB, labels', frames.Used(), pt, mem);
    }

    /** The pages of one segment, from the page of its address up to its end. */
    method MapSegment(ghost mem0: Memory, ghost used0: set<nat>, root: nat, seg: Segment,
                      ghost labels: Labels, pages: seq<UserPage>)
      returns (ok: bool, pages': seq<UserPage>, ghost labels': Labels)
      requires frames.Valid() && KernelSpace(mem0, kernelRoot, kernel, used0)
      requires forall r :: r in SegmentPages(seg) ==> Reaches(mem0, kernelRoot, Indices(r.vaddr))
      requires Building(mem0, kernelRoot, kernel, used0, mem, frames.Used(), root, labels, pages)
      modifies this`mem, frames`hint, frames.bitmap
      ensures frames.Valid()
      ensures !ok ==> frames.Used() == Range(0, frames.count)
      ensures ok ==> Building(mem0, kernelRoot, kernel, used0, mem, frames.Used(), root, labels', pages')
      ensures ok ==> Requests(pages') == Requests(pages) + SegmentPages(seg)
      ensures ok ==> exists added :: Requests(pages') == Requests(pages) + added && ServedBy(seg, added)
    {
      hide Building, Requests, PagesFrom, KernelSpace, Reaches, ServedBy, Indices, Range;
      SegmentServed(seg);
      ok, pages', labels' := true, pages, labels;
      if seg.memsz == 0 { return; }
      var addr := seg.vaddr - seg.vaddr % 4096;
      var end := seg.vaddr + seg.memsz;
      var write, exec := (seg.flags / 2) % 2 == 1, seg.flags % 2 == 1;
      while addr < end
        invariant frames.Valid()
        invariant Building(mem0, kernelRoot, kernel, used0, mem, frames.Used(), root, labels', pages')
        invariant Requests(pages') + PagesFrom(addr, end, write, exec) == Requests(pages) + SegmentPages(seg)
        invariant forall r :: r in PagesFrom(addr, end, write, exec) ==> Reaches(mem0, kernelRoot, Indices(r.vaddr))
        decreases end - addr
      {
        ghost var before, more := Requests(pages'), PagesFrom(addr + 4096, end, write, exec);
        PagesFromStep(addr, end, write, exec);
        assert Request(addr, write, exec) in PagesFrom(addr, end, write, exec);
        ok, pages', labels' := MapFresh(mem0, used0, root, Request(addr, write, exec), labels', pages');
        if !ok { return; }
        MovedOver(before, Request(addr, write, exec), more);
        addr := addr + 4096;
      }
      PagesFromStep(addr, end, write, exec);
      ok := true;
    }

    /** create_user_page_tables. Each page of a segment has the rights that the flags of the last segment
        there give, the stack page is writable, every other page is as in the kernel, and no two
        pages share a frame. The kernel translates as KernelExpect says; where no page falls into a
        last-level table of the kernel, its translation and every frame in use before are as they
        were. */
    method CreateUserPageTables(segments: seq<Segment>)
      returns (ok: bool, root: nat, pages: seq<UserPage>, ghost labels: Labels)
      requires Valid() && Ptr(At(mem, kernelRoot, 0))
      requires forall r :: r in Wanted(segments) + [STACK] ==> Reaches(mem, kernelRoot, Indices(r.vaddr))
      modifies this`mem, frames`hint, frames.bitmap
      ensures frames.Valid()
      ensures !ok ==> frames.Used() == Range(0, frames.count)
      ensures ok ==> Building(old(mem), kernelRoot, kernel, old(frames.Used()), mem, frames.Used(), root, labels, pages)
      ensures ok ==> Requests(pages) == Wanted(segments) + [STACK] && Valid()
      ensures ok && OffTables(old(mem), kernelRoot, pages) ==>
        SameTranslation(old(mem), mem, kernelRoot) && Agree(old(mem), mem, old(frames.Used()))
      ensures ok ==> SegmentsMapped(old(mem), kernelRoot, mem, root, segments, DataFrames(pages))
      ensures ok ==> PagesApart(mem, root)
    {
      hide Building, UserSpace, KernelSpace, SameTranslation, Walk, NoGiants, Mirrors, Reaches, OffTables,
        SegmentsMapped, PagesApart;
      pages := [];
      ghost var mem0, used0 := mem, frames.Used();
      ok, root, labels := CloneKernel();
      if !ok { return; }
      BuildStart(mem0, kernelRoot, kernel, used0, mem, frames.Used(), root, labels);
      var i := 0;
      while i < |segments|
        invariant 0 <= i <= |segments| && frames.Valid()
        invariant Building(mem0, kernelRoot, kernel, used0, mem, frames.Used(), root, labels, pages)
        invariant Requests(pages) == Wanted(segments[..i])
      {
        assert segments[..i + 1][..i] == segments[..i];
        WantedHas(segments, i);
        ok, pages, labels := MapSegment(mem0, used0, root, segments[i], labels, pages);
        if !ok { return; }
        i := i + 1;
      }
      assert segments[..i] == segments;
      assert STACK in Wanted(segments) + [STACK];
      ok, pages, labels := MapFresh(mem0, used0, root, STACK, labels, pages);
      if !ok { return; }
      BuildingFacts(mem0, kernelRoot, kernel, used0, mem, frames.Used(), root, labels, pages);
      SegmentsAreMapped(mem0, kernelRoot, kernel, used0, mem, frames.Used(), root, labels, pages, segments);
      if OffTables(mem0, kernelRoot, pages) {
        BuildEnd(mem0, kernelRoot, kernel, used0, mem, frames.Used(), root, labels, pages);
      }
    }

    // ---- Giving a task's tables back ----

    method FreePts(pd: nat)
      requires frames.Valid()
      modifies frames.bitmap
      ensures frames.Valid() && frames.Used() == old(frames.Used()) - PtsUnder(mem, pd, 512)
    {
      var i := 0;
      while i < 512
        invariant 0 <= i <= 512 && frames.Valid()
        invariant frames.Used() == old(frames.Used()) - PtsUnder(mem, pd, i)
      {
        var e := At(mem, pd, i);
        if e.present && !e.size {
          frames.DeallocateFrame(e.frame);
        }
        i := i + 1;
      }
    }

    method FreePds(pdpt: nat)
      requires frames.Valid()
      modifies frames.bitmap
      ensures frames.Valid() && frames.Used() == old(frames.Used()) - PdsUnder(mem, pdpt, 512)
    {
      var i := 0;
      while i < 512
        invariant 0 <= i <= 512 && frames.Valid()
        invariant frames.Used() == old(frames.Used()) - PdsUnder(mem, pdpt, i)
      {
        var e := At(mem, pdpt, i);
        if e.present && !e.size {
          FreePts(e.frame);
          frames.DeallocateFrame(e.frame);
        }
        i := i + 1;
      }
    }

    method FreeUserPageTables(root: nat)
      requires frames.Valid()
      modifies frames.bitmap
      ensures frames.Valid() && frames.Used() == old(frames.Used()) - Freed(mem, root, kernelRoot)
    {
      var i := 0;
      while i < 512
        invariant 0 <= i <= 512 && frames.Valid()
        invariant frames.Used() == old(frames.Used()) - PdptsUnder(mem, root, kernelRoot, i)
      {
        var e := At(mem, root, i);
        if e.present && e != At(mem, kernelRoot, i) {
          FreePds(e.frame);
          frames.DeallocateFrame(e.frame);
        }
        i := i + 1;
      }
      frames.DeallocateFrame(root);
    }
  }
}
