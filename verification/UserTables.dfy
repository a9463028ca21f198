// A task's page tables: create_user_page_tables, map_user_page and is_user_mapped
// in src/arch/x86_64/paging.rs.

module UserTables {
  import opened Wrappers
  import opened Bytes
  import opened PageTables
  import opened KernelTables

  const USER_BASE_VA := 0x40_0000
  const STACK_VA := USER_BASE_VA + 0x10_0000

  /** The entries of a task's tables. `kernel` labels the kernel's own tables. */
  predicate UserEntry(kernel: Labels, n: Node, e: Entry) {
    match n
    case N4 => e == EMPTY || (e == TableEntryUser(e.frame) && e.frame !in kernel)
    case N3(_) => e == EMPTY || Giant(e) || (e == TableEntryUser(e.frame) && e.frame !in kernel)
    case N2(_, _) =>
      || e == EMPTY || Large(e)
      || (e == TableEntryUser(e.frame) && e.frame !in kernel)
      || (e == TableEntry(e.frame) && e.frame in kernel)
    case N1(_, _, _) => true
  }

  /** A task's hierarchy shares at most last-level tables with the kernel. */
  ghost predicate UserShape(mem: Memory, labels: Labels, kernel: Labels) {
    && (forall f :: f in labels && f in kernel ==> labels[f].N1? && kernel[f] == labels[f])
    && (forall f, i :: f in labels && f !in kernel && 0 <= i < 512 ==> UserEntry(kernel, labels[f], At(mem, f, i)))
  }

  ghost predicate UserSpace(mem: Memory, root: nat, labels: Labels, kernel: Labels, used: set<nat>) {
    IsTree(mem, root, labels) && UserShape(mem, labels, kernel) && labels.Keys <= used
  }

  // ---- What paging::init leaves ----

  function LargePages(first: nat): Page {
    Table(seq(512, k requires 0 <= k < 512 => Page2M(first + 512 * k)))
  }

  /** Two page directories of 2 MiB pages under one directory-pointer table. */
  ghost predicate Boot(mem: Memory, pml4: nat, pdpt: nat, pd0: nat, pd1: nat) {
    && pml4 != pdpt && pml4 != pd0 && pml4 != pd1 && pdpt != pd0 && pdpt != pd1 && pd0 != pd1
    && IsTable(mem, pml4) && IsTable(mem, pdpt) && IsTable(mem, pd0) && IsTable(mem, pd1)
    && (forall k :: 0 <= k < 512 ==> At(mem, pml4, k) == if k == 0 then TableEntry(pdpt) else EMPTY)
    && (forall k :: 0 <= k < 512 ==>
          At(mem, pdpt, k) == if k == 0 then TableEntry(pd0) else if k == 1 then TableEntry(pd1) else EMPTY)
    && (forall k :: 0 <= k < 512 ==>
        At(mem, pd0, k) == Page2M(512 * k) && At(mem, pd1, k) == Page2M(0x4_0000 + 512 * k))
  }

  lemma BootEntries(mem: Memory, pml4: nat, pdpt: nat, pd0: nat, pd1: nat)
    requires pml4 != pdpt && pml4 != pd0 && pml4 != pd1 && pdpt != pd0 && pdpt != pd1 && pd0 != pd1
    requires pml4 in mem && mem[pml4] == Table(EmptyTable().entries[0 := TableEntry(pdpt)])
    requires pdpt in mem && mem[pdpt] == Table(EmptyTable().entries[0 := TableEntry(pd0)][1 := TableEntry(pd1)])
    requires pd0 in mem && mem[pd0] == LargePages(0) && pd1 in mem && mem[pd1] == LargePages(0x4_0000)
    ensures Boot(mem, pml4, pdpt, pd0, pd1)
  {
  }

  function BootLabels(pml4: nat, pdpt: nat, pd0: nat, pd1: nat): Labels {
    map[pml4 := N4, pdpt := N3(0), pd0 := N2(0, 0), pd1 := N2(0, 1)]
  }

  lemma BootLabelled(mem: Memory, pml4: nat, pdpt: nat, pd0: nat, pd1: nat, labels: Labels)
    requires Boot(mem, pml4, pdpt, pd0, pd1) && labels == BootLabels(pml4, pdpt, pd0, pd1)
    ensures labels.Keys == {pml4, pdpt, pd0, pd1}
    ensures labels[pml4] == N4 && labels[pdpt] == N3(0) && labels[pd0] == N2(0, 0) && labels[pd1] == N2(0, 1)
  {
  }

  lemma BootTables(mem: Memory, pml4: nat, pdpt: nat, pd0: nat, pd1: nat, labels: Labels, used: set<nat>)
    requires Boot(mem, pml4, pdpt, pd0, pd1)
    requires labels == BootLabels(pml4, pdpt, pd0, pd1) && {pml4, pdpt, pd0, pd1} <= used
    ensures KernelSpace(mem, pml4, labels, used) && Ptr(At(mem, pml4, 0)) && NoGiants(mem, labels)
    ensures Closed(mem, labels) && SharedTables(labels) == map[]
  {
    BootLabelled(mem, pml4, pdpt, pd0, pd1, labels);
    hide At, IsTable, BootLabels;
    forall k | 0 <= k < 512 ensures Large(At(mem, pd0, k)) && Large(At(mem, pd1, k)) {
    }
    forall f, i | f in labels && 0 <= i < 512
      ensures Follows(mem, labels, f, i) && KernelEntry(labels[f], At(mem, f, i))
    {
      assert f == pml4 || f == pdpt || f == pd0 || f == pd1;
    }
    forall f | f in labels ensures Find(mem, pml4, labels[f]) == Some(f) {
      assert f == pml4 || f == pdpt || f == pd0 || f == pd1;
    }
  }

  /** The first 2 GiB are 2 MiB pages. */
  lemma BootLeafy(mem: Memory, pml4: nat, pdpt: nat, pd0: nat, pd1: nat, v: Va)
    requires Boot(mem, pml4, pdpt, pd0, pd1) && Canonical(v)
    ensures (Leafy(mem, pml4, v) <==> v.i4 == 0 && v.i3 < 2) && !Tabled(mem, pml4, v)
  {
    hide At, IsTable;
  }

  /** The identity map of the first 2 GiB. */
  function InitView(v: Va): Mapping {
    if v.i4 == 0 && v.i3 < 2 then Mapped(0x4_0000 * v.i3 + 512 * v.i2 + v.i1, false, true, false, false) else Fault
  }

  lemma BootWalk(mem: Memory, pml4: nat, pdpt: nat, pd0: nat, pd1: nat, v: Va)
    requires Boot(mem, pml4, pdpt, pd0, pd1) && Canonical(v)
    ensures Walk(mem, pml4, v) == InitView(v)
  {
    hide At, IsTable;
  }

  // ---- Cloning the kernel's hierarchy ----

  /** The page-directory-pointer entry k of a clone, made from the kernel's `ke`. */
  predicate CloneEntry(mem: Memory, labels: Labels, ke: Entry, ne: Entry, k: nat) {
    if !ke.present then ne == EMPTY
    else if ke.size then ne == ke
    else
      && ne == TableEntryUser(ne.frame) && ne.frame in labels && labels[ne.frame] == N2(0, k)
      && ne.frame in mem && ke.frame in mem && mem[ne.frame] == mem[ke.frame]
  }

  function SharedTables(kernel: Labels): Labels {
    map f | f in kernel && kernel[f].N1? && kernel[f].i4 == 0 :: kernel[f]
  }

  /** The first n directory pointers are cloned; `labels` names their new directories. */
  ghost predicate Cloned(mem: Memory, kpdpt: nat, pdpt: nat, kernel: Labels, labels: Labels, n: nat) {
    && IsTable(mem, pdpt) && n <= 512
    && (forall k :: 0 <= k < n ==> CloneEntry(mem, labels, At(mem, kpdpt, k), At(mem, pdpt, k), k))
    && (forall k :: n <= k < 512 ==> At(mem, pdpt, k) == EMPTY)
    && (forall f :: f in SharedTables(kernel) ==> f in labels && labels[f] == kernel[f])
    && (forall f :: f in labels && f !in SharedTables(kernel) ==>
          f !in kernel && labels[f].N2? && labels[f].i4 == 0 && labels[f].i3 < n && Ptr(At(mem, pdpt, labels[f].i3))
          && At(mem, pdpt, labels[f].i3).frame == f && !At(mem, kpdpt, labels[f].i3).size)
  }

  /** One more directory pointer, given what the writes did to the entries. */
  lemma CloneStep(mem: Memory, kpdpt: nat, pdpt: nat, kernel: Labels, labels: Labels, n: nat, mem': Memory,
                  labels': Labels)
    requires Cloned(mem, kpdpt, pdpt, kernel, labels, n) && n < 512
    requires IsTable(mem', pdpt) && KeepsOld(mem, mem', pdpt, kernel, labels)
    requires forall k :: 0 <= k < 512 ==> At(mem', kpdpt, k) == At(mem, kpdpt, k)
    requires forall k :: 0 <= k < 512 && k != n ==> At(mem', pdpt, k) == At(mem, pdpt, k)
    requires forall k :: 0 <= k < n && Ptr(At(mem, kpdpt, k)) ==>
      At(mem, kpdpt, k).frame in kernel && At(mem, kpdpt, k).frame != pdpt
    requires pdpt !in labels
    requires var ke, ne := At(mem, kpdpt, n), At(mem', pdpt, n);
             && CloneEntry(mem', labels', ke, ne, n)
             && if Ptr(ke) then ne.frame !in kernel && ne.frame !in labels && labels' == labels[ne.frame := N2(0, n)]
                else labels' == labels
    ensures Cloned(mem', kpdpt, pdpt, kernel, labels', n + 1)
  {
    hide At, IsTable;
    forall k | 0 <= k < n + 1 ensures CloneEntry(mem', labels', At(mem', kpdpt, k), At(mem', pdpt, k), k) {
      if k < n {
        assert CloneEntry(mem, labels, At(mem, kpdpt, k), At(mem, pdpt, k), k);
      }
    }
  }

  ghost predicate KeepsOld(mem: Memory, mem': Memory, pdpt: nat, kernel: Labels, labels: Labels) {
    forall f :: (f in kernel || f in labels) && f != pdpt && f in mem ==> f in mem' && mem'[f] == mem[f]
  }

  /** A finished clone, hung under entry 0 of a new root. */
  ghost predicate CloneDone(mem: Memory, kroot: nat, kernel: Labels, root: nat, pdpt: nat, labels: Labels,
                            labels': Labels) {
    && IsTree(mem, kroot, kernel) && KernelShape(mem, kernel) && Ptr(At(mem, kroot, 0))
    && Cloned(mem, At(mem, kroot, 0).frame, pdpt, kernel, labels, 512)
    && IsTable(mem, root) && At(mem, root, 0) == TableEntryUser(pdpt)
    && (forall k :: 1 <= k < 512 ==> At(mem, root, k) == EMPTY)
    && root != pdpt && root !in labels && pdpt !in labels && root !in kernel && pdpt !in kernel
    && labels' == labels[pdpt := N3(0)][root := N4]
  }

  /** A cloned directory holds the kernel's entries. */
  lemma CloneDirectory(mem: Memory, kroot: nat, kernel: Labels, root: nat, pdpt: nat, labels: Labels, labels': Labels,
                       k: nat)
    requires CloneDone(mem, kroot, kernel, root, pdpt, labels, labels') && k < 512 && Ptr(At(mem, pdpt, k))
    ensures var kpdpt := At(mem, kroot, 0).frame;
            && Ptr(At(mem, kpdpt, k)) && At(mem, pdpt, k) == TableEntryUser(At(mem, pdpt, k).frame)
            && At(mem, pdpt, k).frame in labels && labels[At(mem, pdpt, k).frame] == N2(0, k)
            && At(mem, pdpt, k).frame !in kernel && IsTable(mem, At(mem, pdpt, k).frame)
            && At(mem, kpdpt, k).frame in kernel && kernel[At(mem, kpdpt, k).frame] == N2(0, k)
            && forall m :: 0 <= m < 512 ==> At(mem, At(mem, pdpt, k).frame, m) == At(mem, At(mem, kpdpt, k).frame, m)
  {
    var kpdpt := At(mem, kroot, 0).frame;
    assert CloneEntry(mem, labels, At(mem, kpdpt, k), At(mem, pdpt, k), k);
    WalkFollows(mem, kroot, kernel, Va(0, k, 0, 0));
    assert KernelEntry(kernel[kpdpt], At(mem, kpdpt, k));
  }

  lemma CloneFollows(mem: Memory, kroot: nat, kernel: Labels, root: nat, pdpt: nat, labels: Labels, labels': Labels,
                     f: nat, i: nat)
    requires CloneDone(mem, kroot, kernel, root, pdpt, labels, labels') && f in labels' && i < 512
    ensures Follows(mem, labels', f, i) && (f !in kernel ==> UserEntry(kernel, labels'[f], At(mem, f, i)))
  {
    if f == pdpt {
      if Ptr(At(mem, pdpt, i)) {
        CloneDirectory(mem, kroot, kernel, root, pdpt, labels, labels', i);
      } else {
        CloneLeaf(mem, kroot, kernel, root, pdpt, labels, labels', i);
      }
    } else if f != root && f !in kernel {
      CloneBelow(mem, kroot, kernel, root, pdpt, labels, labels', f, i);
    }
  }

  lemma CloneBelow(mem: Memory, kroot: nat, kernel: Labels, root: nat, pdpt: nat, labels: Labels, labels': Labels,
                   f: nat, i: nat)
    requires CloneDone(mem, kroot, kernel, root, pdpt, labels, labels') && f in labels' && i < 512
    requires f != pdpt && f != root && f !in kernel
    ensures Follows(mem, labels', f, i) && UserEntry(kernel, labels'[f], At(mem, f, i))
  {
    var k := labels[f].i3;
    CloneDirectory(mem, kroot, kernel, root, pdpt, labels, labels', k);
    var kf := At(mem, At(mem, kroot, 0).frame, k).frame;
    assert Follows(mem, kernel, kf, i);
    assert KernelEntry(kernel[kf], At(mem, kf, i));
  }

  lemma CloneLeaf(mem: Memory, kroot: nat, kernel: Labels, root: nat, pdpt: nat, labels: Labels, labels': Labels,
                  k: nat)
    requires CloneDone(mem, kroot, kernel, root, pdpt, labels, labels') && k < 512 && !Ptr(At(mem, pdpt, k))
    ensures var ke := At(mem, At(mem, kroot, 0).frame, k);
            !Ptr(ke) && At(mem, pdpt, k) == (if ke.present then ke else EMPTY) && (ke.present ==> Giant(ke))
  {
    var kpdpt := At(mem, kroot, 0).frame;
    assert CloneEntry(mem, labels, At(mem, kpdpt, k), At(mem, pdpt, k), k);
    WalkFollows(mem, kroot, kernel, Va(0, k, 0, 0));
    assert KernelEntry(kernel[kpdpt], At(mem, kpdpt, k));
  }

  lemma CloneFind(mem: Memory, kroot: nat, kernel: Labels, root: nat, pdpt: nat, labels: Labels, labels': Labels,
                  f: nat)
    requires CloneDone(mem, kroot, kernel, root, pdpt, labels, labels') && f in labels'
    ensures IsTable(mem, f) && Find(mem, root, labels'[f]) == Some(f)
  {
    if f in SharedTables(kernel) && f != root && f != pdpt {
      assert Find(mem, kroot, kernel[f]) == Some(f);
      var k := kernel[f].i3;
      var kpdpt := At(mem, kroot, 0).frame;
      assert Ptr(At(mem, kpdpt, k)) && k < 512;
      assert CloneEntry(mem, labels, At(mem, kpdpt, k), At(mem, pdpt, k), k);
      CloneDirectory(mem, kroot, kernel, root, pdpt, labels, labels', k);
    } else if f in labels {
      CloneDirectory(mem, kroot, kernel, root, pdpt, labels, labels', labels[f].i3);
    }
  }

  lemma CloneTree(mem: Memory, kroot: nat, kernel: Labels, root: nat, pdpt: nat, labels: Labels, labels': Labels)
    requires CloneDone(mem, kroot, kernel, root, pdpt, labels, labels')
    ensures IsTree(mem, root, labels') && UserShape(mem, labels', kernel)
  {
    forall f, i | f in labels' && 0 <= i < 512
      ensures Follows(mem, labels', f, i) && (f !in kernel ==> UserEntry(kernel, labels'[f], At(mem, f, i)))
    {
      CloneFollows(mem, kroot, kernel, root, pdpt, labels, labels', f, i);
    }
    forall f | f in labels' ensures IsTable(mem, f) && Find(mem, root, labels'[f]) == Some(f) {
      CloneFind(mem, kroot, kernel, root, pdpt, labels, labels', f);
    }
  }

  /** What a task sees where it has no page of its own. */
  function KernelView(mem: Memory, kroot: nat, v: Va): Mapping {
    if v.i4 == 0 then Walk(mem, kroot, v) else Fault
  }

  lemma CloneWalk(mem: Memory, kroot: nat, kernel: Labels, root: nat, pdpt: nat, labels: Labels, labels': Labels, v: Va)
    requires CloneDone(mem, kroot, kernel, root, pdpt, labels, labels') && Canonical(v)
    ensures Walk(mem, root, v) == KernelView(mem, kroot, v)
  {
    hide At, Cloned, Find;
    if v.i4 == 0 {
      WalkFollows(mem, kroot, kernel, v);
      var kpdpt := At(mem, kroot, 0).frame;
      assert KernelEntry(kernel[kroot], At(mem, kroot, 0));
      assert KernelEntry(kernel[kpdpt], At(mem, kpdpt, v.i3));
      if Ptr(At(mem, pdpt, v.i3)) {
        CloneDirectory(mem, kroot, kernel, root, pdpt, labels, labels', v.i3);
        var kpd := At(mem, kpdpt, v.i3).frame;
        var ke := At(mem, kpd, v.i2);
        assert KernelEntry(kernel[kpd], ke);
        assert Ptr(ke) ==> KernelEntry(kernel[ke.frame], At(mem, ke.frame, v.i1));
      } else {
        CloneLeaf(mem, kroot, kernel, root, pdpt, labels, labels', v.i3);
      }
    }
  }

  /** The directory entry of a task for v, made from the kernel's `ke`: a 2 MiB page may have been
      split for the task; anything else is copied. */
  predicate TaskPde(ke: Entry, e: Entry) {
    if ke.size then Large(e) || e == TableEntryUser(e.frame) else e == ke
  }

  /** Below 512 GiB the task has the kernel's page directories, entry for entry. */
  ghost predicate Mirrors(mem0: Memory, kroot: nat, mem: Memory, root: nat) {
    forall v :: Canonical(v) && v.i4 == 0 && HasPd(mem0, kroot, v) ==>
      HasPd(mem, root, v) && TaskPde(Pde(mem0, kroot, v), Pde(mem, root, v))
  }

  lemma CloneMirrors(mem: Memory, kroot: nat, kernel: Labels, root: nat, pdpt: nat, labels: Labels, labels': Labels,
                     v: Va)
    requires CloneDone(mem, kroot, kernel, root, pdpt, labels, labels') && Canonical(v) && v.i4 == 0
    requires HasPd(mem, kroot, v)
    ensures HasPd(mem, root, v) && Pde(mem, root, v) == Pde(mem, kroot, v)
    ensures TaskPde(Pde(mem, kroot, v), Pde(mem, root, v))
  {
    hide Find;
    var kpdpt := At(mem, kroot, 0).frame;
    assert CloneEntry(mem, labels, At(mem, kpdpt, v.i3), At(mem, pdpt, v.i3), v.i3);
    CloneDirectory(mem, kroot, kernel, root, pdpt, labels, labels', v.i3);
    WalkFollows(mem, kroot, kernel, v);
    var kpd := At(mem, kpdpt, v.i3).frame;
    assert KernelEntry(kernel[kpd], At(mem, kpd, v.i2));
  }

  /** The state of the cloning loop after n turns. */
  ghost predicate Cloning(mem0: Memory, kroot: nat, kernel: Labels, used0: set<nat>,
                          mem: Memory, used: set<nat>, root: nat, pdpt: nat, labels: Labels, n: nat)
  {
    && KernelSpace(mem0, kroot, kernel, used0) && Ptr(At(mem0, kroot, 0))
    && Agree(mem0, mem, used0) && used == used0 + {root, pdpt} + labels.Keys
    && root in mem && mem[root] == EmptyTable() && root != pdpt
    && root !in labels && pdpt !in labels && root !in used0 && pdpt !in used0
    && labels.Keys - kernel.Keys !! used0
    && Cloned(mem, At(mem0, kroot, 0).frame, pdpt, kernel, labels, n)
  }

  lemma KernelFrame(mem0: Memory, kroot: nat, kernel: Labels, used0: set<nat>, mem: Memory)
    requires KernelSpace(mem0, kroot, kernel, used0) && Agree(mem0, mem, used0)
    ensures KernelSpace(mem, kroot, kernel, used0) && kernel.Keys <= used0
    ensures forall f, i :: f in kernel && 0 <= i < 512 ==> At(mem, f, i) == At(mem0, f, i)
    ensures SameTranslation(mem0, mem, kroot)
  {
    TreeAgrees(mem0, mem, kroot, kernel);
    KernelRoot(mem0, kroot, kernel);
    forall f, i | f in kernel && 0 <= i < 512
      ensures At(mem, f, i) == At(mem0, f, i) && KernelEntry(kernel[f], At(mem, f, i))
    {
      assert IsTable(mem0, f);
      assert KernelEntry(kernel[f], At(mem0, f, i));
    }
    forall v | Canonical(v) ensures Walk(mem, kroot, v) == Walk(mem0, kroot, v) {
      WalkAgrees(mem0, mem, kroot, kernel, v);
    }
  }

  lemma KernelPdpt(mem0: Memory, kroot: nat, kernel: Labels, used0: set<nat>)
    requires KernelSpace(mem0, kroot, kernel, used0) && Ptr(At(mem0, kroot, 0))
    ensures kroot in kernel && At(mem0, kroot, 0).frame in kernel && kernel[At(mem0, kroot, 0).frame] == N3(0)
    ensures forall k :: 0 <= k < 512 && Ptr(Pdpte(mem0, kroot, k)) ==>
      Pdpte(mem0, kroot, k).frame in kernel && IsTable(mem0, Pdpte(mem0, kroot, k).frame)
  {
    assert Follows(mem0, kernel, kroot, 0);
    var kpdpt := At(mem0, kroot, 0).frame;
    forall k | 0 <= k < 512 && Ptr(Pdpte(mem0, kroot, k))
      ensures Pdpte(mem0, kroot, k).frame in kernel && IsTable(mem0, Pdpte(mem0, kroot, k).frame)
    {
      assert Follows(mem0, kernel, kpdpt, k);
    }
  }

  /** The k-th directory pointer below 512 GiB. */
  function Pdpte(mem: Memory, root: nat, k: nat): Entry { At(mem, At(mem, root, 0).frame, k) }

  lemma CloningStart(mem0: Memory, kroot: nat, kernel: Labels, used0: set<nat>, root: nat, pdpt: nat)
    requires KernelSpace(mem0, kroot, kernel, used0) && Ptr(At(mem0, kroot, 0))
    requires root !in used0 && pdpt !in used0 && root != pdpt
    ensures Cloning(mem0, kroot, kernel, used0, mem0[root := EmptyTable()][pdpt := EmptyTable()],
                    used0 + {root} + {pdpt},
                    root, pdpt, SharedTables(kernel), 0)
  {
    assert used0 + {root} + {pdpt} == used0 + {root, pdpt} + SharedTables(kernel).Keys;
  }

  lemma CloningFacts(mem0: Memory, kroot: nat, kernel: Labels, used0: set<nat>,
                     mem: Memory, used: set<nat>, root: nat, pdpt: nat, labels: Labels, n: nat)
    requires Cloning(mem0, kroot, kernel, used0, mem, used, root, pdpt, labels, n)
    ensures IsTable(mem, root) && IsTable(mem, pdpt) && root in used && pdpt in used && kroot in used0
    ensures At(mem, kroot, 0) == At(mem0, kroot, 0)
    ensures var e := At(mem, At(mem0, kroot, 0).frame, n);
            n < 512 && Ptr(e) ==> IsTable(mem, e.frame) && e.frame in used
  {
    hide Cloned, KernelSpace, SameTranslation;
    KernelFrame(mem0, kroot, kernel, used0, mem);
    KernelPdpt(mem0, kroot, kernel, used0);
    CloneBasics(mem, At(mem0, kroot, 0).frame, pdpt, kernel, labels, n);
    assert n < 512 ==> At(mem, At(mem0, kroot, 0).frame, n) == Pdpte(mem0, kroot, n);
  }

  /** One turn of the cloning loop: skip, copy a 1 GiB page, or copy a directory. */
  lemma CloningStep(mem0: Memory, kroot: nat, kernel: Labels, used0: set<nat>,
                    mem: Memory, used: set<nat>, root: nat, pdpt: nat, labels: Labels, n: nat,
                    pd: nat, mem': Memory, used': set<nat>, labels': Labels)
    requires Cloning(mem0, kroot, kernel, used0, mem, used, root, pdpt, labels, n) && n < 512
    requires var e := At(mem, At(mem0, kroot, 0).frame, n);
             if !e.present then mem' == mem && used' == used && labels' == labels
             else if e.size then IsTable(mem, pdpt) && mem' == WithEntry(mem, pdpt, n, e) && used' == used
               && labels' == labels
             else
               && pd !in used && used' == used + {pd} && e.frame in mem
               && IsTable(mem[pd := mem[e.frame]], pdpt)
               && mem' == WithEntry(mem[pd := mem[e.frame]], pdpt, n, TableEntryUser(pd))
               && labels' == labels[pd := N2(0, n)]
    ensures Cloning(mem0, kroot, kernel, used0, mem', used', root, pdpt, labels', n + 1)
  {
    hide Cloned, KernelSpace, SameTranslation;
    KernelFrame(mem0, kroot, kernel, used0, mem);
    KernelPdpt(mem0, kroot, kernel, used0);
    var kpdpt := At(mem0, kroot, 0).frame;
    assert forall k :: 0 <= k < 512 ==> At(mem, kpdpt, k) == Pdpte(mem0, kroot, k);
    hide At, Pdpte;
    assert used' == used0 + {root, pdpt} + labels'.Keys;
    CloneTurn(mem, kpdpt, pdpt, kernel, labels, n, pd, mem', labels');
  }

  lemma CloneTurn(mem: Memory, kpdpt: nat, pdpt: nat, kernel: Labels, labels: Labels, n: nat, pd: nat, mem': Memory,
                  labels': Labels)
    requires Cloned(mem, kpdpt, pdpt, kernel, labels, n) && n < 512 && kpdpt in kernel
    requires pdpt !in labels && pdpt !in kernel
    requires forall k :: 0 <= k < 512 && Ptr(At(mem, kpdpt, k)) ==> At(mem, kpdpt, k).frame in kernel
    requires var e := At(mem, kpdpt, n);
             if !e.present then mem' == mem && labels' == labels
             else if e.size then mem' == WithEntry(mem, pdpt, n, e) && labels' == labels
             else
               && pd !in kernel && pd !in labels && pd != pdpt && e.frame in mem
               && mem' == WithEntry(mem[pd := mem[e.frame]], pdpt, n, TableEntryUser(pd))
               && labels' == labels[pd := N2(0, n)]
    ensures Cloned(mem', kpdpt, pdpt, kernel, labels', n + 1)
  {
    hide Cloned;
    assert IsTable(mem, pdpt) by { CloneBasics(mem, kpdpt, pdpt, kernel, labels, n); }
    assert At(mem, pdpt, n) == EMPTY by { CloneBasics(mem, kpdpt, pdpt, kernel, labels, n); }
    CloneStep(mem, kpdpt, pdpt, kernel, labels, n, mem', labels');
  }

  lemma CloneBasics(mem: Memory, kpdpt: nat, pdpt: nat, kernel: Labels, labels: Labels, n: nat)
    requires Cloned(mem, kpdpt, pdpt, kernel, labels, n)
    ensures IsTable(mem, pdpt) && (n < 512 ==> At(mem, pdpt, n) == EMPTY)
  {
  }

  /** Writing the root leaves the clone as it is. */
  lemma CloneKept(mem: Memory, kpdpt: nat, pdpt: nat, kernel: Labels, labels: Labels, root: nat, e: Entry, mem': Memory)
    requires Cloned(mem, kpdpt, pdpt, kernel, labels, 512) && kpdpt in kernel
    requires root !in kernel && root !in labels && root != pdpt && IsTable(mem, root)
    requires mem' == WithEntry(mem, root, 0, e)
    requires forall k :: 0 <= k < 512 && Ptr(At(mem, kpdpt, k)) ==> At(mem, kpdpt, k).frame in kernel
    ensures Cloned(mem', kpdpt, pdpt, kernel, labels, 512)
  {
    assert forall k :: 0 <= k < 512 ==>
      At(mem', kpdpt, k) == At(mem, kpdpt, k) && At(mem', pdpt, k) == At(mem, pdpt, k);
    assert IsTable(mem', pdpt);
    CloneMoved(mem, kpdpt, pdpt, kernel, labels, root, mem');
  }

  lemma CloneMoved(mem: Memory, kpdpt: nat, pdpt: nat, kernel: Labels, labels: Labels, root: nat, mem': Memory)
    requires Cloned(mem, kpdpt, pdpt, kernel, labels, 512) && IsTable(mem', pdpt)
    requires forall k :: 0 <= k < 512 ==>
      At(mem', kpdpt, k) == At(mem, kpdpt, k) && At(mem', pdpt, k) == At(mem, pdpt, k)
    requires root !in kernel && root !in labels && forall f :: f in mem && f != root ==> f in mem' && mem'[f] == mem[f]
    requires forall k :: 0 <= k < 512 && Ptr(At(mem, kpdpt, k)) ==> At(mem, kpdpt, k).frame in kernel
    ensures Cloned(mem', kpdpt, pdpt, kernel, labels, 512)
  {
    hide At, IsTable;
    forall k | 0 <= k < 512 ensures CloneEntry(mem', labels, At(mem', kpdpt, k), At(mem', pdpt, k), k) {
      assert CloneEntry(mem, labels, At(mem, kpdpt, k), At(mem, pdpt, k), k);
    }
  }

  lemma CloningDone(mem0: Memory, kroot: nat, kernel: Labels, used0: set<nat>,
                    mem: Memory, used: set<nat>, root: nat, pdpt: nat, labels: Labels, mem': Memory, labels': Labels)
    requires Cloning(mem0, kroot, kernel, used0, mem, used, root, pdpt, labels, 512)
    requires IsTable(mem, root) && mem' == WithEntry(mem, root, 0, TableEntryUser(pdpt))
    requires labels' == labels[pdpt := N3(0)][root := N4]
    ensures CloneDone(mem', kroot, kernel, root, pdpt, labels, labels') && Agree(mem0, mem', used0)
  {
    hide Cloned, KernelShape, SameTranslation, IsTree;
    KernelFrame(mem0, kroot, kernel, used0, mem);
    KernelFrame(mem0, kroot, kernel, used0, mem');
    KernelPdpt(mem0, kroot, kernel, used0);
    var kpdpt := At(mem0, kroot, 0).frame;
    assert forall k :: 0 <= k < 512 ==> At(mem, kpdpt, k) == Pdpte(mem0, kroot, k);
    CloneKept(mem, kpdpt, pdpt, kernel, labels, root, TableEntryUser(pdpt), mem');
  }

  /** What a clone shares with the kernel. */
  lemma CloneSharing(mem0: Memory, mem: Memory, kroot: nat, kernel: Labels, root: nat, pdpt: nat, labels: Labels,
                     labels': Labels)
    requires CloneDone(mem, kroot, kernel, root, pdpt, labels, labels')
    requires forall f, i :: f in kernel && 0 <= i < 512 ==> At(mem, f, i) == At(mem0, f, i)
    ensures labels'.Keys * kernel.Keys == SharedTables(kernel).Keys
    ensures NoGiants(mem0, kernel) ==> NoGiants(mem, labels')
  {
    hide At;
    if NoGiants(mem0, kernel) {
      forall f, k | f in labels' && labels'[f].N3? && 0 <= k < 512 ensures !At(mem, f, k).size {
        if !Ptr(At(mem, pdpt, k)) {
          CloneLeaf(mem, kroot, kernel, root, pdpt, labels, labels', k);
          WalkFollows(mem, kroot, kernel, Va(0, k, 0, 0));
          ClonePointer(mem, kroot, kernel, root, pdpt, labels, labels');
        }
      }
    }
  }

  lemma ClonePointer(mem: Memory, kroot: nat, kernel: Labels, root: nat, pdpt: nat, labels: Labels, labels': Labels)
    requires CloneDone(mem, kroot, kernel, root, pdpt, labels, labels')
    ensures Ptr(At(mem, kroot, 0))
  {
  }

  /** The finished loop, and the write of entry 0, make a task's address space. */
  lemma CloningEnd(mem0: Memory, kroot: nat, kernel: Labels, used0: set<nat>,
                   mem: Memory, used: set<nat>, root: nat, pdpt: nat, labels: Labels, mem': Memory, labels': Labels)
    requires Cloning(mem0, kroot, kernel, used0, mem, used, root, pdpt, labels, 512)
    requires IsTable(mem, root) && mem' == WithEntry(mem, root, 0, TableEntryUser(pdpt))
    requires labels' == labels[pdpt := N3(0)][root := N4]
    ensures UserSpace(mem', root, labels', kernel, used)
    ensures used == used0 + labels'.Keys && labels'.Keys - kernel.Keys !! used0 && Agree(mem0, mem', used0)
    ensures labels'.Keys * kernel.Keys == SharedTables(kernel).Keys
    ensures NoGiants(mem0, kernel) ==> NoGiants(mem', labels')
    ensures forall v :: Canonical(v) ==> Walk(mem', root, v) == KernelView(mem0, kroot, v)
    ensures Mirrors(mem0, kroot, mem', root)
  {
    hide CloneDone, Cloned, KernelShape, Walk, UserShape, IsTree, TaskPde;
    CloningDone(mem0, kroot, kernel, used0, mem, used, root, pdpt, labels, mem', labels');
    KernelFrame(mem0, kroot, kernel, used0, mem');
    CloneSharing(mem0, mem', kroot, kernel, root, pdpt, labels, labels');
    CloneTree(mem', kroot, kernel, root, pdpt, labels, labels');
    KernelPath0(mem0, mem', kroot, kernel, used0);
    forall v | Canonical(v) && v.i4 == 0 && HasPd(mem0, kroot, v)
      ensures HasPd(mem', root, v) && TaskPde(Pde(mem0, kroot, v), Pde(mem', root, v))
    {
      CloneMirrors(mem', kroot, kernel, root, pdpt, labels, labels', v);
    }
    forall v | Canonical(v) ensures Walk(mem', root, v) == KernelView(mem0, kroot, v) {
      CloneWalk(mem', kroot, kernel, root, pdpt, labels, labels', v);
    }
  }

  /** Equal kernel tables give equal directory entries. */
  lemma KernelPath0(mem0: Memory, mem: Memory, kroot: nat, kernel: Labels, used: set<nat>)
    requires KernelSpace(mem0, kroot, kernel, used)
    requires forall f, i :: f in kernel && !kernel[f].N1? && 0 <= i < 512 ==> At(mem, f, i) == At(mem0, f, i)
    ensures forall v :: Canonical(v) ==>
      HasPd(mem, kroot, v) == HasPd(mem0, kroot, v)
        && (HasPd(mem0, kroot, v) ==> Pde(mem, kroot, v) == Pde(mem0, kroot, v))
  {
    forall v | Canonical(v)
      ensures HasPd(mem, kroot, v) == HasPd(mem0, kroot, v)
      ensures (HasPd(mem0, kroot, v) ==> Pde(mem, kroot, v) == Pde(mem0, kroot, v))
    {
      WalkFollows(mem0, kroot, kernel, v);
    }
  }

  // ---- Mapping one user page ----

  lemma UserRoot(mem: Memory, root: nat, labels: Labels, kernel: Labels)
    requires IsTree(mem, root, labels) && UserShape(mem, labels, kernel)
    ensures NoGiantRoot(mem, root) && root !in kernel
  {
    forall i | 0 <= i < 512 ensures !At(mem, root, i).size {
      assert UserEntry(kernel, labels[root], At(mem, root, i));
    }
  }

  /** The page directory for v belongs to the task. */
  lemma OwnDirectory(mem: Memory, root: nat, labels: Labels, kernel: Labels, v: Va)
    requires IsTree(mem, root, labels) && UserShape(mem, labels, kernel) && HasPd(mem, root, v) && Canonical(v)
    ensures var e4 := At(mem, root, v.i4);
            var e3 := At(mem, e4.frame, v.i3);
            && e4 == TableEntryUser(e4.frame) && e4.frame in labels && labels[e4.frame] == N3(v.i4)
            && e4.frame !in kernel
            && e3 == TableEntryUser(e3.frame) && e3.frame in labels && labels[e3.frame] == N2(v.i4, v.i3)
            && e3.frame !in kernel
            && UserEntry(kernel, N2(v.i4, v.i3), Pde(mem, root, v))
  {
    WalkFollows(mem, root, labels, v);
    var e4 := At(mem, root, v.i4);
    assert UserEntry(kernel, labels[root], e4);
    var e3 := At(mem, e4.frame, v.i3);
    assert UserEntry(kernel, labels[e4.frame], e3);
    assert UserEntry(kernel, labels[e3.frame], At(mem, e3.frame, v.i2));
  }

  /** The page directories stay, and a directory entry changes only when a 2 MiB page is split. */
  ghost predicate Repointed(mem: Memory, mem': Memory, root: nat) {
    forall u :: Canonical(u) && HasPd(mem, root, u) ==>
      && HasPd(mem', root, u)
      && var e, e' := Pde(mem, root, u), Pde(mem', root, u);
         e' == e || (Large(e) && e' == TableEntryUser(e'.frame))
  }

  lemma MirrorsRepointed(mem0: Memory, kroot: nat, mem: Memory, mem': Memory, root: nat)
    requires Mirrors(mem0, kroot, mem, root) && Repointed(mem, mem', root)
    ensures Mirrors(mem0, kroot, mem', root)
  {
    hide HasPd, Pde;
  }

  lemma RepointedTwice(mem: Memory, mem': Memory, mem'': Memory, root: nat)
    requires Repointed(mem, mem', root) && Repointed(mem', mem'', root)
    ensures Repointed(mem, mem'', root)
  {
    hide HasPd, Pde;
  }

  /** map_user_page splits a 2 MiB page: nothing changes for any address. */
  lemma SplitUser(mem: Memory, root: nat, labels: Labels, kernel: Labels, used: set<nat>, v: Va, c: nat,
                  mem': Memory, labels': Labels)
    requires UserSpace(mem, root, labels, kernel, used) && kernel.Keys <= used && c !in used && Canonical(v)
    requires Leafy(mem, root, v)
    requires var pd := At(mem, At(mem, root, v.i4).frame, v.i3).frame;
             && IsTable(mem, pd)
             && mem' == WithEntry(mem, pd, v.i2, TableEntryUser(c))[c := SplitPage(Base2M(Pde(mem, root, v)))]
    requires labels' == labels[c := AtNode(v)]
    ensures UserSpace(mem', root, labels', kernel, used + {c}) && SameTranslation(mem, mem', root)
    ensures HasPd(mem', root, v) && Pde(mem', root, v) == TableEntryUser(c) && Repointed(mem, mem', root)
    ensures Agree(mem, mem', used - (labels.Keys - kernel.Keys))
    ensures NoGiants(mem, labels) ==> NoGiants(mem', labels')
  {
    UserRoot(mem, root, labels, kernel);
    OwnDirectory(mem, root, labels, kernel, v);
    var pd := At(mem, At(mem, root, v.i4).frame, v.i3).frame;
    var p := SplitPage(Base2M(Pde(mem, root, v)));
    assert Linked(mem, labels, pd, v.i2, c, p, TableEntryUser(c), mem', labels');
    LinkSplit(mem, root, labels, pd, v.i2, c, TableEntryUser(c), mem', labels');
    SplitUserShape(mem, labels, kernel, pd, v.i2, c, p, mem', labels');
    SplitPaths(mem, root, labels, pd, v, c, p, mem', labels');
  }

  lemma SplitUserShape(mem: Memory, labels: Labels, kernel: Labels, g: nat, i: nat, c: nat, p: Page, mem': Memory,
                       labels': Labels)
    requires UserShape(mem, labels, kernel) && Linked(mem, labels, g, i, c, p, TableEntryUser(c), mem', labels')
    requires labels[g].N2? && c !in kernel && g !in kernel
    ensures UserShape(mem', labels', kernel)
    ensures NoGiants(mem, labels) ==> NoGiants(mem', labels')
  {
    assert forall f, k :: f in labels && labels[f].N3? && 0 <= k < 512 ==> At(mem', f, k) == At(mem, f, k);
    forall f, k | f in labels' && f !in kernel && 0 <= k < 512 ensures UserEntry(kernel, labels'[f], At(mem', f, k)) {
      if f != c {
        assert UserEntry(kernel, labels[f], At(mem, f, k));
      }
    }
  }

  lemma SplitPaths(mem: Memory, root: nat, labels: Labels, pd: nat, v: Va, c: nat, p: Page, mem': Memory,
                   labels': Labels)
    requires IsTree(mem, root, labels) && Canonical(v) && HasPd(mem, root, v) && Large(Pde(mem, root, v))
    requires pd in labels && labels[pd] == N2(v.i4, v.i3) && pd == At(mem, At(mem, root, v.i4).frame, v.i3).frame
    requires Linked(mem, labels, pd, v.i2, c, p, TableEntryUser(c), mem', labels')
    ensures HasPd(mem', root, v) && Pde(mem', root, v) == TableEntryUser(c) && Repointed(mem, mem', root)
  {
    forall u | Canonical(u) && HasPd(mem, root, u)
      ensures HasPd(mem', root, u) && Pde(mem', root, u) == if AtNode(u) == AtNode(v) then TableEntryUser(c)
        else Pde(mem, root, u)
    {
      LinkPath(mem, root, labels, pd, v.i2, c, p, TableEntryUser(c), mem', labels', u);
    }
    hide HasPd, Pde;
    forall u | Canonical(u) && HasPd(mem, root, u) && AtNode(u) == AtNode(v)
      ensures Pde(mem, root, u) == Pde(mem, root, v)
    {
      SamePde(mem, root, u, v);
    }
  }

  lemma SamePde(mem: Memory, root: nat, u: Va, v: Va)
    requires AtNode(u) == AtNode(v)
    ensures HasPd(mem, root, u) == HasPd(mem, root, v) && Pde(mem, root, u) == Pde(mem, root, v)
    ensures Leafy(mem, root, u) == Leafy(mem, root, v) && Tabled(mem, root, u) == Tabled(mem, root, v)
  {
  }

  /** pt is the last-level table for v: the task's own, or the kernel's, which the task's directory
      names without the user bit. */
  ghost predicate TaskTable(mem: Memory, root: nat, labels: Labels, kernel: Labels, v: Va, pt: nat) {
    && pt in labels && labels[pt] == AtNode(v) && IsTable(mem, pt) && HasPd(mem, root, v)
    && Pde(mem, root, v) == if pt in kernel then TableEntry(pt) else TableEntryUser(pt)
  }

  /** What map_user_page finds on its way down. */
  lemma LowTables(mem: Memory, root: nat, labels: Labels, kernel: Labels, used: set<nat>, v: Va)
    requires UserSpace(mem, root, labels, kernel, used) && Canonical(v) && HasPd(mem, root, v)
    requires Pde(mem, root, v).present
    ensures var pd := At(mem, At(mem, root, v.i4).frame, v.i3).frame; IsTable(mem, pd) && pd in labels && pd in used
    ensures var e := Pde(mem, root, v); if e.size then Large(e) else TaskTable(mem, root, labels, kernel, v, e.frame)
  {
    OwnDirectory(mem, root, labels, kernel, v);
    WalkFollows(mem, root, labels, v);
  }

  /** The rights of a page in a last-level table that the task shares with the kernel, or owns. */
  function Granted(leaf: Entry, own: bool): Mapping {
    Mapped(leaf.frame, own && leaf.user, leaf.write, leaf.nx, leaf.pcd)
  }

  /** Writing an entry of that table maps the page for the task, and no other. */
  lemma SetUserLeaf(mem: Memory, root: nat, labels: Labels, kernel: Labels, used: set<nat>, v: Va, leaf: Entry,
                    pt: nat, mem': Memory)
    requires UserSpace(mem, root, labels, kernel, used) && Canonical(v) && leaf.present
    requires TaskTable(mem, root, labels, kernel, v, pt) && mem' == WithEntry(mem, pt, v.i1, leaf)
    ensures UserSpace(mem', root, labels, kernel, used) && Repointed(mem, mem', root)
    ensures forall u :: Canonical(u) ==>
      Walk(mem', root, u) == if u == v then Granted(leaf, pt !in kernel) else Walk(mem, root, u)
    ensures NoGiants(mem, labels) ==> NoGiants(mem', labels)
  {
    UserRoot(mem, root, labels, kernel);
    OwnDirectory(mem, root, labels, kernel, v);
    SetLeafTree(mem, root, labels, pt, v.i1, leaf, mem');
    SetUserShape(mem, root, labels, kernel, v, leaf, pt, mem');
    forall u | Canonical(u)
      ensures Walk(mem', root, u) == if u == v then Granted(leaf, pt !in kernel) else Walk(mem, root, u)
    {
      SetLeafWalk(mem, root, labels, pt, v.i1, leaf, mem', u);
    }
  }

  lemma SetUserShape(mem: Memory, root: nat, labels: Labels, kernel: Labels, v: Va, leaf: Entry, pt: nat, mem': Memory)
    requires IsTree(mem, root, labels) && UserShape(mem, labels, kernel)
    requires Canonical(v) && pt in labels && labels[pt].N1? && IsTable(mem, pt)
    requires mem' == WithEntry(mem, pt, v.i1, leaf)
    ensures UserShape(mem', labels, kernel) && Repointed(mem, mem', root)
    ensures NoGiants(mem, labels) ==> NoGiants(mem', labels)
  {
    assert forall f, k :: f in labels && !labels[f].N1? && 0 <= k < 512 ==> At(mem', f, k) == At(mem, f, k);
    forall f, k | f in labels && f !in kernel && 0 <= k < 512 ensures UserEntry(kernel, labels[f], At(mem', f, k)) {
      assert UserEntry(kernel, labels[f], At(mem, f, k));
    }
    SamePaths(mem, root, labels, mem');
  }

  /** Equal upper tables give equal directory entries. */
  lemma SamePaths(mem: Memory, root: nat, labels: Labels, mem': Memory)
    requires IsTree(mem, root, labels)
    requires forall f, k :: f in labels && !labels[f].N1? && 0 <= k < 512 ==> At(mem', f, k) == At(mem, f, k)
    ensures Repointed(mem, mem', root)
  {
    hide At;
    forall u | Canonical(u) && HasPd(mem, root, u)
      ensures HasPd(mem', root, u) && Pde(mem', root, u) == Pde(mem, root, u)
    {
      WalkFollows(mem, root, labels, u);
    }
  }

  lemma SameTranslationSelf(mem: Memory, root: nat)
    ensures SameTranslation(mem, mem, root) && Repointed(mem, mem, root)
  {
  }

  // ---- The pages of a task ----

  /** A request for one page: its address and the rights of its segment. */
  datatype Request = Request(vaddr: nat, write: bool, exec: bool)

  /** A page of a task: the request and the frame that serves it. */
  datatype UserPage = UserPage(req: Request, frame: nat)

  /** A loadable segment, as create_user_page_tables receives it. */
  datatype Segment = Segment(vaddr: nat, offset: nat, filesz: nat, memsz: nat, flags: nat)

  function PagesFrom(addr: nat, end: nat, write: bool, exec: bool): seq<Request>
    decreases end - addr
  {
    if addr >= end then [] else [Request(addr, write, exec)] + PagesFrom(addr + 4096, end, write, exec)
  }

  lemma MovedOver(done: seq<Request>, r: Request, more: seq<Request>)
    ensures done + [r] + more == done + ([r] + more)
  {
  }

  lemma PagesFromStep(addr: nat, end: nat, write: bool, exec: bool)
    ensures PagesFrom(addr, end, write, exec)
         == if addr >= end then [] else [Request(addr, write, exec)] + PagesFrom(addr + 4096, end, write, exec)
  {
  }

  function SegmentPages(s: Segment): seq<Request> {
    if s.memsz == 0 then []
    else PagesFrom(s.vaddr - s.vaddr % 4096, s.vaddr + s.memsz, (s.flags / 2) % 2 == 1, s.flags % 2 == 1)
  }

  function Wanted(segments: seq<Segment>): seq<Request> {
    if segments == [] then []
    else Wanted(segments[..|segments| - 1]) + SegmentPages(segments[|segments| - 1])
  }

  const STACK := Request(STACK_VA, true, false)

  function Requests(pages: seq<UserPage>): seq<Request> {
    seq(|pages|, k requires 0 <= k < |pages| => pages[k].req)
  }

  function DataFrames(pages: seq<UserPage>): set<nat> {
    set p | p in pages :: p.frame
  }

  /** The code can map a page at v: the kernel has a page directory there, and an entry in it. */
  predicate Reaches(mem: Memory, kroot: nat, v: Va) { v.i4 == 0 && HasPd(mem, kroot, v) && Pde(mem, kroot, v).present }

  /** The page p as its address reads it: closed to users where the kernel has a table of its own. */
  function Given(mem: Memory, kroot: nat, p: UserPage): Mapping {
    Mapped(p.frame, !Tabled(mem, kroot, Indices(p.req.vaddr)), p.req.write, !p.req.exec, false)
  }

  /** The translation a task gets: its own pages, the last one given for an address first, and the
      kernel's view everywhere else. */
  function Expect(mem: Memory, kroot: nat, pages: seq<UserPage>, v: Va): Mapping {
    if pages == [] then KernelView(mem, kroot, v)
    else if Indices(pages[|pages| - 1].req.vaddr) == v then Given(mem, kroot, pages[|pages| - 1])
    else Expect(mem, kroot, pages[..|pages| - 1], v)
  }

  /** The translation the kernel is left with: a page in a last-level table of its own is the task's. */
  function KernelExpect(mem: Memory, kroot: nat, pages: seq<UserPage>, v: Va): Mapping {
    if v.i4 == 0 && Tabled(mem, kroot, v) then Expect(mem, kroot, pages, v) else Walk(mem, kroot, v)
  }

  /** The kernel's own pages are closed to users. */
  lemma KernelNoUser(mem: Memory, kroot: nat, kernel: Labels, used: set<nat>, v: Va)
    requires KernelSpace(mem, kroot, kernel, used) && Canonical(v)
    ensures var m := Walk(mem, kroot, v); m.Mapped? ==> !m.user
  {
    hide Walk3, At;
    assert kroot in kernel && KernelEntry(kernel[kroot], At(mem, kroot, v.i4));
  }

  /** Users reach no frame outside `data`, and nothing from 512 GiB on. */
  ghost predicate UserReach(mem: Memory, root: nat, data: set<nat>) {
    forall v :: Canonical(v) ==>
      var m := Walk(mem, root, v); m.Mapped? && m.user ==> m.frame in data && v.i4 == 0
  }

  /** A task's user pages are the ones it was given. */
  lemma {:induction false} ExpectUser(mem: Memory, kroot: nat, kernel: Labels, used: set<nat>,
                                      pages: seq<UserPage>, v: Va)
    requires KernelSpace(mem, kroot, kernel, used) && Canonical(v)
    ensures var m := Expect(mem, kroot, pages, v);
            m.Mapped? && m.user ==>
              m.frame in DataFrames(pages) && exists p :: p in pages && Indices(p.req.vaddr) == v
  {
    hide Walk, KernelSpace;
    if pages == [] {
      KernelNoUser(mem, kroot, kernel, used, v);
    } else {
      ExpectUser(mem, kroot, kernel, used, pages[..|pages| - 1], v);
      assert pages[|pages| - 1] in pages;
      assert DataFrames(pages[..|pages| - 1]) <= DataFrames(pages);
    }
  }

  /** None of the pages falls into a last-level table of the kernel. */
  predicate OffTables(mem: Memory, kroot: nat, pages: seq<UserPage>) {
    forall k :: 0 <= k < |pages| ==> !Tabled(mem, kroot, Indices(pages[k].req.vaddr))
  }

  /** A task's address space with some of its pages mapped, starting from mem0 and used0. */
  ghost predicate Building(mem0: Memory, kroot: nat, kernel: Labels, used0: set<nat>,
                           mem: Memory, used: set<nat>, root: nat, labels: Labels, pages: seq<UserPage>)
  {
    && UserSpace(mem, root, labels, kernel, used) && KernelSpace(mem, kroot, kernel, used)
    && Agree(mem0, mem, used0 - SharedTables(kernel).Keys)
    && (OffTables(mem0, kroot, pages) ==> Agree(mem0, mem, used0))
    && Owned(kernel, used0, used, labels, pages) && ZeroPages(mem, pages)
    && (NoGiants(mem0, kernel) ==> NoGiants(mem, labels) && NoGiants(mem, kernel))
    && Mirrors(mem0, kroot, mem, root)
    && (forall v :: Canonical(v) ==> Walk(mem, root, v) == Expect(mem0, kroot, pages, v))
    && (forall v :: Canonical(v) ==> Walk(mem, kroot, v) == KernelExpect(mem0, kroot, pages, v))
  }

  /** The frames taken for a task: its tables and its pages, each once, none in use before. */
  ghost predicate Owned(kernel: Labels, used0: set<nat>, used: set<nat>, labels: Labels, pages: seq<UserPage>) {
    && kernel.Keys <= used0 && used == used0 + labels.Keys + DataFrames(pages)
    && labels.Keys - kernel.Keys !! used0
    && labels.Keys * kernel.Keys == SharedTables(kernel).Keys
    && DataFrames(pages) !! used0 + labels.Keys
    && (forall a, b :: 0 <= a < b < |pages| ==> pages[a].frame != pages[b].frame)
  }

  ghost predicate ZeroPages(mem: Memory, pages: seq<UserPage>) {
    forall k :: 0 <= k < |pages| ==> pages[k].frame in mem && mem[pages[k].frame] == Data(Zeros(4096))
  }

  /** An address space depends on its own tables only. */
  lemma UserFrame(mem: Memory, root: nat, labels: Labels, kernel: Labels, used: set<nat>, mem': Memory, used': set<nat>)
    requires UserSpace(mem, root, labels, kernel, used) && Agree(mem, mem', labels.Keys) && used <= used'
    ensures UserSpace(mem', root, labels, kernel, used') && SameTranslation(mem, mem', root)
    ensures Repointed(mem, mem', root)
    ensures NoGiants(mem, labels) ==> NoGiants(mem', labels)
  {
    TreeAgrees(mem, mem', root, labels);
    UserRoot(mem, root, labels, kernel);
    forall f, i | f in labels && 0 <= i < 512 ensures At(mem', f, i) == At(mem, f, i) {
      assert IsTable(mem, f);
    }
    SamePaths(mem, root, labels, mem');
    forall v | Canonical(v) ensures Walk(mem', root, v) == Walk(mem, root, v) {
      WalkAgrees(mem, mem', root, labels, v);
    }
  }

  /** What users reach is the same. */
  ghost predicate SameUser(mem: Memory, mem': Memory, root: nat) {
    forall v :: Canonical(v) ==>
      var m, m' := Walk(mem, root, v), Walk(mem', root, v);
      (m.Mapped? && m.user) || (m'.Mapped? && m'.user) ==> m' == m
  }

  /** What users reach depends on a task's own tables only, not on those it shares with the kernel. */
  lemma UserFrameShared(mem: Memory, root: nat, labels: Labels, kernel: Labels, used: set<nat>, mem': Memory,
                        used': set<nat>)
    requires UserSpace(mem, root, labels, kernel, used) && used <= used'
    requires Agree(mem, mem', labels.Keys - kernel.Keys)
    requires forall f :: f in labels && f in kernel ==> IsTable(mem', f)
    ensures UserSpace(mem', root, labels, kernel, used') && SameUser(mem, mem', root)
    ensures NoGiants(mem, labels) ==> NoGiants(mem', labels)
  {
    forall f, i | f in labels && f !in kernel && 0 <= i < 512 ensures At(mem', f, i) == At(mem, f, i) {
      assert IsTable(mem, f);
    }
    OwnTree(mem, root, labels, kernel, mem');
    hide Find;
    forall v | Canonical(v)
      ensures var m, m' := Walk(mem, root, v), Walk(mem', root, v);
              (m.Mapped? && m.user) || (m'.Mapped? && m'.user) ==> m' == m
    {
      OwnWalk(mem, root, labels, kernel, mem', v);
    }
  }

  lemma OwnTree(mem: Memory, root: nat, labels: Labels, kernel: Labels, mem': Memory)
    requires IsTree(mem, root, labels) && UserShape(mem, labels, kernel)
    requires forall f, i :: f in labels && f !in kernel && 0 <= i < 512 ==> At(mem', f, i) == At(mem, f, i)
    requires Agree(mem, mem', labels.Keys - kernel.Keys)
    requires forall f :: f in labels && f in kernel ==> IsTable(mem', f)
    ensures IsTree(mem', root, labels)
  {
    forall f, i | f in labels && 0 <= i < 512 ensures Follows(mem', labels, f, i) {
      assert Follows(mem, labels, f, i);
    }
    forall f | f in labels ensures Find(mem', root, labels[f]) == Some(f) {
      OwnFind(mem, root, labels, kernel, mem', f);
    }
  }

  lemma OwnFind(mem: Memory, root: nat, labels: Labels, kernel: Labels, mem': Memory, f: nat)
    requires IsTree(mem, root, labels) && UserShape(mem, labels, kernel) && f in labels
    requires forall g, i :: g in labels && g !in kernel && 0 <= i < 512 ==> At(mem', g, i) == At(mem, g, i)
    ensures Find(mem', root, labels[f]) == Some(f)
  {
    UserRoot(mem, root, labels, kernel);
    assert Find(mem, root, labels[f]) == Some(f);
    match labels[f]
    case N4 =>
    case N3(i4) =>
    case N2(i4, i3) => WalkFollows(mem, root, labels, Va(i4, i3, 0, 0));
    case N1(i4, i3, i2) => WalkFollows(mem, root, labels, Va(i4, i3, i2, 0));
  }

  lemma OwnWalk(mem: Memory, root: nat, labels: Labels, kernel: Labels, mem': Memory, v: Va)
    requires IsTree(mem, root, labels) && UserShape(mem, labels, kernel) && Canonical(v)
    requires forall f, i :: f in labels && f !in kernel && 0 <= i < 512 ==> At(mem', f, i) == At(mem, f, i)
    ensures var m, m' := Walk(mem, root, v), Walk(mem', root, v);
            (m.Mapped? && m.user) || (m'.Mapped? && m'.user) ==> m' == m
  {
    hide At, Find;
    UserRoot(mem, root, labels, kernel);
    WalkFollows(mem, root, labels, v);
    var e4 := At(mem, root, v.i4);
    assert UserEntry(kernel, labels[root], e4);
    if Ptr(e4) {
      var e3 := At(mem, e4.frame, v.i3);
      assert UserEntry(kernel, labels[e4.frame], e3);
      if Ptr(e3) {
        var e2 := At(mem, e3.frame, v.i2);
        assert UserEntry(kernel, labels[e3.frame], e2);
      }
    }
  }

  /** The page's table is the kernel's exactly where the kernel had one. */
  lemma TableKind(mem0: Memory, kroot: nat, kernel: Labels, used0: set<nat>, mem: Memory, root: nat, labels: Labels,
                  v: Va, pt: nat)
    requires KernelSpace(mem0, kroot, kernel, used0) && Mirrors(mem0, kroot, mem, root) && Canonical(v)
    requires Reaches(mem0, kroot, v) && TaskTable(mem, root, labels, kernel, v, pt)
    ensures (pt in kernel <==> Tabled(mem0, kroot, v)) && v.i4 == 0
  {
    assert TaskPde(Pde(mem0, kroot, v), Pde(mem, root, v));
    WalkFollows(mem0, kroot, kernel, v);
    var kpd := At(mem0, At(mem0, kroot, 0).frame, v.i3).frame;
    assert KernelEntry(kernel[kpd], At(mem0, kpd, v.i2));
  }

  /** One more page: a fresh zeroed frame, the table for its address, and the leaf that maps it. */
  lemma BuildStep(mem0: Memory, kroot: nat, kernel: Labels, used0: set<nat>,
                  mem: Memory, used: set<nat>, root: nat, labels: Labels, pages: seq<UserPage>,
                  p: UserPage, memA: Memory, memB: Memory, labels': Labels, used': set<nat>, pt: nat, mem': Memory)
    requires KernelSpace(mem0, kroot, kernel, used0)
    requires Building(mem0, kroot, kernel, used0, mem, used, root, labels, pages)
    requires Reaches(mem0, kroot, Indices(p.req.vaddr))
    requires p.frame !in used && memA == mem[p.frame := Data(Zeros(4096))]
    requires UserSpace(memB, root, labels', kernel, used') && SameTranslation(memA, memB, root)
    requires Repointed(memA, memB, root)
    requires labels.Keys <= labels'.Keys && labels'.Keys - labels.Keys !! used + {p.frame}
    requires used' == used + {p.frame} + labels'.Keys
    requires NoGiants(memA, labels) ==> NoGiants(memB, labels')
    requires Agree(memA, memB, used + {p.frame} - (labels.Keys - kernel.Keys))
    requires TaskTable(memB, root, labels', kernel, Indices(p.req.vaddr), pt)
    requires mem' == WithEntry(memB, pt, Indices(p.req.vaddr).i1, Page4K(p.frame, p.req.write, true, p.req.exec))
    ensures Building(mem0, kroot, kernel, used0, mem', used', root, labels', pages + [p])
  {
    hide Walk, UserShape, KernelShape, IsTree, Expect, KernelExpect, NoGiants, Mirrors, Repointed, Reaches, TaskTable,
      Tabled;
    var v := Indices(p.req.vaddr);
    UserFrame(mem, root, labels, kernel, used, memA, used + {p.frame});
    RepointedTwice(mem, memA, memB, root);
    MirrorsRepointed(mem0, kroot, mem, memB, root);
    TableKind(mem0, kroot, kernel, used0, memB, root, labels', v, pt);
    TableFacts(memB, root, labels', kernel, v, pt);
    StepOwned(kernel, used0, used, labels, pages, p, labels', used');
    StepMemory(mem0, mem, kroot, kernel, used0, used, labels, pages, p, memA, memB, labels', used', v, pt, mem');
    StepTask(mem0, kroot, kernel, mem, memA, memB, used', root, labels', pages, p, pt, mem');
    StepKernel(mem0, kroot, kernel, used0, mem, used, root, labels', pages, p, memA, memB, used', pt, mem');
  }

  lemma TableFacts(mem: Memory, root: nat, labels: Labels, kernel: Labels, v: Va, pt: nat)
    requires TaskTable(mem, root, labels, kernel, v, pt) && UserShape(mem, labels, kernel)
    ensures pt in labels && labels[pt] == AtNode(v) && IsTable(mem, pt) && (pt in kernel ==> kernel[pt] == labels[pt])
  {
  }

  /** The step as the task sees it. */
  lemma StepTask(mem0: Memory, kroot: nat, kernel: Labels, mem: Memory, memA: Memory, memB: Memory, used': set<nat>,
                 root: nat, labels': Labels, pages: seq<UserPage>, p: UserPage, pt: nat, mem': Memory)
    requires forall u :: Canonical(u) ==> Walk(mem, root, u) == Expect(mem0, kroot, pages, u)
    requires SameTranslation(mem, memA, root) && SameTranslation(memA, memB, root) && Mirrors(mem0, kroot, memB, root)
    requires UserSpace(memB, root, labels', kernel, used')
    requires TaskTable(memB, root, labels', kernel, Indices(p.req.vaddr), pt)
    requires IsTable(memB, pt)
    requires mem' == WithEntry(memB, pt, Indices(p.req.vaddr).i1, Page4K(p.frame, p.req.write, true, p.req.exec))
    requires pt in kernel <==> Tabled(mem0, kroot, Indices(p.req.vaddr))
    ensures UserSpace(mem', root, labels', kernel, used') && Mirrors(mem0, kroot, mem', root)
    ensures forall u :: Canonical(u) ==> Walk(mem', root, u) == Expect(mem0, kroot, pages + [p], u)
    ensures NoGiants(memB, labels') ==> NoGiants(mem', labels')
  {
    hide Walk, UserSpace, Expect, NoGiants, Mirrors, Repointed, TaskTable, Tabled;
    var v := Indices(p.req.vaddr);
    var leaf := Page4K(p.frame, p.req.write, true, p.req.exec);
    SetUserLeaf(memB, root, labels', kernel, used', v, leaf, pt, mem');
    MirrorsRepointed(mem0, kroot, memB, mem', root);
    forall u | Canonical(u) ensures Walk(mem', root, u) == Expect(mem0, kroot, pages + [p], u) {
      ExpectSnoc(mem0, kroot, pages, p, u);
      assert Walk(memB, root, u) == Walk(memA, root, u) == Walk(mem, root, u);
    }
  }

  /** The step as the kernel sees it: nothing, unless the page's table is the kernel's. */
  lemma StepKernel(mem0: Memory, kroot: nat, kernel: Labels, used0: set<nat>, mem: Memory, used: set<nat>, root: nat,
                   labels': Labels, pages: seq<UserPage>, p: UserPage, memA: Memory, memB: Memory, used': set<nat>,
                   pt: nat, mem': Memory)
    requires KernelSpace(mem, kroot, kernel, used) && used <= used'
    requires forall u :: Canonical(u) ==> Walk(mem, kroot, u) == KernelExpect(mem0, kroot, pages, u)
    requires Agree(mem, memB, kernel.Keys) && Indices(p.req.vaddr).i4 == 0
    requires pt in labels' && labels'[pt] == AtNode(Indices(p.req.vaddr))
    requires (pt in kernel ==> kernel[pt] == labels'[pt])
    requires IsTable(memB, pt)
    requires mem' == WithEntry(memB, pt, Indices(p.req.vaddr).i1, Page4K(p.frame, p.req.write, true, p.req.exec))
    requires pt in kernel <==> Tabled(mem0, kroot, Indices(p.req.vaddr))
    ensures KernelSpace(mem', kroot, kernel, used')
    ensures forall u :: Canonical(u) ==> Walk(mem', kroot, u) == KernelExpect(mem0, kroot, pages + [p], u)
    ensures NoGiants(mem, kernel) ==> NoGiants(mem', kernel)
  {
    hide Walk, IsTree, KernelShape, Expect, KernelExpect, Tabled;
    var v := Indices(p.req.vaddr);
    var leaf := Page4K(p.frame, p.req.write, true, p.req.exec);
    KernelFrame(mem, kroot, kernel, kernel.Keys, memB);
    GiantsKept(mem, kernel, memB);
    if pt in kernel {
      SetKernelLeaf(memB, kroot, kernel, pt, v, leaf, mem');
    } else {
      KernelFrame(memB, kroot, kernel, kernel.Keys, mem');
      GiantsKept(memB, kernel, mem');
    }
    forall u | Canonical(u) ensures Walk(mem', kroot, u) == KernelExpect(mem0, kroot, pages + [p], u) {
      KernelExpectSnoc(mem0, kroot, pages, p, u);
      assert Walk(memB, kroot, u) == Walk(mem, kroot, u);
    }
  }

  lemma GiantsKept(mem0: Memory, kernel: Labels, mem: Memory)
    requires forall f, i :: f in kernel && 0 <= i < 512 ==> At(mem, f, i) == At(mem0, f, i)
    ensures NoGiants(mem0, kernel) ==> NoGiants(mem, kernel)
    ensures Closed(mem0, kernel) ==> Closed(mem, kernel)
  {
    hide At;
  }

  lemma KernelExpectSnoc(mem: Memory, kroot: nat, pages: seq<UserPage>, p: UserPage, u: Va)
    requires Indices(p.req.vaddr).i4 == 0
    ensures KernelExpect(mem, kroot, pages + [p], u)
         == if Tabled(mem, kroot, Indices(p.req.vaddr)) && u == Indices(p.req.vaddr) then Given(mem, kroot, p)
            else KernelExpect(mem, kroot, pages, u)
  {
    hide Walk, Tabled;
    ExpectSnoc(mem, kroot, pages, p, u);
  }

  lemma ExpectSnoc(mem: Memory, kroot: nat, pages: seq<UserPage>, p: UserPage, v: Va)
    ensures Expect(mem, kroot, pages + [p], v)
         == if Indices(p.req.vaddr) == v then Given(mem, kroot, p) else Expect(mem, kroot, pages, v)
  {
    assert (pages + [p])[..|pages|] == pages;
  }

  lemma SnocFrames(pages: seq<UserPage>, p: UserPage)
    ensures DataFrames(pages + [p]) == DataFrames(pages) + {p.frame}
  {
    assert forall q :: q in pages + [p] <==> q in pages || q == p;
  }

  lemma StepOwned(kernel: Labels, used0: set<nat>, used: set<nat>, labels: Labels, pages: seq<UserPage>,
                  p: UserPage, labels': Labels, used': set<nat>)
    requires Owned(kernel, used0, used, labels, pages) && p.frame !in used
    requires labels.Keys <= labels'.Keys && labels'.Keys - labels.Keys !! used + {p.frame}
    requires used' == used + {p.frame} + labels'.Keys
    ensures Owned(kernel, used0, used', labels', pages + [p])
  {
    SnocFrames(pages, p);
    assert forall k :: 0 <= k < |pages| ==> pages[k].frame in DataFrames(pages);
    assert used' == used0 + labels'.Keys + DataFrames(pages + [p]);
  }

  lemma StepMemory(mem0: Memory, mem: Memory, kroot: nat, kernel: Labels, used0: set<nat>, used: set<nat>,
                   labels: Labels, pages: seq<UserPage>, p: UserPage, memA: Memory, memB: Memory, labels': Labels,
                   used': set<nat>, v: Va, pt: nat, mem': Memory)
    requires Agree(mem0, mem, used0 - SharedTables(kernel).Keys)
    requires (OffTables(mem0, kroot, pages) ==> Agree(mem0, mem, used0))
    requires ZeroPages(mem, pages) && Owned(kernel, used0, used, labels, pages) && v == Indices(p.req.vaddr)
    requires p.frame !in used && memA == mem[p.frame := Data(Zeros(4096))]
    requires labels.Keys <= labels'.Keys && labels'.Keys - labels.Keys !! used + {p.frame}
    requires Agree(memA, memB, used + {p.frame} - (labels.Keys - kernel.Keys))
    requires pt in labels' && (forall f :: f in memB && f != pt ==> f in mem' && mem'[f] == memB[f])
    requires pt in kernel <==> Tabled(mem0, kroot, v)
    ensures Agree(mem0, mem', used0 - SharedTables(kernel).Keys)
    ensures (OffTables(mem0, kroot, pages + [p]) ==> Agree(mem0, mem', used0))
    ensures ZeroPages(mem', pages + [p]) && Agree(mem, memB, kernel.Keys)
  {
    hide Tabled, SharedTables;
    var kept := used + {p.frame} - (labels.Keys - kernel.Keys);
    forall f | f in used0 ensures f in kept && f != p.frame && (f == pt ==> f in SharedTables(kernel) && f in kernel) {
      assert f in labels ==> f in kernel;
      assert f in labels' ==> f in labels;
      assert f in labels && f in kernel ==> f in labels.Keys * kernel.Keys;
    }
    forall f | f in used0 - SharedTables(kernel).Keys && f in mem0 ensures f in mem' && mem'[f] == mem0[f] {
      assert f in mem && mem[f] == mem0[f];
    }
    if OffTables(mem0, kroot, pages + [p]) {
      assert forall k :: 0 <= k < |pages| ==> (pages + [p])[k] == pages[k];
      assert (pages + [p])[|pages|] == p;
      forall f | f in used0 && f in mem0 ensures f in mem' && mem'[f] == mem0[f] {
        assert f in mem && mem[f] == mem0[f];
      }
    }
    forall k | 0 <= k < |pages + [p]|
      ensures (pages + [p])[k].frame in mem' && mem'[(pages + [p])[k].frame] == Data(Zeros(4096))
    {
      var f := (pages + [p])[k].frame;
      assert k < |pages| ==> f in DataFrames(pages) && f in used;
      assert f in kept && f !in labels';
    }
  }

  lemma BuildingFacts(mem0: Memory, kroot: nat, kernel: Labels, used0: set<nat>,
                      mem: Memory, used: set<nat>, root: nat, labels: Labels, pages: seq<UserPage>)
    requires Building(mem0, kroot, kernel, used0, mem, used, root, labels, pages)
    ensures UserSpace(mem, root, labels, kernel, used) && kernel.Keys <= used && labels.Keys <= used
    ensures KernelSpace(mem, kroot, kernel, used) && Mirrors(mem0, kroot, mem, root)
    ensures Owned(kernel, used0, used, labels, pages) && ZeroPages(mem, pages)
    ensures NoGiants(mem0, kernel) ==> NoGiants(mem, labels) && NoGiants(mem, kernel)
  {
  }

  lemma BuildStart(mem0: Memory, kroot: nat, kernel: Labels, used0: set<nat>,
                   mem: Memory, used: set<nat>, root: nat, labels: Labels)
    requires KernelSpace(mem0, kroot, kernel, used0) && UserSpace(mem, root, labels, kernel, used)
    requires used == used0 + labels.Keys && labels.Keys - kernel.Keys !! used0 && Agree(mem0, mem, used0)
    requires labels.Keys * kernel.Keys == SharedTables(kernel).Keys && Mirrors(mem0, kroot, mem, root)
    requires NoGiants(mem0, kernel) ==> NoGiants(mem, labels)
    requires forall v :: Canonical(v) ==> Walk(mem, root, v) == KernelView(mem0, kroot, v)
    ensures Building(mem0, kroot, kernel, used0, mem, used, root, labels, [])
  {
    hide Walk, UserSpace, IsTree, KernelShape, Mirrors, NoGiants;
    assert DataFrames([]) == {};
    KernelFrame(mem0, kroot, kernel, used0, mem);
    GiantsKept(mem0, kernel, mem);
  }

  /** Apart from the kernel's own last-level tables, building a task leaves the kernel alone. */
  lemma BuildEnd(mem0: Memory, kroot: nat, kernel: Labels, used0: set<nat>,
                 mem: Memory, used: set<nat>, root: nat, labels: Labels, pages: seq<UserPage>)
    requires KernelSpace(mem0, kroot, kernel, used0) && OffTables(mem0, kroot, pages)
    requires Building(mem0, kroot, kernel, used0, mem, used, root, labels, pages)
    ensures SameTranslation(mem0, mem, kroot) && Agree(mem0, mem, used0)
    ensures Closed(mem0, kernel) ==> Closed(mem, kernel)
  {
    hide Walk, UserSpace, IsTree, KernelShape, NoGiants, OffTables, Mirrors, Expect, KernelExpect;
    KernelFrame(mem0, kroot, kernel, used0, mem);
    GiantsKept(mem0, kernel, mem);
  }

  lemma LabelsUsed(mem: Memory, root: nat, labels: Labels, kernel: Labels, used: set<nat>)
    requires UserSpace(mem, root, labels, kernel, used)
    ensures labels.Keys <= used
  {
  }

  lemma TableFound(mem: Memory, root: nat, labels: Labels, kernel: Labels, v: Va, pt: nat)
    requires TaskTable(mem, root, labels, kernel, v, pt)
    ensures IsTable(mem, pt)
  {
  }

  /** A page that the kernel reaches has a directory entry in the task's tables. */
  lemma Entered(mem0: Memory, kroot: nat, mem: Memory, mem': Memory, root: nat, v: Va)
    requires Mirrors(mem0, kroot, mem, root) && Repointed(mem, mem', root) && Reaches(mem0, kroot, v) && Canonical(v)
    ensures HasPd(mem', root, v) && Pde(mem', root, v).present
  {
    assert HasPd(mem0, kroot, v);
    hide HasPd, Pde;
  }

  lemma {:induction false} WantedHas(segments: seq<Segment>, i: nat)
    requires i < |segments|
    ensures forall r :: r in SegmentPages(segments[i]) ==> r in Wanted(segments)
  {
    var n := |segments| - 1;
    if i < n {
      WantedHas(segments[..n], i);
    }
  }

  // ---- What a task gets for its segments ----

  const PF_X := 1
  const PF_W := 2

  predicate Flag(flags: nat, bit: nat)
    requires bit > 0
  {
    flags / bit % 2 == 1
  }

  /** v is a page of the segment: one of its addresses, from the start of its first page on, lies there. */
  ghost predicate Covers(s: Segment, v: Va) {
    s.memsz > 0 && exists a: nat :: s.vaddr - s.vaddr % 4096 <= a < s.vaddr + s.memsz && Indices(a) == v
  }

  /** The i-th segment is the last to cover v. */
  ghost predicate LastCover(segments: seq<Segment>, v: Va, i: nat)
    requires i < |segments|
  {
    Covers(segments[i], v) && forall j :: i < j < |segments| ==> !Covers(segments[j], v)
  }

  /** A page with these rights on a frame of the task's own. */
  predicate Rights(m: Mapping, data: set<nat>, user: bool, write: bool, exec: bool) {
    m.Mapped? && m.frame in data && m.user == user && m.write == write && m.nx == !exec && !m.pcd
  }

  /** What the task translates v to: the stack page is writable and not executable; a page of a segment has the
      rights of the last segment that covers it; every other page is as in the kernel. Where the kernel
      has a last-level table the task's own pages are closed to users. */
  ghost predicate MappedAs(mem0: Memory, kroot: nat, segments: seq<Segment>, data: set<nat>, v: Va, m: Mapping) {
    var open := !Tabled(mem0, kroot, v);
    if v == Indices(STACK_VA) then Rights(m, data, open, true, false)
    else
      && (forall i :: 0 <= i < |segments| && LastCover(segments, v, i) ==>
            Rights(m, data, open, Flag(segments[i].flags, PF_W), Flag(segments[i].flags, PF_X)))
      && ((forall s :: s in segments ==> !Covers(s, v)) ==> m == KernelView(mem0, kroot, v))
  }

  ghost predicate SegmentsMapped(mem0: Memory, kroot: nat, mem: Memory, root: nat, segments: seq<Segment>,
                                 data: set<nat>) {
    forall v :: Canonical(v) ==> MappedAs(mem0, kroot, segments, data, v, Walk(mem, root, v))
  }

  /** No two pages that users reach share a frame. */
  ghost predicate PagesApart(mem: Memory, root: nat) {
    forall v, w :: Canonical(v) && Canonical(w) && v != w && UserAt(mem, root, v) && UserAt(mem, root, w) ==>
      FrameAt(mem, root, v) != FrameAt(mem, root, w)
  }

  predicate UserAt(mem: Memory, root: nat, v: Va) { var m := Walk(mem, root, v); m.Mapped? && m.user }

  function FrameAt(mem: Memory, root: nat, v: Va): nat {
    var m := Walk(mem, root, v); if m.Mapped? then m.frame else 0
  }

  /** These requests are the pages of the segment, with its rights. */
  ghost predicate ServedBy(s: Segment, requests: seq<Request>) {
    && (forall r :: r in requests ==> r.write == Flag(s.flags, PF_W) && r.exec == Flag(s.flags, PF_X))
    && (forall v :: Covers(s, v) <==> exists r :: r in requests && Indices(r.vaddr) == v)
  }

  lemma SamePage(a: nat, b: nat)
    requires a / 4096 == b / 4096
    ensures Indices(a) == Indices(b)
  {
    assert a / 0x20_0000 == (a / 4096) / 512 && b / 0x20_0000 == (b / 4096) / 512;
    assert a / 0x4000_0000 == (a / 4096) / 0x4_0000 && b / 0x4000_0000 == (b / 4096) / 0x4_0000;
    assert a / 0x80_0000_0000 == (a / 4096) / 0x800_0000 && b / 0x80_0000_0000 == (b / 4096) / 0x800_0000;
  }

  lemma {:induction false} PagesFromAt(addr: nat, end: nat, write: bool, exec: bool, j: nat)
    requires addr + 4096 * j < end
    ensures j < |PagesFrom(addr, end, write, exec)|
    ensures PagesFrom(addr, end, write, exec)[j] == Request(addr + 4096 * j, write, exec)
    decreases j
  {
    if j > 0 {
      PagesFromAt(addr + 4096, end, write, exec, j - 1);
    }
  }

  lemma {:induction false} PagesFromAll(addr: nat, end: nat, write: bool, exec: bool, j: nat)
    requires j < |PagesFrom(addr, end, write, exec)|
    ensures addr + 4096 * j < end && PagesFrom(addr, end, write, exec)[j] == Request(addr + 4096 * j, write, exec)
    decreases j
  {
    if j > 0 {
      PagesFromAll(addr + 4096, end, write, exec, j - 1);
    }
  }

  lemma SegmentServed(s: Segment)
    ensures ServedBy(s, SegmentPages(s))
  {
    hide Indices, SegmentPages, Flag, Covers;
    forall r | r in SegmentPages(s)
      ensures r.write == Flag(s.flags, PF_W) && r.exec == Flag(s.flags, PF_X) && Covers(s, Indices(r.vaddr))
    {
      SegmentRequest(s, r);
    }
    forall v | Covers(s, v) ensures exists r :: r in SegmentPages(s) && Indices(r.vaddr) == v {
      SegmentAddress(s, v);
    }
  }

  lemma SegmentRequest(s: Segment, r: Request)
    requires r in SegmentPages(s)
    ensures r.write == Flag(s.flags, PF_W) && r.exec == Flag(s.flags, PF_X) && Covers(s, Indices(r.vaddr))
  {
    hide Indices, PagesFrom;
    var j :| 0 <= j < |SegmentPages(s)| && SegmentPages(s)[j] == r;
    PagesFromAll(s.vaddr - s.vaddr % 4096, s.vaddr + s.memsz, (s.flags / 2) % 2 == 1, s.flags % 2 == 1, j);
  }

  lemma SegmentAddress(s: Segment, v: Va)
    requires Covers(s, v)
    ensures exists r :: r in SegmentPages(s) && Indices(r.vaddr) == v
  {
    hide Indices, PagesFrom;
    var first, end := s.vaddr - s.vaddr % 4096, s.vaddr + s.memsz;
    var a: nat :| first <= a < end && Indices(a) == v;
    var j := (a - first) / 4096;
    PagesFromAt(first, end, (s.flags / 2) % 2 == 1, s.flags % 2 == 1, j);
    PageStart(first, a);
    SamePage(first + 4096 * j, a);
    assert SegmentPages(s)[j] in SegmentPages(s);
  }

  lemma PageStart(first: nat, a: nat)
    requires first % 4096 == 0 && first <= a
    ensures (first + 4096 * ((a - first) / 4096)) / 4096 == a / 4096
  {
  }

  /** The last request for v has the rights of the last segment that covers v. */
  lemma {:induction false} WantedLast(segments: seq<Segment>, v: Va, m: nat)
    requires m < |Wanted(segments)| && Indices(Wanted(segments)[m].vaddr) == v
    requires forall k :: m < k < |Wanted(segments)| ==> Indices(Wanted(segments)[k].vaddr) != v
    ensures exists i :: 0 <= i < |segments| && LastCover(segments, v, i)
              && Wanted(segments)[m].write == Flag(segments[i].flags, PF_W)
              && Wanted(segments)[m].exec == Flag(segments[i].flags, PF_X)
  {
    hide Indices, Covers, SegmentPages, Flag;
    var n := |segments| - 1;
    var init, s := segments[..n], segments[n];
    var before, tail := Wanted(init), SegmentPages(s);
    assert Wanted(segments) == before + tail;
    assert m >= |before| ==> Wanted(segments)[m] == tail[m - |before|] && Wanted(segments)[m] in tail;
    SegmentServed(s);
    if Covers(s, v) {
      var r :| r in tail && Indices(r.vaddr) == v;
      var k :| 0 <= k < |tail| && tail[k] == r;
      assert Wanted(segments)[|before| + k] == r;
      assert m >= |before|;
      assert LastCover(segments, v, n);
    } else {
      forall k | m < k < |before| ensures Indices(before[k].vaddr) != v {
        assert Wanted(segments)[k] == before[k];
      }
      WantedLast(init, v, m);
      var i :| 0 <= i < n && LastCover(init, v, i) && before[m].write == Flag(init[i].flags, PF_W)
               && before[m].exec == Flag(init[i].flags, PF_X);
      forall j | i < j < |segments| ensures !Covers(segments[j], v) {
        assert j < n ==> init[j] == segments[j];
      }
      assert init[i] == segments[i] && LastCover(segments, v, i);
    }
  }

  lemma {:induction false} WantedNone(segments: seq<Segment>, v: Va)
    requires forall r :: r in Wanted(segments) ==> Indices(r.vaddr) != v
    ensures forall s :: s in segments ==> !Covers(s, v)
  {
    hide Indices, Covers, SegmentPages;
    if segments != [] {
      var n := |segments| - 1;
      WantedNone(segments[..n], v);
      SegmentServed(segments[n]);
      assert forall s :: s in segments <==> s in segments[..n] || s == segments[n];
    }
  }

  /** The last page given for an address is the one that address reads. */
  lemma {:induction false} ExpectLast(mem: Memory, kroot: nat, pages: seq<UserPage>, j: nat, v: Va)
    requires j < |pages| && Indices(pages[j].req.vaddr) == v
    requires forall m :: j < m < |pages| ==> Indices(pages[m].req.vaddr) != v
    ensures Expect(mem, kroot, pages, v) == Given(mem, kroot, pages[j])
  {
    if j < |pages| - 1 {
      ExpectLast(mem, kroot, pages[..|pages| - 1], j, v);
    }
  }

  lemma {:induction false} ExpectNone(mem: Memory, kroot: nat, pages: seq<UserPage>, v: Va)
    requires forall k :: 0 <= k < |pages| ==> Indices(pages[k].req.vaddr) != v
    ensures Expect(mem, kroot, pages, v) == KernelView(mem, kroot, v)
  {
    if pages != [] {
      ExpectNone(mem, kroot, pages[..|pages| - 1], v);
    }
  }

  /** The last of some pages that is for v. */
  lemma {:induction false} LastFor(pages: seq<UserPage>, v: Va)
    ensures (forall k :: 0 <= k < |pages| ==> Indices(pages[k].req.vaddr) != v)
         || exists m :: 0 <= m < |pages| && IsLast(pages, v, m)
  {
    hide Indices;
    if pages != [] {
      var n := |pages| - 1;
      if Indices(pages[n].req.vaddr) == v {
        assert IsLast(pages, v, n);
      } else {
        LastFor(pages[..n], v);
        if exists m :: 0 <= m < n && IsLast(pages[..n], v, m) {
          var m :| 0 <= m < n && IsLast(pages[..n], v, m);
          assert IsLast(pages, v, m);
        }
      }
    }
  }

  predicate IsLast(pages: seq<UserPage>, v: Va, m: nat)
    requires m < |pages|
  {
    Indices(pages[m].req.vaddr) == v && forall k :: m < k < |pages| ==> Indices(pages[k].req.vaddr) != v
  }

  /** What the pages expected for the segments are. */
  lemma ExpectSegments(mem: Memory, kroot: nat, pages: seq<UserPage>, segments: seq<Segment>, v: Va)
    requires Requests(pages) == Wanted(segments) + [STACK]
    ensures MappedAs(mem, kroot, segments, DataFrames(pages), v, Expect(mem, kroot, pages, v))
  {
    hide Indices, Covers, Wanted, Flag, Tabled, KernelView, Expect;
    var n := |Wanted(segments)|;
    assert |pages| == |Requests(pages)| == n + 1;
    forall k | 0 <= k <= n ensures pages[k].req == Requests(pages)[k] {
    }
    assert pages[n].req == STACK && forall k :: 0 <= k < n ==> pages[k].req == Wanted(segments)[k];
    hide Requests;
    LastFor(pages, v);
    if m :| 0 <= m < |pages| && IsLast(pages, v, m) {
      ExpectLast(mem, kroot, pages, m, v);
      assert pages[m] in pages;
      if m < n {
        WantedLast(segments, v, m);
        assert v != Indices(STACK_VA);
        LastIsOne(segments, v);
        WantedSome(segments, v, m);
      }
    } else {
      ExpectNone(mem, kroot, pages, v);
      assert v != Indices(STACK_VA);
      forall r | r in Wanted(segments) ensures Indices(r.vaddr) != v {
        var k :| 0 <= k < n && Wanted(segments)[k] == r;
      }
      WantedNone(segments, v);
    }
  }

  lemma LastIsOne(segments: seq<Segment>, v: Va)
    ensures forall i, j :: 0 <= i < j < |segments| ==> !(LastCover(segments, v, i) && LastCover(segments, v, j))
  {
    hide Covers;
  }

  lemma WantedSome(segments: seq<Segment>, v: Va, m: nat)
    requires exists i :: 0 <= i < |segments| && LastCover(segments, v, i)
    ensures exists s :: s in segments && Covers(s, v)
  {
    hide Covers;
    var i :| 0 <= i < |segments| && LastCover(segments, v, i);
    assert segments[i] in segments;
  }

  /** A task's address space, built for the segments, maps them. */
  lemma SegmentsAreMapped(mem0: Memory, kroot: nat, kernel: Labels, used0: set<nat>, mem: Memory, used: set<nat>,
                          root: nat, labels: Labels, pages: seq<UserPage>, segments: seq<Segment>)
    requires KernelSpace(mem0, kroot, kernel, used0)
    requires Building(mem0, kroot, kernel, used0, mem, used, root, labels, pages)
    requires Requests(pages) == Wanted(segments) + [STACK]
    ensures SegmentsMapped(mem0, kroot, mem, root, segments, DataFrames(pages)) && PagesApart(mem, root)
  {
    hide Walk, UserSpace, KernelSpace, NoGiants, Mirrors, ZeroPages, Tabled, SameTranslation, Expect, MappedAs, Wanted,
      Requests, KernelExpect, OffTables;
    forall v | Canonical(v) ensures MappedAs(mem0, kroot, segments, DataFrames(pages), v, Walk(mem, root, v)) {
      ExpectSegments(mem0, kroot, pages, segments, v);
    }
    forall v, w | Canonical(v) && Canonical(w) && v != w && UserAt(mem, root, v) && UserAt(mem, root, w)
      ensures FrameAt(mem, root, v) != FrameAt(mem, root, w)
    {
      UserPageIs(mem0, kroot, kernel, used0, pages, v);
      UserPageIs(mem0, kroot, kernel, used0, pages, w);
    }
  }

  lemma UserPageIs(mem: Memory, kroot: nat, kernel: Labels, used: set<nat>, pages: seq<UserPage>, v: Va)
    requires KernelSpace(mem, kroot, kernel, used) && Canonical(v)
    ensures var m := Expect(mem, kroot, pages, v);
            m.Mapped? && m.user ==>
              exists k :: 0 <= k < |pages| && Indices(pages[k].req.vaddr) == v && m.frame == pages[k].frame
  {
    hide KernelSpace, Walk, Tabled;
    LastFor(pages, v);
    if m :| 0 <= m < |pages| && IsLast(pages, v, m) {
      ExpectLast(mem, kroot, pages, m, v);
    } else {
      ExpectNone(mem, kroot, pages, v);
      KernelNoUser(mem, kroot, kernel, used, v);
    }
  }

  // ---- When a task gets its pages ----

  /** The page that an address reads is the last one given for it. */
  lemma {:induction false} ExpectFound(mem: Memory, kroot: nat, pages: seq<UserPage>, k: nat)
    requires k < |pages|
    ensures var v := Indices(pages[k].req.vaddr);
            exists m :: k <= m < |pages| && Indices(pages[m].req.vaddr) == v
              && Expect(mem, kroot, pages, v) == Given(mem, kroot, pages[m])
  {
    var v, n := Indices(pages[k].req.vaddr), |pages| - 1;
    if Indices(pages[n].req.vaddr) == v {
      assert Expect(mem, kroot, pages, v) == Given(mem, kroot, pages[n]);
    } else {
      ExpectFound(mem, kroot, pages[..n], k);
      var m :| k <= m < n && Indices(pages[..n][m].req.vaddr) == v
               && Expect(mem, kroot, pages[..n], v) == Given(mem, kroot, pages[..n][m]);
      assert pages[m] == pages[..n][m];
    }
  }

  /** The kernel translates as before and every page given is open to the task, if and only if none of
      the pages falls into a last-level table of the kernel. */
  lemma PagesGranted(mem0: Memory, kroot: nat, kernel: Labels, used0: set<nat>,
                     mem: Memory, used: set<nat>, root: nat, labels: Labels, pages: seq<UserPage>)
    requires KernelSpace(mem0, kroot, kernel, used0)
    requires Building(mem0, kroot, kernel, used0, mem, used, root, labels, pages)
    ensures SameTranslation(mem0, mem, kroot)
            && (forall k :: 0 <= k < |pages| ==> UserPageAt(mem, root, pages[k].req.vaddr))
       <==> OffTables(mem0, kroot, pages)
  {
    hide Walk, UserSpace, KernelSpace, NoGiants, Mirrors, Owned, ZeroPages, Tabled, SameTranslation, Expect;
    forall k | 0 <= k < |pages|
      ensures UserPageAt(mem, root, pages[k].req.vaddr) <==> !Tabled(mem0, kroot, Indices(pages[k].req.vaddr))
    {
      ExpectFound(mem0, kroot, pages, k);
    }
    if OffTables(mem0, kroot, pages) {
      BuildEnd(mem0, kroot, kernel, used0, mem, used, root, labels, pages);
    }
  }

  /** Where a page does fall into one, the kernel reads the frame of the last page given there, and the
      task's users cannot. */
  lemma PageSpoilt(mem0: Memory, kroot: nat, kernel: Labels, used0: set<nat>,
                   mem: Memory, used: set<nat>, root: nat, labels: Labels, pages: seq<UserPage>, k: nat)
    requires Building(mem0, kroot, kernel, used0, mem, used, root, labels, pages) && k < |pages|
    requires Indices(pages[k].req.vaddr).i4 == 0 && Tabled(mem0, kroot, Indices(pages[k].req.vaddr))
    ensures !UserPageAt(mem, root, pages[k].req.vaddr)
    ensures var v := Indices(pages[k].req.vaddr);
            exists m :: k <= m < |pages| && Indices(pages[m].req.vaddr) == v
              && Walk(mem, kroot, v) == Mapped(pages[m].frame, false, pages[m].req.write, !pages[m].req.exec, false)
  {
    hide Walk, UserSpace, KernelSpace, NoGiants, Mirrors, Owned, ZeroPages, Tabled, Expect;
    ExpectFound(mem0, kroot, pages, k);
  }

  /** A kernel that has mapped the page 0x40_0000 spoils the stack page of every task: the kernel's own
      translation of the stack's address becomes the task's frame, and the task cannot use it. */
  lemma StackSpoilt(mem0: Memory, kroot: nat, kernel: Labels, used0: set<nat>,
                    mem: Memory, used: set<nat>, root: nat, labels: Labels, pages: seq<UserPage>)
    requires KernelSpace(mem0, kroot, kernel, used0) && NoGiants(mem0, kernel)
    requires exists f :: f in kernel && kernel[f] == AtNode(Indices(0x40_0000))
    requires Building(mem0, kroot, kernel, used0, mem, used, root, labels, pages)
    requires pages != [] && pages[|pages| - 1].req == STACK
    ensures !UserPageAt(mem, root, STACK_VA)
    ensures Walk(mem, kroot, Indices(STACK_VA)) == Mapped(pages[|pages| - 1].frame, false, true, true, false)
  {
    hide Walk, KernelSpace, UserSpace, NoGiants, Tabled, Building;
    var v := Indices(STACK_VA);
    assert AtNode(v) == AtNode(Indices(0x40_0000));
    LeafyIff(mem0, kroot, kernel, used0, v);
    PageSpoilt(mem0, kroot, kernel, used0, mem, used, root, labels, pages, |pages| - 1);
  }

  // ---- is_user_mapped ----

  function IsUserMapped(mem: Memory, root: nat, virt: nat): bool {
    var v := Indices(virt);
    var e1 := At(mem, root, v.i4);
    if !e1.present then false else
    var e2 := At(mem, e1.frame, v.i3);
    if !e2.present then false else
    var e3 := At(mem, e2.frame, v.i2);
    if !e3.present then false else
    if e3.size then e3.user else
    var e4 := At(mem, e3.frame, v.i1);
    e4.present && e4.user
  }

  /** The hardware rule: a page is for users when every entry on the way to it says so. */
  predicate UserPageAt(mem: Memory, root: nat, virt: nat) {
    var m := Walk(mem, root, Indices(virt));
    m.Mapped? && m.user
  }

  /** A last-level table of the kernel maps v, below 512 GiB, with the user bit. */
  ghost predicate OpenLeaf(mem: Memory, kernel: Labels, v: Va) {
    exists f :: f in SharedTables(kernel) && kernel[f] == AtNode(v) && At(mem, f, v.i1).present && At(mem, f, v.i1).user
  }

  /** On a task's tables is_user_mapped, which looks at the last entry only, gives the hardware's answer
      if and only if no last-level table of the kernel maps the page with the user bit; there it
      says yes, and the hardware no. */
  lemma IsUserMappedExact(mem: Memory, root: nat, labels: Labels, kernel: Labels, used: set<nat>, virt: nat)
    requires UserSpace(mem, root, labels, kernel, used) && NoGiants(mem, labels)
    requires labels.Keys * kernel.Keys == SharedTables(kernel).Keys
    ensures IsUserMapped(mem, root, virt) <==> UserPageAt(mem, root, virt) || OpenLeaf(mem, kernel, Indices(virt))
    ensures OpenLeaf(mem, kernel, Indices(virt)) ==> !UserPageAt(mem, root, virt)
  {
    hide Find;
    var v := Indices(virt);
    UserRoot(mem, root, labels, kernel);
    WalkFollows(mem, root, labels, v);
    forall f | f in SharedTables(kernel) && kernel[f] == AtNode(v)
      ensures Tabled(mem, root, v) && Pde(mem, root, v).frame == f
    {
      SharedOnPath(mem, root, labels, kernel, v, f);
    }
    var e1 := At(mem, root, v.i4);
    assert UserEntry(kernel, labels[root], e1);
    if e1.present {
      var e2 := At(mem, e1.frame, v.i3);
      assert UserEntry(kernel, labels[e1.frame], e2);
      if e2.present {
        assert !e2.size;
        var e3 := At(mem, e2.frame, v.i2);
        assert UserEntry(kernel, labels[e2.frame], e3);
        if Ptr(e3) && e3.frame in kernel {
          assert e3.frame in labels.Keys * kernel.Keys;
        }
      }
    }
  }

  lemma SharedOnPath(mem: Memory, root: nat, labels: Labels, kernel: Labels, v: Va, f: nat)
    requires IsTree(mem, root, labels) && UserShape(mem, labels, kernel)
    requires labels.Keys * kernel.Keys == SharedTables(kernel).Keys
    requires f in SharedTables(kernel) && kernel[f] == AtNode(v)
    ensures Tabled(mem, root, v) && Pde(mem, root, v).frame == f
  {
    assert f in labels.Keys * kernel.Keys;
    assert Find(mem, root, labels[f]) == Some(f);
  }

  /** So where the kernel has opened no page of its own, the answer is the hardware's. */
  lemma IsUserMappedCorrect(mem: Memory, root: nat, labels: Labels, kernel: Labels, used: set<nat>, virt: nat)
    requires UserSpace(mem, root, labels, kernel, used) && NoGiants(mem, labels)
    requires labels.Keys * kernel.Keys == SharedTables(kernel).Keys && Closed(mem, kernel)
    ensures IsUserMapped(mem, root, virt) <==> UserPageAt(mem, root, virt)
  {
    hide UserSpace, NoGiants, IsUserMapped, UserPageAt;
    IsUserMappedExact(mem, root, labels, kernel, used, virt);
  }

  // ---- The tables that free_user_page_tables gives back ----

  ghost function PtsUnder(mem: Memory, pd: nat, n: nat): set<nat> {
    if n == 0 then {}
    else PtsUnder(mem, pd, n - 1) + if Ptr(At(mem, pd, n - 1)) then {At(mem, pd, n - 1).frame} else {}
  }

  ghost function PdsUnder(mem: Memory, pdpt: nat, n: nat): set<nat> {
    if n == 0 then {}
    else
      var e := At(mem, pdpt, n - 1);
      PdsUnder(mem, pdpt, n - 1) + if Ptr(e) then PtsUnder(mem, e.frame, 512) + {e.frame} else {}
  }

  ghost function PdptsUnder(mem: Memory, root: nat, kroot: nat, n: nat): set<nat> {
    if n == 0 then {}
    else
      var e := At(mem, root, n - 1);
      PdptsUnder(mem, root, kroot, n - 1)
      + if e.present && e != At(mem, kroot, n - 1) then PdsUnder(mem, e.frame, 512) + {e.frame} else {}
  }

  lemma {:induction false} InPts(mem: Memory, pd: nat, n: nat, f: nat)
    ensures f in PtsUnder(mem, pd, n) <==> exists i :: 0 <= i < n && Ptr(At(mem, pd, i)) && At(mem, pd, i).frame == f
  {
    if n > 0 {
      InPts(mem, pd, n - 1, f);
    }
  }

  lemma {:induction false} InPds(mem: Memory, pdpt: nat, n: nat, f: nat)
    ensures f in PdsUnder(mem, pdpt, n) <==>
      exists i :: 0 <= i < n && Ptr(At(mem, pdpt, i))
        && (At(mem, pdpt, i).frame == f || f in PtsUnder(mem, At(mem, pdpt, i).frame, 512))
  {
    if n > 0 {
      InPds(mem, pdpt, n - 1, f);
    }
  }

  lemma {:induction false} InPdpts(mem: Memory, root: nat, kroot: nat, n: nat, f: nat)
    ensures f in PdptsUnder(mem, root, kroot, n) <==>
      exists i :: 0 <= i < n && At(mem, root, i).present && At(mem, root, i) != At(mem, kroot, i)
                  && (At(mem, root, i).frame == f || f in PdsUnder(mem, At(mem, root, i).frame, 512))
  {
    if n > 0 {
      InPdpts(mem, root, kroot, n - 1, f);
    }
  }

  /** Everything free_user_page_tables marks free. */
  ghost function Freed(mem: Memory, root: nat, kroot: nat): set<nat> {
    PdptsUnder(mem, root, kroot, 512) + {root}
  }

  /** It frees every table that can be reached from the task's root, and nothing else. */
  lemma FreedIsReachable(mem: Memory, root: nat, labels: Labels, kroot: nat, kernel: Labels, used: set<nat>)
    requires UserSpace(mem, root, labels, kernel, used) && KernelSpace(mem, kroot, kernel, used)
    ensures Freed(mem, root, kroot) == labels.Keys
  {
    hide UserSpace, KernelSpace;
    forall f ensures f in Freed(mem, root, kroot) <==> f in labels {
      if f in labels {
        ReachableIsFreed(mem, root, labels, kroot, kernel, used, f);
      }
      if f in Freed(mem, root, kroot) {
        FreedIsLabelled(mem, root, labels, kroot, kernel, used, f);
      }
    }
  }

  lemma RootsDiffer(mem: Memory, root: nat, labels: Labels, kroot: nat, kernel: Labels, used: set<nat>, i: nat)
    requires UserSpace(mem, root, labels, kernel, used) && KernelSpace(mem, kroot, kernel, used) && i < 512
    ensures At(mem, root, i).present ==> At(mem, root, i) != At(mem, kroot, i) && Ptr(At(mem, root, i))
  {
    UserRoot(mem, root, labels, kernel);
    assert UserEntry(kernel, labels[root], At(mem, root, i));
    assert KernelEntry(kernel[kroot], At(mem, kroot, i));
  }

  lemma ReachableIsFreed(mem: Memory, root: nat, labels: Labels, kroot: nat, kernel: Labels, used: set<nat>, f: nat)
    requires UserSpace(mem, root, labels, kernel, used) && KernelSpace(mem, kroot, kernel, used) && f in labels
    ensures f in Freed(mem, root, kroot)
  {
    hide UserShape, PtsUnder, PdsUnder, PdptsUnder, KernelSpace;
    assert Find(mem, root, labels[f]) == Some(f);
    match labels[f]
    case N4 =>
    case N3(i4) =>
      RootsDiffer(mem, root, labels, kroot, kernel, used, i4);
      InPdpts(mem, root, kroot, 512, f);
    case N2(i4, i3) =>
      RootsDiffer(mem, root, labels, kroot, kernel, used, i4);
      InPds(mem, At(mem, root, i4).frame, 512, f);
      InPdpts(mem, root, kroot, 512, f);
    case N1(i4, i3, i2) =>
      RootsDiffer(mem, root, labels, kroot, kernel, used, i4);
      var pdpt := At(mem, root, i4).frame;
      InPts(mem, At(mem, pdpt, i3).frame, 512, f);
      InPds(mem, pdpt, 512, f);
      InPdpts(mem, root, kroot, 512, f);
  }

  lemma FreedIsLabelled(mem: Memory, root: nat, labels: Labels, kroot: nat, kernel: Labels, used: set<nat>, f: nat)
    requires UserSpace(mem, root, labels, kernel, used) && KernelSpace(mem, kroot, kernel, used)
    requires f in Freed(mem, root, kroot)
    ensures f in labels
  {
    hide UserShape, PtsUnder, PdsUnder, PdptsUnder, KernelSpace;
    if f != root {
      InPdpts(mem, root, kroot, 512, f);
      var i4 :| 0 <= i4 < 512 && At(mem, root, i4).present && At(mem, root, i4) != At(mem, kroot, i4)
                && (At(mem, root, i4).frame == f || f in PdsUnder(mem, At(mem, root, i4).frame, 512));
      RootsDiffer(mem, root, labels, kroot, kernel, used, i4);
      assert Follows(mem, labels, root, i4);
      var pdpt := At(mem, root, i4).frame;
      if pdpt != f {
        InPds(mem, pdpt, 512, f);
        var i3 :| 0 <= i3 < 512 && Ptr(At(mem, pdpt, i3))
                  && (At(mem, pdpt, i3).frame == f || f in PtsUnder(mem, At(mem, pdpt, i3).frame, 512));
        assert Follows(mem, labels, pdpt, i3);
        var pd := At(mem, pdpt, i3).frame;
        if pd != f {
          InPts(mem, pd, 512, f);
          var i2 :| 0 <= i2 < 512 && Ptr(At(mem, pd, i2)) && At(mem, pd, i2).frame == f;
          assert Follows(mem, labels, pd, i2);
        }
      }
    }
  }
}
