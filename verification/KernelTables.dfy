// The kernel's page tables: map_page and map_page_uc in src/arch/x86_64/paging.rs.

/** The kernel's own hierarchy, and what map_page may do to it. */
module KernelTables {
  import opened Wrappers
  import opened PageTables

  /** A 1 GiB supervisor page. */
  predicate Giant(e: Entry) { e.present && e.size && !e.user }

  predicate Large(e: Entry) { e == Page2M(e.frame) && e.frame % 512 == 0 }

  predicate KernelEntry(n: Node, e: Entry) {
    match n
    case N4 => e == EMPTY || e == TableEntry(e.frame)
    case N3(_) => e == EMPTY || Giant(e) || e == TableEntry(e.frame)
    case N2(_, _) => e == EMPTY || Large(e) || e == TableEntry(e.frame)
    case N1(_, _, _) => true
  }

  /** The kernel's hierarchy holds supervisor entries only, above the last level. */
  ghost predicate KernelShape(mem: Memory, labels: Labels) {
    forall f, i :: f in labels && 0 <= i < 512 ==> KernelEntry(labels[f], At(mem, f, i))
  }

  /** No 1 GiB page anywhere. */
  ghost predicate NoGiants(mem: Memory, labels: Labels) {
    forall f, i :: f in labels && labels[f].N3? && 0 <= i < 512 ==> !At(mem, f, i).size
  }

  /** And on the last level. */
  ghost predicate Closed(mem: Memory, labels: Labels) {
    forall f, i :: f in labels && labels[f].N1? && 0 <= i < 512 ==> !At(mem, f, i).user
  }

  // ---- The directory entry for a page ----

  /** The page-directory entry on the way to v. */
  function Pde(mem: Memory, root: nat, v: Va): Entry {
    At(mem, At(mem, At(mem, root, v.i4).frame, v.i3).frame, v.i2)
  }

  /** There is a page directory for v. */
  predicate HasPd(mem: Memory, root: nat, v: Va) {
    Ptr(At(mem, root, v.i4)) && Ptr(At(mem, At(mem, root, v.i4).frame, v.i3))
  }

  /** v lies in a 2 MiB page. */
  predicate Leafy(mem: Memory, root: nat, v: Va) { HasPd(mem, root, v) && Large(Pde(mem, root, v)) }

  /** v has a last-level table. */
  predicate Tabled(mem: Memory, root: nat, v: Va) { HasPd(mem, root, v) && Ptr(Pde(mem, root, v)) }

  /** In a kernel hierarchy the labels and the translation tell which. */
  lemma LeafyIff(mem: Memory, root: nat, labels: Labels, used: set<nat>, v: Va)
    requires KernelSpace(mem, root, labels, used) && NoGiants(mem, labels) && Canonical(v)
    ensures Tabled(mem, root, v) <==> exists f :: f in labels && labels[f] == AtNode(v)
    ensures Leafy(mem, root, v) <==> Walk(mem, root, v).Mapped? && forall f :: f in labels ==> labels[f] != AtNode(v)
  {
    KernelRoot(mem, root, labels);
    WalkFollows(mem, root, labels, v);
    var e4 := At(mem, root, v.i4);
    assert KernelEntry(labels[root], e4);
    if Ptr(e4) {
      var e3 := At(mem, e4.frame, v.i3);
      assert KernelEntry(labels[e4.frame], e3) && !e3.size;
      assert Ptr(e3) ==> KernelEntry(labels[e3.frame], At(mem, e3.frame, v.i2));
    }
    forall f | f in labels && labels[f] == AtNode(v) ensures Tabled(mem, root, v) {
      assert Find(mem, root, labels[f]) == Some(f);
    }
  }

  /** Every virtual page keeps its frame and its rights. */
  ghost predicate SameTranslation(mem: Memory, mem': Memory, root: nat) {
    forall v :: Canonical(v) ==> Walk(mem', root, v) == Walk(mem, root, v)
  }

  ghost predicate Extends(a: Labels, b: Labels) {
    forall f :: f in a ==> f in b && b[f] == a[f]
  }

  /** Only tables of the kernel change, and only frames that were free join them. */
  ghost predicate Grown(mem: Memory, kernel: Labels, used: set<nat>, mem': Memory, kernel': Labels, used': set<nat>) {
    && Extends(kernel, kernel')
    && used' == used + kernel'.Keys
    && kernel'.Keys - kernel.Keys !! used
    && Agree(mem, mem', used - kernel.Keys)
  }

  /** A kernel hierarchy whose tables are all in use. */
  ghost predicate KernelSpace(mem: Memory, root: nat, labels: Labels, used: set<nat>) {
    IsTree(mem, root, labels) && KernelShape(mem, labels) && labels.Keys <= used
  }

  lemma KernelTableAt(mem: Memory, root: nat, labels: Labels, used: set<nat>, f: nat)
    requires KernelSpace(mem, root, labels, used) && f in labels
    ensures IsTable(mem, f) && labels.Keys <= used
  {
  }

  lemma KernelRoot(mem: Memory, root: nat, labels: Labels)
    requires IsTree(mem, root, labels) && KernelShape(mem, labels)
    ensures NoGiantRoot(mem, root)
  {
    forall i | 0 <= i < 512 ensures !At(mem, root, i).size {
      assert KernelEntry(labels[root], At(mem, root, i));
    }
  }

  lemma SameTranslationTwice(mem: Memory, mem': Memory, mem'': Memory, root: nat)
    requires SameTranslation(mem, mem', root) && SameTranslation(mem', mem'', root)
    ensures SameTranslation(mem, mem'', root)
  {
    hide Walk;
    forall v | Canonical(v) ensures Walk(mem'', root, v) == Walk(mem, root, v) {
      assert Walk(mem', root, v) == Walk(mem, root, v);
    }
  }

  lemma GrownTwice(mem: Memory, kernel: Labels, used: set<nat>, mem': Memory, kernel': Labels, used': set<nat>,
                   mem'': Memory, kernel'': Labels, used'': set<nat>)
    requires Grown(mem, kernel, used, mem', kernel', used') && Grown(mem', kernel', used', mem'', kernel'', used'')
    ensures Grown(mem, kernel, used, mem'', kernel'', used'')
  {
    forall f | f in used - kernel.Keys && f in mem ensures f in mem'' && mem''[f] == mem[f] {
      assert f in used' - kernel'.Keys;
    }
  }

  // ---- One new table ----

  /** A new table of the kernel: the tree, its shape and every translation are kept. */
  lemma LinkKernel(mem: Memory, root: nat, labels: Labels, used: set<nat>, g: nat, i: nat, c: nat, p: Page,
                   mem': Memory, labels': Labels)
    requires KernelSpace(mem, root, labels, used) && c !in used
    requires Linked(mem, labels, g, i, c, p, TableEntry(c), mem', labels')
    requires if At(mem, g, i).present
             then labels[g].N2? && Large(At(mem, g, i)) && p == SplitPage(Base2M(At(mem, g, i)))
             else p == EmptyTable()
    ensures KernelSpace(mem', root, labels', used + {c}) && SameTranslation(mem, mem', root)
    ensures NoGiants(mem, labels) ==> NoGiants(mem', labels')
    ensures Closed(mem, labels) ==> Closed(mem', labels')
    ensures Grown(mem, labels, used, mem', labels', used + {c})
  {
    hide IsTree, KernelShape, NoGiants, Closed, SplitPage, EmptyTable, Grown, SameTranslation;
    KernelRoot(mem, root, labels);
    if At(mem, g, i).present {
      LinkSplit(mem, root, labels, g, i, c, TableEntry(c), mem', labels');
    } else {
      LinkEmpty(mem, root, labels, g, i, c, TableEntry(c), mem', labels');
    }
    LinkShape(mem, labels, g, i, c, p, mem', labels');
    LinkGrows(mem, labels, used, g, i, c, p, mem', labels');
  }

  lemma LinkGrows(mem: Memory, labels: Labels, used: set<nat>, g: nat, i: nat, c: nat, p: Page, mem': Memory,
                  labels': Labels)
    requires Linked(mem, labels, g, i, c, p, TableEntry(c), mem', labels') && labels.Keys <= used && c !in used
    ensures Grown(mem, labels, used, mem', labels', used + {c}) && labels'.Keys <= used + {c}
  {
    assert used + {c} == used + labels'.Keys;
  }

  lemma LinkShape(mem: Memory, labels: Labels, g: nat, i: nat, c: nat, p: Page, mem': Memory, labels': Labels)
    requires KernelShape(mem, labels) && Linked(mem, labels, g, i, c, p, TableEntry(c), mem', labels')
    requires p == EmptyTable() || (labels[g].N2? && p == SplitPage(Base2M(At(mem, g, i))))
    ensures KernelShape(mem', labels')
    ensures NoGiants(mem, labels) ==> NoGiants(mem', labels')
    ensures Closed(mem, labels) ==> Closed(mem', labels')
  {
    forall f, k | f in labels' && 0 <= k < 512 ensures KernelEntry(labels'[f], At(mem', f, k)) {
      if f == c {
        assert At(mem', f, k) == p.entries[k];
        assert p.entries[k] == EMPTY || p.entries[k] == Page4K(Base2M(At(mem, g, i)) + k, true, false, true);
      } else {
        assert KernelEntry(labels[f], At(mem, f, k));
      }
    }
    if NoGiants(mem, labels) {
      forall f, k | f in labels' && labels'[f].N3? && 0 <= k < 512 ensures !At(mem', f, k).size {
        assert f != c ==> !At(mem, f, k).size;
      }
    }
    if Closed(mem, labels) {
      forall f, k | f in labels' && labels'[f].N1? && 0 <= k < 512 ensures !At(mem', f, k).user {
        if f == c {
          assert At(mem', f, k) == p.entries[k];
          assert p.entries[k] == EMPTY || p.entries[k] == Page4K(Base2M(At(mem, g, i)) + k, true, false, true);
        } else {
          assert !At(mem, f, k).user;
        }
      }
    }
  }

  lemma LinkEmpty(mem: Memory, root: nat, labels: Labels, g: nat, i: nat, c: nat, e: Entry, mem': Memory,
                  labels': Labels)
    requires IsTree(mem, root, labels) && NoGiantRoot(mem, root)
    requires Linked(mem, labels, g, i, c, EmptyTable(), e, mem', labels') && !At(mem, g, i).present
    ensures IsTree(mem', root, labels') && SameTranslation(mem, mem', root)
  {
    LinkTree(mem, root, labels, g, i, c, EmptyTable(), e, mem', labels');
    forall v | Canonical(v) ensures Walk(mem', root, v) == Walk(mem, root, v) {
      LinkEmptyWalk(mem, root, labels, g, i, c, e, mem', labels', v);
    }
  }

  /** Splitting a 2 MiB supervisor page, under a kernel or a user table entry. */
  lemma LinkSplit(mem: Memory, root: nat, labels: Labels, g: nat, i: nat, c: nat, e: Entry, mem': Memory,
                  labels': Labels)
    requires IsTree(mem, root, labels) && NoGiantRoot(mem, root)
    requires Linked(mem, labels, g, i, c, SplitPage(Base2M(At(mem, g, i))), e, mem', labels')
    requires labels[g].N2? && Large(At(mem, g, i)) && (e == TableEntry(c) || e == TableEntryUser(c))
    ensures IsTree(mem', root, labels') && SameTranslation(mem, mem', root)
  {
    var large := At(mem, g, i);
    var p := SplitPage(Base2M(large));
    LinkTree(mem, root, labels, g, i, c, p, e, mem', labels');
    forall k | 0 <= k < 512 ensures Through(e, Walk1(p.entries[k])) == Leaf(large, Base2M(large) + k) {
      assert p.entries[k] == Page4K(Base2M(large) + k, true, false, true);
    }
    forall v | Canonical(v) ensures Walk(mem', root, v) == Walk(mem, root, v) {
      LinkSplitWalk(mem, root, labels, g, i, c, p, e, mem', labels', v);
    }
  }

  // ---- One new page ----

  /** What a last-level entry grants under the kernel's own tables: nothing to users. */
  function Supervisor(leaf: Entry): Mapping { Mapped(leaf.frame, false, leaf.write, leaf.nx, leaf.pcd) }

  /** Writing a last-level kernel entry maps that page and no other. */
  lemma SetKernelLeaf(mem: Memory, root: nat, labels: Labels, pt: nat, v: Va, leaf: Entry, mem': Memory)
    requires IsTree(mem, root, labels) && KernelShape(mem, labels) && Canonical(v)
    requires pt in labels && labels[pt] == AtNode(v) && leaf.present
    requires mem' == WithEntry(mem, pt, v.i1, leaf)
    ensures IsTree(mem', root, labels) && KernelShape(mem', labels)
    ensures NoGiants(mem, labels) ==> NoGiants(mem', labels)
    ensures Closed(mem, labels) && !leaf.user ==> Closed(mem', labels)
    ensures forall u :: Canonical(u) ==>
      Walk(mem', root, u) == if u == v then Supervisor(leaf) else Walk(mem, root, u)
  {
    KernelRoot(mem, root, labels);
    SetLeafTree(mem, root, labels, pt, v.i1, leaf, mem');
    forall f, k | f in labels && 0 <= k < 512
      ensures KernelEntry(labels[f], At(mem', f, k)) && (f != pt ==> At(mem', f, k) == At(mem, f, k))
    {
      assert KernelEntry(labels[f], At(mem, f, k));
    }
    if Closed(mem, labels) && !leaf.user {
      forall f, k | f in labels && labels[f].N1? && 0 <= k < 512 ensures !At(mem', f, k).user {
        assert !At(mem, f, k).user;
      }
    }
    forall u | Canonical(u)
      ensures Walk(mem', root, u) == if u == v then Supervisor(leaf) else Walk(mem, root, u)
    {
      SetLeafWalk(mem, root, labels, pt, v.i1, leaf, mem', u);
      if u == v {
        KernelPath(mem, root, labels, pt, v);
      }
    }
  }

  /** The entries on the way to a kernel table are plain table pointers. */
  lemma KernelPath(mem: Memory, root: nat, labels: Labels, pt: nat, v: Va)
    requires IsTree(mem, root, labels) && KernelShape(mem, labels) && Canonical(v)
    requires pt in labels && labels[pt] == AtNode(v)
    ensures var e4 := At(mem, root, v.i4);
            var e3 := At(mem, e4.frame, v.i3);
            var e2 := At(mem, e3.frame, v.i2);
            e4 == TableEntry(e4.frame) && e3 == TableEntry(e3.frame) && e2 == TableEntry(pt)
  {
    assert Find(mem, root, labels[pt]) == Some(pt);
    WalkFollows(mem, root, labels, v);
    var e4 := At(mem, root, v.i4);
    var e3 := At(mem, e4.frame, v.i3);
    assert KernelEntry(labels[root], e4);
    assert KernelEntry(labels[e4.frame], e3);
    assert KernelEntry(labels[e3.frame], At(mem, e3.frame, v.i2));
  }

  /** What the steps of map_page keep: the kernel's tree and every translation. */
  ghost predicate Extended(root: nat, mem: Memory, kernel: Labels, used: set<nat>,
                           mem': Memory, kernel': Labels, used': set<nat>)
  {
    && KernelSpace(mem', root, kernel', used') && NoGiants(mem', kernel')
    && (Closed(mem, kernel) ==> Closed(mem', kernel'))
    && SameTranslation(mem, mem', root)
    && Grown(mem, kernel, used, mem', kernel', used')
  }

  lemma ExtendedGives(root: nat, mem: Memory, kernel: Labels, used: set<nat>, mem': Memory, kernel': Labels,
                      used': set<nat>)
    requires Extended(root, mem, kernel, used, mem', kernel', used')
    ensures KernelSpace(mem', root, kernel', used') && NoGiants(mem', kernel')
  {
  }

  lemma ExtendedTwice(root: nat, mem: Memory, kernel: Labels, used: set<nat>, mem': Memory, kernel': Labels,
                      used': set<nat>, mem'': Memory, kernel'': Labels, used'': set<nat>)
    requires Extended(root, mem, kernel, used, mem', kernel', used')
    requires Extended(root, mem', kernel', used', mem'', kernel'', used'')
    ensures Extended(root, mem, kernel, used, mem'', kernel'', used'')
    ensures KernelSpace(mem'', root, kernel'', used'') && NoGiants(mem'', kernel'')
  {
    hide KernelSpace, NoGiants, Closed, SameTranslation, Grown;
    SameTranslationTwice(mem, mem', mem'', root);
    GrownTwice(mem, kernel, used, mem', kernel', used', mem'', kernel'', used'');
  }

  /** The last write of map_page, after the tables it needs are there. */
  lemma MappedOne(root: nat, mem: Memory, kernel: Labels, used: set<nat>, mem': Memory, kernel': Labels,
                  used': set<nat>, pt: nat, v: Va, leaf: Entry, mem'': Memory)
    requires Extended(root, mem, kernel, used, mem', kernel', used')
    requires pt in kernel' && kernel'[pt] == AtNode(v) && leaf.present && !leaf.user && Canonical(v)
    requires IsTable(mem', pt) && mem'' == WithEntry(mem', pt, v.i1, leaf)
    ensures KernelSpace(mem'', root, kernel', used') && NoGiants(mem'', kernel')
    ensures Closed(mem, kernel) ==> Closed(mem'', kernel')
    ensures Grown(mem, kernel, used, mem'', kernel', used')
    ensures forall u :: Canonical(u) ==>
      Walk(mem'', root, u) == if u == v then Leaf(leaf, leaf.frame) else Walk(mem, root, u)
  {
    hide Walk, KernelShape, NoGiants, Closed, IsTree;
    SetKernelLeaf(mem', root, kernel', pt, v, leaf, mem'');
  }

  // ---- What map_page does to the directory entries ----

  /** A table that lies on the way to v. */
  predicate OnWay(n: Node, v: Va) {
    match n
    case N4 => false
    case N3(i4) => i4 == v.i4
    case N2(i4, i3) => i4 == v.i4 && i3 == v.i3
    case N1(_, _, _) => n == AtNode(v)
  }

  /** The tables that joined the kernel's lie on the way to v, the last-level one among the kernel's. */
  ghost predicate WayTo(kernel: Labels, kernel': Labels, v: Va) {
    && Extends(kernel, kernel')
    && (forall f :: f in kernel' && f !in kernel ==> OnWay(kernel'[f], v))
    && exists f :: f in kernel' && kernel'[f] == AtNode(v)
  }

  /** No table joined the kernel's, unless at the node n. */
  ghost predicate Joins(kernel: Labels, kernel': Labels, n: Node) {
    Extends(kernel, kernel') && forall f :: f in kernel' && f !in kernel ==> kernel'[f] == n
  }

  lemma WayOf(k0: Labels, k1: Labels, k2: Labels, k3: Labels, v: Va, pt: nat)
    requires Joins(k0, k1, N3(v.i4)) && Joins(k1, k2, N2(v.i4, v.i3)) && Joins(k2, k3, AtNode(v))
    requires pt in k3 && k3[pt] == AtNode(v)
    ensures WayTo(k0, k3, v)
  {
  }

  /** Mapping a page turns the 2 MiB page around it, if any, into a table; every other 2 MiB page and
      every other last-level table stays what it is. */
  lemma MapKeepsLeaves(mem: Memory, root: nat, kernel: Labels, used: set<nat>,
                       mem': Memory, kernel': Labels, used': set<nat>, v: Va, u: Va)
    requires KernelSpace(mem, root, kernel, used) && NoGiants(mem, kernel)
    requires KernelSpace(mem', root, kernel', used') && NoGiants(mem', kernel')
    requires WayTo(kernel, kernel', v) && Canonical(v) && Canonical(u)
    requires u != v ==> Walk(mem', root, u) == Walk(mem, root, u)
    ensures Leafy(mem', root, u) <==> Leafy(mem, root, u) && AtNode(u) != AtNode(v)
    ensures Tabled(mem', root, u) <==> Tabled(mem, root, u) || AtNode(u) == AtNode(v)
  {
    hide KernelSpace, NoGiants, Walk, Leafy, Tabled;
    LeafyIff(mem, root, kernel, used, u);
    LeafyIff(mem', root, kernel', used', u);
  }

  /** The same for every page at once. */
  ghost predicate LeavesKept(mem: Memory, mem': Memory, root: nat, v: Va) {
    forall u :: Canonical(u) ==>
      && (Leafy(mem', root, u) <==> Leafy(mem, root, u) && AtNode(u) != AtNode(v))
      && (Tabled(mem', root, u) <==> Tabled(mem, root, u) || AtNode(u) == AtNode(v))
  }

  lemma MapLeaves(mem: Memory, root: nat, kernel: Labels, used: set<nat>, mem': Memory, kernel': Labels,
                  used': set<nat>, v: Va)
    requires KernelSpace(mem, root, kernel, used) && NoGiants(mem, kernel)
    requires KernelSpace(mem', root, kernel', used') && NoGiants(mem', kernel')
    requires WayTo(kernel, kernel', v) && Canonical(v)
    requires forall u :: Canonical(u) && u != v ==> Walk(mem', root, u) == Walk(mem, root, u)
    ensures LeavesKept(mem, mem', root, v)
  {
    hide KernelSpace, NoGiants, Walk, Leafy, Tabled, WayTo;
    forall u | Canonical(u)
      ensures Leafy(mem', root, u) <==> Leafy(mem, root, u) && AtNode(u) != AtNode(v)
      ensures Tabled(mem', root, u) <==> Tabled(mem, root, u) || AtNode(u) == AtNode(v)
    {
      MapKeepsLeaves(mem, root, kernel, used, mem', kernel', used', v, u);
    }
  }
}
