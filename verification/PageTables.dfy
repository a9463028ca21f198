// Page-table entries, the hardware walk and the shape of a table hierarchy:
// src/arch/x86_64/paging.rs and sections 4.5 and 4.6 of the Intel SDM, volume 3A.

module PageTables {
  import opened Bytes
  import opened Wrappers

  /** A page-table entry; `frame` is the physical address field (bits 12 to 51). */
  datatype Entry = Entry(present: bool, write: bool, user: bool, pcd: bool, size: bool, nx: bool, frame: nat)

  const EMPTY := Entry(false, false, false, false, false, false, 0)

  function TableEntry(f: nat): Entry { Entry(true, true, false, false, false, false, f) }

  function TableEntryUser(f: nat): Entry { Entry(true, true, true, false, false, false, f) }

  function Page2M(f: nat): Entry { Entry(true, true, false, false, true, false, f) }

  function Page4K(f: nat, writable: bool, user: bool, executable: bool): Entry {
    Entry(true, writable, user, false, false, !executable, f)
  }

  function Page4KUc(f: nat): Entry { Entry(true, true, false, true, false, false, f) }

  /** The frame number that the mask 0x000F_FFFF_FFE0_0000 leaves: the base of a 2 MiB page. */
  function Base2M(e: Entry): nat { e.frame - e.frame % 512 }

  /** An entry that the walk follows to another table. */
  predicate Ptr(e: Entry) { e.present && !e.size }

  datatype Page = Table(entries: seq<Entry>) | Data(bytes: seq<byte>)

  type Memory = map<nat, Page>

  /** The table that a split 2 MiB page becomes. */
  function SplitPage(base: nat): Page {
    Table(seq(512, k requires 0 <= k < 512 => Page4K(base + k, true, false, true)))
  }

  function EmptyTable(): Page {
    Table(seq(512, _ => EMPTY))
  }

  predicate IsTable(mem: Memory, f: nat) {
    f in mem && mem[f].Table? && |mem[f].entries| == 512
  }

  lemma EmptyIsTable(mem: Memory, f: nat)
    ensures f in mem && mem[f] == EmptyTable() ==> IsTable(mem, f)
  {
  }

  function At(mem: Memory, f: nat, i: nat): Entry {
    if IsTable(mem, f) && i < 512 then mem[f].entries[i] else EMPTY
  }

  function WithEntry(mem: Memory, f: nat, i: nat, e: Entry): Memory
    requires IsTable(mem, f) && i < 512
  {
    mem[f := Table(mem[f].entries[i := e])]
  }

  // ---- The hardware walk ----

  /** A virtual page, as the four 9-bit indices of its address. */
  datatype Va = Va(i4: nat, i3: nat, i2: nat, i1: nat)

  predicate Canonical(v: Va) { v.i4 < 512 && v.i3 < 512 && v.i2 < 512 && v.i1 < 512 }

  function Indices(addr: nat): (v: Va)
    ensures Canonical(v)
  {
    Va((addr / 0x80_0000_0000) % 512, (addr / 0x4000_0000) % 512, (addr / 0x20_0000) % 512, (addr / 0x1000) % 512)
  }

  datatype Mapping = Fault | Mapped(frame: nat, user: bool, write: bool, nx: bool, pcd: bool)

  /** The rights of a translation are those all its entries grant. */
  function Through(e: Entry, m: Mapping): Mapping {
    if m.Fault? then Fault
    else Mapped(m.frame, e.user && m.user, e.write && m.write, e.nx || m.nx, m.pcd)
  }

  function Leaf(e: Entry, f: nat): Mapping { Mapped(f, e.user, e.write, e.nx, e.pcd) }

  function Walk1(e: Entry): Mapping {
    if !e.present then Fault else Leaf(e, e.frame)
  }

  function Walk2(mem: Memory, e: Entry, v: Va): Mapping {
    if !e.present then Fault
    else if e.size then Leaf(e, Base2M(e) + v.i1)
    else Through(e, Walk1(At(mem, e.frame, v.i1)))
  }

  function Walk3(mem: Memory, e: Entry, v: Va): Mapping {
    if !e.present then Fault
    else if e.size then Leaf(e, e.frame - e.frame % 0x4_0000 + 512 * v.i2 + v.i1)
    else Through(e, Walk2(mem, At(mem, e.frame, v.i2), v))
  }

  function Walk4(mem: Memory, e: Entry, v: Va): Mapping {
    if !e.present then Fault
    else Through(e, Walk3(mem, At(mem, e.frame, v.i3), v))
  }

  /** The frame and rights that the tables at `root` give to the page v. */
  function Walk(mem: Memory, root: nat, v: Va): Mapping {
    Walk4(mem, At(mem, root, v.i4), v)
  }

  /** PML4 entries are never leaves (their bit 7 is reserved). */
  predicate NoGiantRoot(mem: Memory, root: nat) {
    forall i :: 0 <= i < 512 ==> !At(mem, root, i).size
  }

  /** m with the rights that the three upper entries on the way to v grant. */
  function OnPath(mem: Memory, root: nat, v: Va, m: Mapping): Mapping {
    var e4 := At(mem, root, v.i4);
    var e3 := At(mem, e4.frame, v.i3);
    var e2 := At(mem, e3.frame, v.i2);
    Through(e4, Through(e3, Through(e2, m)))
  }

  // ---- Hierarchies as labelled trees ----

  /** The place of a table in a hierarchy: the indices on the way to it. */
  datatype Node = N4 | N3(i4: nat) | N2(i4: nat, i3: nat) | N1(i4: nat, i3: nat, i2: nat)

  function Child(n: Node, i: nat): Node
    requires !n.N1?
  {
    match n
    case N4 => N3(i)
    case N3(i4) => N2(i4, i)
    case N2(i4, i3) => N1(i4, i3, i)
  }

  function AtNode(v: Va): Node { N1(v.i4, v.i3, v.i2) }

  function Down(mem: Memory, t: Option<nat>, i: nat): Option<nat> {
    if t.Some? && Ptr(At(mem, t.value, i)) then Some(At(mem, t.value, i).frame) else None
  }

  /** The table found at node n, following pointers from the root. */
  function Find(mem: Memory, root: nat, n: Node): Option<nat> {
    match n
    case N4 => Some(root)
    case N3(i4) => Down(mem, Some(root), i4)
    case N2(i4, i3) => Down(mem, Down(mem, Some(root), i4), i3)
    case N1(i4, i3, i2) => Down(mem, Down(mem, Down(mem, Some(root), i4), i3), i2)
  }

  type Labels = map<nat, Node>

  predicate Follows(mem: Memory, labels: Labels, f: nat, i: nat)
    requires f in labels
  {
    !labels[f].N1? && Ptr(At(mem, f, i)) ==>
      var g := At(mem, f, i).frame;
      g in labels && labels[g] == Child(labels[f], i)
  }

  /** `labels` names every table of the hierarchy at `root` once, by its only place in it. */
  ghost predicate IsTree(mem: Memory, root: nat, labels: Labels) {
    && root in labels && labels[root] == N4
    && (forall f :: f in labels ==> IsTable(mem, f))
    && (forall f, i :: f in labels && 0 <= i < 512 ==> Follows(mem, labels, f, i))
    && (forall f :: f in labels ==> Find(mem, root, labels[f]) == Some(f))
  }

  ghost predicate Agree(mem: Memory, mem': Memory, s: set<nat>) {
    forall f :: f in s && f in mem ==> f in mem' && mem'[f] == mem[f]
  }

  lemma WalkFollows(mem: Memory, root: nat, labels: Labels, v: Va)
    requires IsTree(mem, root, labels) && Canonical(v)
    ensures var e4 := At(mem, root, v.i4);
            Ptr(e4) ==>
              && e4.frame in labels && labels[e4.frame] == N3(v.i4)
              && var e3 := At(mem, e4.frame, v.i3);
                 Ptr(e3) ==>
                   && e3.frame in labels && labels[e3.frame] == N2(v.i4, v.i3)
                   && var e2 := At(mem, e3.frame, v.i2);
                      Ptr(e2) ==> e2.frame in labels && labels[e2.frame] == N1(v.i4, v.i3, v.i2)
  {
    assert Follows(mem, labels, root, v.i4);
    var e4 := At(mem, root, v.i4);
    if Ptr(e4) {
      assert Follows(mem, labels, e4.frame, v.i3);
      var e3 := At(mem, e4.frame, v.i3);
      if Ptr(e3) {
        assert Follows(mem, labels, e3.frame, v.i2);
      }
    }
  }

  /** A translation depends on the tables of its own hierarchy only. */
  lemma WalkAgrees(mem: Memory, mem': Memory, root: nat, labels: Labels, v: Va)
    requires IsTree(mem, root, labels) && Canonical(v) && NoGiantRoot(mem, root)
    requires Agree(mem, mem', labels.Keys)
    ensures Walk(mem', root, v) == Walk(mem, root, v)
  {
    WalkFollows(mem, root, labels, v);
  }

  lemma TreeAgrees(mem: Memory, mem': Memory, root: nat, labels: Labels)
    requires IsTree(mem, root, labels)
    requires Agree(mem, mem', labels.Keys)
    ensures IsTree(mem', root, labels)
  {
    forall f, i | f in labels && 0 <= i < 512 ensures Follows(mem', labels, f, i) {
      assert Follows(mem, labels, f, i);
    }
    forall f | f in labels ensures Find(mem', root, labels[f]) == Some(f) {
      FindAgrees(mem, mem', root, labels, f);
    }
  }

  lemma FindAgrees(mem: Memory, mem': Memory, root: nat, labels: Labels, f: nat)
    requires IsTree(mem, root, labels) && f in labels
    requires Agree(mem, mem', labels.Keys)
    ensures Find(mem', root, labels[f]) == Some(f)
  {
    assert Find(mem, root, labels[f]) == Some(f);
    match labels[f]
    case N4 =>
    case N3(i4) =>
    case N2(i4, i3) => WalkFollows(mem, root, labels, Va(i4, i3, 0, 0));
    case N1(i4, i3, i2) => WalkFollows(mem, root, labels, Va(i4, i3, i2, 0));
  }

  // ---- Changing one entry of a tree ----

  /** Writing an entry of a last-level table keeps the hierarchy. */
  lemma SetLeafTree(mem: Memory, root: nat, labels: Labels, pt: nat, i1: nat, e: Entry, mem': Memory)
    requires IsTree(mem, root, labels) && pt in labels && labels[pt].N1? && i1 < 512
    requires mem' == WithEntry(mem, pt, i1, e)
    ensures IsTree(mem', root, labels)
  {
    forall f, i | f in labels && 0 <= i < 512 ensures Follows(mem', labels, f, i) {
      assert Follows(mem, labels, f, i);
    }
    forall f | f in labels ensures Find(mem', root, labels[f]) == Some(f) {
      var v := match labels[f]
        case N4 => Va(0, 0, 0, 0)
        case N3(i4) => Va(i4, 0, 0, 0)
        case N2(i4, i3) => Va(i4, i3, 0, 0)
        case N1(i4, i3, i2) => Va(i4, i3, i2, 0);
      assert Find(mem, root, labels[f]) == Some(f);
      WalkFollows(mem, root, labels, v);
    }
  }

  /** It changes the translation of one page only. */
  lemma SetLeafWalk(mem: Memory, root: nat, labels: Labels, pt: nat, i1: nat, e: Entry, mem': Memory, v: Va)
    requires IsTree(mem, root, labels) && pt in labels && labels[pt].N1? && i1 < 512
    requires mem' == WithEntry(mem, pt, i1, e) && NoGiantRoot(mem, root) && Canonical(v)
    ensures Walk(mem', root, v)
         == if AtNode(v) == labels[pt] && v.i1 == i1 then OnPath(mem, root, v, Walk1(e)) else Walk(mem, root, v)
  {
    WalkFollows(mem, root, labels, v);
    assert Find(mem, root, labels[pt]) == Some(pt);
  }

  predicate NoPointers(p: Page) {
    p.Table? && forall k :: 0 <= k < |p.entries| ==> !Ptr(p.entries[k])
  }

  ghost predicate Linked(mem: Memory, labels: Labels, g: nat, i: nat, c: nat, p: Page, e: Entry, mem': Memory,
                         labels': Labels)
  {
    && g in labels && !labels[g].N1? && i < 512 && IsTable(mem, g) && !Ptr(At(mem, g, i))
    && c !in labels && Ptr(e) && e.frame == c
    && p.Table? && |p.entries| == 512 && (labels[g].N2? || NoPointers(p))
    && mem' == WithEntry(mem, g, i, e)[c := p]
    && labels' == labels[c := Child(labels[g], i)]
  }

  /** Hanging a new table under an entry that was not a pointer keeps a tree. */
  lemma LinkTree(mem: Memory, root: nat, labels: Labels, g: nat, i: nat, c: nat, p: Page, e: Entry,
                 mem': Memory, labels': Labels)
    requires IsTree(mem, root, labels)
    requires Linked(mem, labels, g, i, c, p, e, mem', labels')
    ensures IsTree(mem', root, labels')
  {
    forall f, k | f in labels' && 0 <= k < 512 ensures Follows(mem', labels', f, k) {
      if f != c {
        assert Follows(mem, labels, f, k);
      }
    }
    forall f | f in labels' ensures Find(mem', root, labels'[f]) == Some(f) {
      LinkFind(mem, root, labels, g, i, c, p, e, mem', labels', if f == c then g else f);
    }
  }

  lemma LinkFind(mem: Memory, root: nat, labels: Labels, g: nat, i: nat, c: nat, p: Page, e: Entry,
                 mem': Memory, labels': Labels, f: nat)
    requires IsTree(mem, root, labels) && f in labels
    requires Linked(mem, labels, g, i, c, p, e, mem', labels')
    ensures Find(mem', root, labels[f]) == Some(f)
  {
    assert Find(mem, root, labels[f]) == Some(f);
    match labels[f]
    case N4 =>
    case N3(i4) =>
    case N2(i4, i3) => WalkFollows(mem, root, labels, Va(i4, i3, 0, 0));
    case N1(i4, i3, i2) => WalkFollows(mem, root, labels, Va(i4, i3, i2, 0));
  }

  /** The entries on the way to v, before and after. */
  lemma LinkPath(mem: Memory, root: nat, labels: Labels, g: nat, i: nat, c: nat, p: Page, e: Entry,
                 mem': Memory, labels': Labels, v: Va)
    requires IsTree(mem, root, labels) && Canonical(v)
    requires Linked(mem, labels, g, i, c, p, e, mem', labels')
    ensures At(mem', root, v.i4) == if labels[g] == N4 && i == v.i4 then e else At(mem, root, v.i4)
    ensures var e4 := At(mem, root, v.i4);
            Ptr(e4) ==>
              && At(mem', e4.frame, v.i3)
                 == (if labels[g] == N3(v.i4) && i == v.i3 then e else At(mem, e4.frame, v.i3))
              && var e3 := At(mem, e4.frame, v.i3);
                 Ptr(e3) ==>
                   && At(mem', e3.frame, v.i2)
                      == (if labels[g] == N2(v.i4, v.i3) && i == v.i2 then e else At(mem, e3.frame, v.i2))
                   && var e2 := At(mem, e3.frame, v.i2);
                      Ptr(e2) ==> At(mem', e2.frame, v.i1) == At(mem, e2.frame, v.i1)
  {
    WalkFollows(mem, root, labels, v);
    assert Find(mem, root, labels[g]) == Some(g);
  }

  /** An empty table under an absent entry: every page is as before. */
  lemma LinkEmptyWalk(mem: Memory, root: nat, labels: Labels, g: nat, i: nat, c: nat, e: Entry,
                      mem': Memory, labels': Labels, v: Va)
    requires IsTree(mem, root, labels) && NoGiantRoot(mem, root) && Canonical(v)
    requires Linked(mem, labels, g, i, c, EmptyTable(), e, mem', labels') && !At(mem, g, i).present
    ensures Walk(mem', root, v) == Walk(mem, root, v)
  {
    LinkPath(mem, root, labels, g, i, c, EmptyTable(), e, mem', labels', v);
    assert Find(mem, root, labels[g]) == Some(g);
    assert forall k :: 0 <= k < 512 ==> At(mem', c, k) == EMPTY;
  }

  /** A large page replaced by a table of its 512 small pages: every page is as before. */
  lemma LinkSplitWalk(mem: Memory, root: nat, labels: Labels, g: nat, i: nat, c: nat, p: Page, e: Entry,
                      mem': Memory, labels': Labels, v: Va)
    requires IsTree(mem, root, labels) && NoGiantRoot(mem, root) && Canonical(v)
    requires Linked(mem, labels, g, i, c, p, e, mem', labels')
    requires labels[g].N2? && At(mem, g, i).present
    requires forall k :: 0 <= k < 512 ==>
      Through(e, Walk1(p.entries[k])) == Leaf(At(mem, g, i), Base2M(At(mem, g, i)) + k)
    ensures Walk(mem', root, v) == Walk(mem, root, v)
  {
    LinkPath(mem, root, labels, g, i, c, p, e, mem', labels', v);
    assert Find(mem, root, labels[g]) == Some(g);
    assert At(mem', c, v.i1) == p.entries[v.i1];
  }
}

/** Entries as the 64-bit words that the hardware reads. */
module EntryWords {
  import opened Frames
  import opened PageTables

  function Bit(b: bool, v: nat): nat { if b then v else 0 }

  /** The flag bits 0, 1, 2, 4, 7 and 63 and the address in bits 12 to 51. */
  function ToWord(e: Entry): nat {
    Bit(e.present, 1) + Bit(e.write, 2) + Bit(e.user, 4) + Bit(e.pcd, 16) + Bit(e.size, 128)
    + e.frame * 0x1000 + Bit(e.nx, 0x8000_0000_0000_0000)
  }

  function FromWord(w: nat): Entry {
    var low, high := w % 0x1000, w / 0x1000;
    Entry(low % 2 == 1, low / 2 % 2 == 1, low / 4 % 2 == 1, low / 16 % 2 == 1, low / 128 % 2 == 1,
          high / 0x8_0000_0000_0000 % 2 == 1, high % 0x100_0000_0000)
  }

  /** An entry's word is 64 bits wide and gives the entry back, so that comparing words is
      comparing entries. */
  lemma WordRoundTrip(e: Entry)
    requires e.frame < 0x100_0000_0000
    ensures FromWord(ToWord(e)) == e && ToWord(e) < 0x1_0000_0000_0000_0000
  {
    var low := Bit(e.present, 1) + Bit(e.write, 2) + Bit(e.user, 4) + Bit(e.pcd, 16) + Bit(e.size, 128);
    var high := e.frame + Bit(e.nx, 0x8_0000_0000_0000);
    LowBits(low, e);
    HighBits(high, e);
    hide Bit;
    assert ToWord(e) == low + high * 0x1000 by { NxBit(e.nx); }
    Parts(low, high);
  }

  lemma NxBit(b: bool)
    ensures Bit(b, 0x8000_0000_0000_0000) == Bit(b, 0x8_0000_0000_0000) * 0x1000
  {
  }

  lemma Parts(low: nat, high: nat)
    requires low < 0x1000
    ensures (low + high * 0x1000) % 0x1000 == low && (low + high * 0x1000) / 0x1000 == high
  {
  }

  lemma LowBits(low: nat, e: Entry)
    requires low == Bit(e.present, 1) + Bit(e.write, 2) + Bit(e.user, 4) + Bit(e.pcd, 16) + Bit(e.size, 128)
    ensures low < 0x1000 && (low % 2 == 1) == e.present && (low / 2 % 2 == 1) == e.write && (low / 4 % 2 == 1) == e.user
    ensures (low / 16 % 2 == 1) == e.pcd && (low / 128 % 2 == 1) == e.size
  {
  }

  lemma HighBits(high: nat, e: Entry)
    requires high == e.frame + Bit(e.nx, 0x8_0000_0000_0000) && e.frame < 0x100_0000_0000
    ensures high < 0x10_0000_0000_0000 && high % 0x100_0000_0000 == e.frame
    ensures (high / 0x8_0000_0000_0000 % 2 == 1) == e.nx
  {
  }

  /** The words that the source's constructors make of a page-aligned address. */
  lemma SourceWords(f: nat, writable: bool, user: bool, executable: bool)
    ensures ToWord(TableEntry(f)) == f * 0x1000 + 3 && ToWord(TableEntryUser(f)) == f * 0x1000 + 7
    ensures ToWord(Page2M(f)) == f * 0x1000 + 0x83 && ToWord(Page4KUc(f)) == f * 0x1000 + 0x13
    ensures ToWord(Page4K(f, writable, user, executable))
         == f * 0x1000 + 1 + (if writable then 2 else 0) + (if user then 4 else 0)
            + (if executable then 0 else 0x8000_0000_0000_0000)
    ensures ToWord(EMPTY) == 0
  {
  }

  /** Every frame that the allocator can hand out, and every page below 2^52, fits an entry: the
      words written for it read back as the entries of the model. */
  lemma FramesFit(f: nat, writable: bool, user: bool, executable: bool)
    requires f < MAX_FRAME_COUNT || f * 0x1000 < 0x10_0000_0000_0000
    ensures FromWord(ToWord(TableEntry(f))) == TableEntry(f)
    ensures FromWord(ToWord(TableEntryUser(f))) == TableEntryUser(f)
    ensures FromWord(ToWord(Page2M(f))) == Page2M(f) && FromWord(ToWord(Page4KUc(f))) == Page4KUc(f)
    ensures FromWord(ToWord(Page4K(f, writable, user, executable))) == Page4K(f, writable, user, executable)
  {
    hide ToWord, FromWord;
    WordRoundTrip(TableEntry(f));
    WordRoundTrip(TableEntryUser(f));
    WordRoundTrip(Page2M(f));
    WordRoundTrip(Page4KUc(f));
    WordRoundTrip(Page4K(f, writable, user, executable));
  }
}
