// What a task reads of its program: src/main.rs (spawn_userspace_task).

/** What a spawned program looks like from inside its own address space. */
module Programs {
  import opened Wrappers
  import opened Bytes
  import opened PageTables
  import opened KernelTables
  import opened UserTables
  import opened Scheduler

  /** The byte that a user program reads at a virtual address. */
  function ByteAt(mem: Memory, root: nat, va: nat): Option<byte> {
    var m := Walk(mem, root, Indices(va));
    if m.Mapped? && m.user && m.frame in mem && mem[m.frame].Data? && va % 4096 < |mem[m.frame].bytes|
    then Some(mem[m.frame].bytes[va % 4096]) else None
  }

  /** The first segment that starts at va, with bytes in the file. */
  function Loader(segments: seq<Segment>, va: nat): Option<Segment> {
    if segments == [] then None
    else if segments[0].vaddr == va then Some(segments[0])
    else Loader(segments[1..], va)
  }

  /** A page as spawn_userspace_task fills it: the start of the segment that begins there, or zeros. */
  function PageImage(segments: seq<Segment>, elf: seq<byte>, va: nat): seq<byte> {
    var s := Loader(segments, va);
    if s.Some? && s.value.filesz > 0 && s.value.offset + Min(4096, s.value.filesz) <= |elf|
    then Splice(Zeros(4096), 0, elf[s.value.offset..s.value.offset + Min(4096, s.value.filesz)])
    else Zeros(4096)
  }

  // ---- Addresses and pages ----

  /** The addresses below 512 GiB have PML4 index 0. */
  const LOW_END := 0x80_0000_0000

  lemma IndicesInjective(a: nat, b: nat)
    requires a < LOW_END && b < LOW_END && a / 4096 != b / 4096
    ensures Indices(a) != Indices(b)
  {
    PageNumber(a);
    PageNumber(b);
    hide Indices;
  }

  lemma PageNumber(a: nat)
    requires a < LOW_END
    ensures var v := Indices(a); a / 4096 == v.i3 * 0x4_0000 + v.i2 * 512 + v.i1
  {
    var p := a / 4096;
    assert a / 0x20_0000 == p / 512;
    assert a / 0x4000_0000 == p / 0x4_0000;
    assert p / 512 / 512 == p / 0x4_0000;
    assert p == 512 * (p / 512) + p % 512;
    assert p / 512 == 512 * (p / 0x4_0000) + (p / 512) % 512;
  }

  // ---- Segments in the address space ----

  /** va lies on a page of the segment. */
  predicate OnPages(s: Segment, va: nat) {
    s.memsz > 0 && s.vaddr - s.vaddr % 4096 <= va && va - va % 4096 < s.vaddr + s.memsz
  }

  lemma CoversLow(s: Segment, va: nat)
    requires s.vaddr + s.memsz <= LOW_END && va < LOW_END
    ensures Covers(s, Indices(va)) <==> OnPages(s, va)
  {
    hide Indices;
    if OnPages(s, va) {
      var a := if va < s.vaddr + s.memsz then va else va - va % 4096;
      SamePage(a, va);
    } else if Covers(s, Indices(va)) {
      var a: nat :| s.vaddr - s.vaddr % 4096 <= a < s.vaddr + s.memsz && Indices(a) == Indices(va);
      assert a / 4096 == va / 4096 by {
        if a / 4096 != va / 4096 { IndicesInjective(a, va); }
      }
      assert false;
    }
  }

  /** Below 512 GiB, address by address: on the pages of a segment, but not of a later one or the stack, the page is
      open to the task, writable exactly if bit 1 of the segment's flags is set, and executable exactly
      if bit 0 is. An address on no such page translates as in the kernel. */
  lemma AddressRights(mem0: Memory, kroot: nat, mem: Memory, root: nat, segments: seq<Segment>, data: set<nat>, va: nat)
    requires SegmentsMapped(mem0, kroot, mem, root, segments, data)
    requires va < LOW_END && forall s :: s in segments ==> s.vaddr + s.memsz <= LOW_END
    requires va / 4096 != STACK_VA / 4096
    ensures forall i :: 0 <= i < |segments| && OnPages(segments[i], va)
                        && (forall j :: i < j < |segments| ==> !OnPages(segments[j], va)) ==>
              var m, flags := Walk(mem, root, Indices(va)), segments[i].flags;
              && m.Mapped? && m.frame in data && m.user == !Tabled(mem0, kroot, Indices(va))
              && (m.write <==> flags / 2 % 2 == 1) && (m.nx <==> flags % 2 == 0) && !m.pcd
    ensures (forall s :: s in segments ==> !OnPages(s, va)) ==>
      Walk(mem, root, Indices(va)) == Walk(mem0, kroot, Indices(va))
  {
    hide Indices, Walk, Tabled, Covers, OnPages;
    CanonicalIndices(va);
    IndicesInjective(va, STACK_VA);
    forall s | s in segments ensures Covers(s, Indices(va)) <==> OnPages(s, va) {
      CoversLow(s, va);
    }
    LowIndex(va);
    var v := Indices(va);
    assert MappedAs(mem0, kroot, segments, data, v, Walk(mem, root, v));
    forall i | 0 <= i < |segments| && OnPages(segments[i], va)
               && forall j :: i < j < |segments| ==> !OnPages(segments[j], va)
      ensures LastCover(segments, v, i)
    {
      assert segments[i] in segments;
      forall j | i < j < |segments| ensures !Covers(segments[j], v) {
        assert segments[j] in segments;
      }
    }
  }

  lemma LowIndex(va: nat)
    requires va < LOW_END
    ensures Indices(va).i4 == 0
  {
  }

  /** The frames of the pages hold what the loader put there. */
  ghost predicate Filled(mem: Memory, pages: seq<UserPage>, segments: seq<Segment>, elf: seq<byte>) {
    forall k :: 0 <= k < |pages| ==>
      pages[k].frame in mem && mem[pages[k].frame] == Data(PageImage(segments, elf, pages[k].req.vaddr))
  }

  /** The byte of the program at offset k, as the loader copies it: the first page only. */
  function Copied(code: seq<byte>, k: nat): byte { if k < 4096 && k < |code| then code[k] else 0 }

  /** The addresses of a program: its own pages and the stack page. */
  predicate InProgram(code: seq<byte>, va: nat) {
    USER_BASE_VA <= va && (va - va % 4096 < USER_BASE_VA + |code| || STACK_VA <= va < STACK_VA + 4096)
  }

  /** The program given is the program seen, on its first page; its other pages and its stack page
      are zero. A page in a last-level table of the kernel, as it was before, is not seen at all. */
  ghost predicate ProgramSeen(mem0: Memory, kroot: nat, mem: Memory, root: nat, code: seq<byte>) {
    forall va: nat :: InProgram(code, va) ==>
      ByteAt(mem, root, va) == if Tabled(mem0, kroot, Indices(va)) then None else Some(Copied(code, va - USER_BASE_VA))
  }

  /** The whole program is seen if and only if none of its pages lies in a last-level table of the
      kernel and what lies past its first page is zero. */
  lemma WholeProgramSeen(mem0: Memory, kroot: nat, mem: Memory, root: nat, code: seq<byte>)
    requires ProgramSeen(mem0, kroot, mem, root, code)
    ensures (forall va: nat :: USER_BASE_VA <= va < USER_BASE_VA + |code| ==>
               ByteAt(mem, root, va) == Some(code[va - USER_BASE_VA]))
       <==> (forall va: nat :: USER_BASE_VA <= va < USER_BASE_VA + |code| ==> !Tabled(mem0, kroot, Indices(va)))
            && (forall k :: 4096 <= k < |code| ==> code[k] == 0)
  {
    hide ByteAt, Tabled, Indices;
    if forall va: nat :: USER_BASE_VA <= va < USER_BASE_VA + |code| ==>
      ByteAt(mem, root, va) == Some(code[va - USER_BASE_VA]) {
      forall va: nat | USER_BASE_VA <= va < USER_BASE_VA + |code|
        ensures !Tabled(mem0, kroot, Indices(va)) && (va - USER_BASE_VA >= 4096 ==> code[va - USER_BASE_VA] == 0)
      {
        assert InProgram(code, va);
      }
      forall k | 4096 <= k < |code| ensures code[k] == 0 {
        assert ByteAt(mem, root, USER_BASE_VA + k) == Some(code[k]);
        assert !Tabled(mem0, kroot, Indices(USER_BASE_VA + k));
      }
    } else if forall va: nat :: USER_BASE_VA <= va < USER_BASE_VA + |code| ==> !Tabled(mem0, kroot, Indices(va)) {
      var va: nat :| USER_BASE_VA <= va < USER_BASE_VA + |code|
                     && ByteAt(mem, root, va) != Some(code[va - USER_BASE_VA]);
      assert InProgram(code, va) && !Tabled(mem0, kroot, Indices(va));
    }
  }

  /** A program of 4097 bytes whose last byte is 1 is not the program seen: that byte reads 0. */
  lemma LongProgram(mem0: Memory, kroot: nat, mem: Memory, root: nat)
    requires ProgramSeen(mem0, kroot, mem, root, LONG_PROGRAM)
    requires !Tabled(mem0, kroot, Indices(USER_BASE_VA + 4096))
    ensures LONG_PROGRAM[4096] == 1 && ByteAt(mem, root, USER_BASE_VA + 4096) == Some(0)
  {
    hide ByteAt, Tabled;
    assert InProgram(LONG_PROGRAM, USER_BASE_VA + 4096);
  }

  const LONG_PROGRAM: seq<byte> := seq(4097, k => if k == 4096 then 1 else 0)

  /** spawn_userspace_task's only segment. */
  function CodeSegment(code: seq<byte>): Segment { Segment(USER_BASE_VA, 120, |code|, |code|, 7) }

  lemma PageSeen(mem0: Memory, kroot: nat, mem: Memory, root: nat, pages: seq<UserPage>, segments: seq<Segment>,
                 elf: seq<byte>, j: nat, va: nat)
    requires Walk(mem, root, Indices(va)) == Expect(mem0, kroot, pages, Indices(va))
    requires Filled(mem, pages, segments, elf)
    requires j < |pages| && pages[j].req.vaddr / 4096 == va / 4096
    requires forall m :: j < m < |pages| ==> pages[m].req.vaddr / 4096 != va / 4096
    requires va < LOW_END && forall m :: 0 <= m < |pages| ==> pages[m].req.vaddr < LOW_END
    ensures ByteAt(mem, root, va) == if Tabled(mem0, kroot, Indices(va)) then None
                                     else Some(PageImage(segments, elf, pages[j].req.vaddr)[va % 4096])
    ensures Walk(mem, root, Indices(va)) == Given(mem0, kroot, pages[j])
  {
    hide Walk, Tabled;
    SamePage(pages[j].req.vaddr, va);
    forall m | j < m < |pages| ensures Indices(pages[m].req.vaddr) != Indices(va) {
      IndicesInjective(pages[m].req.vaddr, va);
    }
    ExpectLast(mem0, kroot, pages, j, Indices(va));
  }

  lemma ProgramIsSeen(mem0: Memory, kroot: nat, mem: Memory, root: nat, pages: seq<UserPage>, elf: seq<byte>,
                      code: seq<byte>)
    requires forall v :: Canonical(v) ==> Walk(mem, root, v) == Expect(mem0, kroot, pages, v)
    requires Filled(mem, pages, [CodeSegment(code)], elf)
    requires Requests(pages) == Wanted([CodeSegment(code)]) + [STACK]
    requires USER_BASE_VA + |code| <= LOW_END && |elf| == 120 + |code| && elf[120..] == code
    ensures ProgramSeen(mem0, kroot, mem, root, code)
  {
    hide ByteAt, Expect, Walk, Filled, Requests, Tabled, Indices;
    forall va: nat | InProgram(code, va)
      ensures ByteAt(mem, root, va)
           == if Tabled(mem0, kroot, Indices(va)) then None else Some(Copied(code, va - USER_BASE_VA))
    {
      CanonicalIndices(va);
      if STACK_VA <= va < STACK_VA + 4096 {
        StackByteSeen(mem0, kroot, mem, root, pages, elf, code, va);
      } else {
        CodeByteSeen(mem0, kroot, mem, root, pages, elf, code, va);
      }
    }
  }

  lemma CanonicalIndices(va: nat)
    ensures Canonical(Indices(va))
  {
  }

  lemma CodeByteSeen(mem0: Memory, kroot: nat, mem: Memory, root: nat, pages: seq<UserPage>, elf: seq<byte>,
                     code: seq<byte>, va: nat)
    requires Walk(mem, root, Indices(va)) == Expect(mem0, kroot, pages, Indices(va))
    requires Filled(mem, pages, [CodeSegment(code)], elf)
    requires Requests(pages) == Wanted([CodeSegment(code)]) + [STACK]
    requires USER_BASE_VA + |code| <= LOW_END && |elf| == 120 + |code| && elf[120..] == code
    requires InProgram(code, va) && !(STACK_VA <= va < STACK_VA + 4096)
    ensures ByteAt(mem, root, va)
         == if Tabled(mem0, kroot, Indices(va)) then None else Some(Copied(code, va - USER_BASE_VA))
  {
    hide ByteAt, Expect, Walk, Filled, PageImage, Tabled;
    CodePages(code, pages);
    hide SegmentPages, Requests, Wanted;
    var n, j := |SegmentPages(CodeSegment(code))|, va / 4096 - 1024;
    PagesFromAt(USER_BASE_VA, USER_BASE_VA + |code|, true, true, j);
    hide PagesFrom;
    forall m | j < m < |pages| ensures pages[m].req.vaddr / 4096 != va / 4096 {
      if m < n {
        assert pages[m].req.vaddr == USER_BASE_VA + 4096 * m;
      } else {
        assert pages[m].req.vaddr == STACK_VA;
      }
    }
    PageSeen(mem0, kroot, mem, root, pages, [CodeSegment(code)], elf, j, va);
    CodeImage(code, elf, USER_BASE_VA + 4096 * j, va % 4096);
  }

  lemma StackByteSeen(mem0: Memory, kroot: nat, mem: Memory, root: nat, pages: seq<UserPage>, elf: seq<byte>,
                      code: seq<byte>, va: nat)
    requires Walk(mem, root, Indices(va)) == Expect(mem0, kroot, pages, Indices(va))
    requires Filled(mem, pages, [CodeSegment(code)], elf)
    requires Requests(pages) == Wanted([CodeSegment(code)]) + [STACK]
    requires USER_BASE_VA + |code| <= LOW_END && |elf| == 120 + |code| && elf[120..] == code
    requires STACK_VA <= va < STACK_VA + 4096
    ensures ByteAt(mem, root, va)
         == if Tabled(mem0, kroot, Indices(va)) then None else Some(Copied(code, va - USER_BASE_VA))
  {
    hide ByteAt, Expect, Walk, Filled, PageImage, Tabled;
    CodePages(code, pages);
    hide SegmentPages, Requests, Wanted, PagesFrom;
    PageSeen(mem0, kroot, mem, root, pages, [CodeSegment(code)], elf, |pages| - 1, va);
    CodeImage(code, elf, STACK_VA, va % 4096);
  }

  /** The pages of a flat program: its code from USER_BASE_VA on, then the stack. */
  lemma CodePages(code: seq<byte>, pages: seq<UserPage>)
    requires Requests(pages) == Wanted([CodeSegment(code)]) + [STACK]
    requires USER_BASE_VA + |code| <= LOW_END
    ensures var n := |SegmentPages(CodeSegment(code))|;
            && |pages| == n + 1 && pages[n].req == STACK
            && forall m :: 0 <= m < n ==> pages[m].req == Request(USER_BASE_VA + 4096 * m, true, true)
    ensures SegmentPages(CodeSegment(code)) == PagesFrom(USER_BASE_VA, USER_BASE_VA + |code|, true, true)
    ensures forall m :: 0 <= m < |pages| ==> pages[m].req.vaddr < LOW_END
  {
    var wanted := SegmentPages(CodeSegment(code));
    assert Wanted([CodeSegment(code)]) == Wanted([]) + wanted == wanted;
    var n := |wanted|;
    assert |Requests(pages)| == |pages| == n + 1;
    forall m | 0 <= m <= n ensures pages[m].req == Requests(pages)[m] {
    }
    assert |code| == 0 ==> PagesFrom(USER_BASE_VA, USER_BASE_VA + |code|, true, true) == [];
    forall m | 0 <= m < n
      ensures pages[m].req == Request(USER_BASE_VA + 4096 * m, true, true) && pages[m].req.vaddr < LOW_END
    {
      PagesFromAll(USER_BASE_VA, USER_BASE_VA + |code|, true, true, m);
    }
  }

  lemma CodeImage(code: seq<byte>, elf: seq<byte>, va: nat, off: nat)
    requires |elf| == 120 + |code| && elf[120..] == code && off < 4096
    ensures PageImage([CodeSegment(code)], elf, va)[off]
         == if va == USER_BASE_VA && off < |code| then code[off] else 0
  {
    var s := CodeSegment(code);
    assert [s][1..] == [];
    assert Loader([], va) == None;
    if va == USER_BASE_VA && |code| > 0 {
      var n := Min(4096, |code|);
      assert elf[120..120 + n] == code[..n];
    }
  }
}
