// ELF64 images: src/elf_builder.rs and src/elf.rs. Offsets are those of the ELF Header and
// Program Header chapters of the System V gABI.

module Elf {
  import opened Wrappers
  import opened Numbers
  import opened Bytes

  const MAX_SEGMENTS := 8

  datatype ElfError = BadMagic | NotElf64 | NotExecutable | BadMachine | BadPhdr | TooManySegments

  /** A loadable segment; `offset` is where its bytes start in the file. */
  datatype ElfSegment = ElfSegment(vaddr: nat, paddr: nat, offset: nat, filesz: nat, memsz: nat, flags: nat)

  datatype ElfImage = ElfImage(entry: nat, segments: seq<ElfSegment>)

  function Field(b: seq<byte>, at: nat, n: nat): nat
    requires at + n <= |b|
  {
    FromLe(b[at..at + n])
  }

  // ---- What an image says ----

  function Entry(b: seq<byte>): nat requires |b| >= 64 { Field(b, 0x18, 8) }
  function PhOff(b: seq<byte>): nat requires |b| >= 64 { Field(b, 0x20, 8) }
  function PhEntSize(b: seq<byte>): nat requires |b| >= 64 { Field(b, 0x36, 2) }
  function PhNum(b: seq<byte>): nat requires |b| >= 64 { Field(b, 0x38, 2) }

  /** Where program header i starts. */
  function PhAt(b: seq<byte>, i: nat): nat
    requires |b| >= 64
  {
    PhOff(b) + i * PhEntSize(b)
  }

  predicate Magic(b: seq<byte>)
    requires |b| >= 64
  {
    b[0] == 0x7F && b[1] == 0x45 && b[2] == 0x4C && b[3] == 0x46
  }

  /** The first error in the ELF header, if any. */
  function HeaderError(b: seq<byte>): Option<ElfError> {
    if |b| < 64 then Some(BadMagic)
    else if !Magic(b) then Some(BadMagic)
    else if b[4] != 2 then Some(NotElf64)
    else if Field(b, 0x10, 2) != 2 then Some(NotExecutable)
    else if Field(b, 0x12, 2) != 0x3E then Some(BadMachine)
    else if PhEntSize(b) < 56 then Some(BadPhdr)
    else None
  }

  predicate IsLoad(b: seq<byte>, i: nat)
    requires |b| >= 64 && PhAt(b, i) + 56 <= |b|
  {
    Field(b, PhAt(b, i), 4) == 1
  }

  function SegmentAt(b: seq<byte>, i: nat): ElfSegment
    requires |b| >= 64 && PhAt(b, i) + 56 <= |b|
  {
    var p := PhAt(b, i);
    ElfSegment(Field(b, p + 16, 8), Field(b, p + 24, 8), Field(b, p + 8, 8), Field(b, p + 32, 8), Field(b, p + 40, 8),
               Field(b, p + 4, 4))
  }

  ghost predicate InBounds(b: seq<byte>, n: nat)
    requires |b| >= 64
  {
    forall i :: 0 <= i < n ==> PhAt(b, i) + 56 <= |b|
  }

  /** The PT_LOAD headers among the first n, in file order. */
  ghost function Loads(b: seq<byte>, n: nat): seq<ElfSegment>
    requires |b| >= 64 && InBounds(b, n)
  {
    if n == 0 then []
    else Loads(b, n - 1) + if IsLoad(b, n - 1) then [SegmentAt(b, n - 1)] else []
  }

  /** More headers are loadable than there is room for, before any lies outside the file. */
  ghost predicate TooMany(b: seq<byte>)
    requires |b| >= 64
  {
    exists n: nat :: n <= PhNum(b) && InBounds(b, n) && |Loads(b, n)| > MAX_SEGMENTS
  }

  // ---- The file format ----

  /** A program header with all its fields, in the order of the gABI. */
  datatype Header = Header(ptype: nat, flags: nat, offset: nat, vaddr: nat, paddr: nat, filesz: nat, memsz: nat,
                           align: nat)

  predicate FitsWidths(h: Header) {
    && h.ptype < Pow256(4) && h.flags < Pow256(4) && h.offset < Pow256(8) && h.vaddr < Pow256(8)
    && h.paddr < Pow256(8) && h.filesz < Pow256(8) && h.memsz < Pow256(8) && h.align < Pow256(8)
  }

  function HeaderBytes(h: Header): (b: seq<byte>)
    ensures |b| == 56
  {
    ToLe(h.ptype, 4) + ToLe(h.flags, 4) + ToLe(h.offset, 8) + ToLe(h.vaddr, 8) + ToLe(h.paddr, 8)
    + ToLe(h.filesz, 8) + ToLe(h.memsz, 8) + ToLe(h.align, 8)
  }

  /** The bytes of an x86-64 executable with these program headers, each in its place in a table of
      entries of `entsize` bytes at `phoff`. What else is in the file is left open. */
  ghost predicate LaidOut(b: seq<byte>, entry: nat, phoff: nat, entsize: nat, headers: seq<Header>) {
    && |b| >= 64 && b[..5] == [0x7F, 0x45, 0x4C, 0x46, 2] && b[16..20] == [2, 0, 0x3E, 0]
    && entry < Pow256(8) && b[24..32] == ToLe(entry, 8) && phoff < Pow256(8) && b[32..40] == ToLe(phoff, 8)
    && 56 <= entsize < Pow256(2) && b[54..56] == ToLe(entsize, 2)
    && |headers| < Pow256(2) && b[56..58] == ToLe(|headers|, 2)
    && forall i :: 0 <= i < |headers| ==> HeaderIn(b, phoff + i * entsize, headers[i])
  }

  ghost predicate HeaderIn(b: seq<byte>, at: nat, h: Header) {
    FitsWidths(h) && at + 56 <= |b| && b[at..at + 56] == HeaderBytes(h)
  }

  /** What the headers of type PT_LOAD say, in order. */
  function Loadable(headers: seq<Header>): seq<ElfSegment> {
    if headers == [] then []
    else
      var h := headers[|headers| - 1];
      Loadable(headers[..|headers| - 1])
      + if h.ptype == 1 then [ElfSegment(h.vaddr, h.paddr, h.offset, h.filesz, h.memsz, h.flags)] else []
  }

  /** The header's fields are where parse_elf reads them. */
  lemma HeaderFields(b: seq<byte>, at: nat, h: Header)
    requires HeaderIn(b, at, h)
    ensures Field(b, at, 4) == h.ptype && Field(b, at + 4, 4) == h.flags && Field(b, at + 8, 8) == h.offset
    ensures Field(b, at + 16, 8) == h.vaddr && Field(b, at + 24, 8) == h.paddr && Field(b, at + 32, 8) == h.filesz
    ensures Field(b, at + 40, 8) == h.memsz
  {
    hide ToLe, FromLe, Pow256;
    HeaderPart(b, at, h, 0, 4, h.ptype);
    HeaderPart(b, at, h, 4, 4, h.flags);
    HeaderPart(b, at, h, 8, 8, h.offset);
    HeaderPart(b, at, h, 16, 8, h.vaddr);
    HeaderPart(b, at, h, 24, 8, h.paddr);
    HeaderPart(b, at, h, 32, 8, h.filesz);
    HeaderPart(b, at, h, 40, 8, h.memsz);
  }

  lemma HeaderPart(b: seq<byte>, at: nat, h: Header, off: nat, n: nat, v: nat)
    requires HeaderIn(b, at, h) && off + n <= 56 && v < Pow256(n) && HeaderBytes(h)[off..off + n] == ToLe(v, n)
    ensures Field(b, at + off, n) == v
  {
    hide ToLe, FromLe, Pow256, HeaderBytes;
    FromToLe(v, n);
    SliceOfSlice(b, at, at + 56, off, off + n);
  }

  lemma {:induction false} LayoutLoads(b: seq<byte>, entry: nat, phoff: nat, entsize: nat, headers: seq<Header>, n: nat)
    requires |b| >= 64 && PhOff(b) == phoff && PhEntSize(b) == entsize && n <= |headers|
    requires forall i :: 0 <= i < |headers| ==> HeaderIn(b, phoff + i * entsize, headers[i])
    ensures InBounds(b, n) && Loads(b, n) == Loadable(headers[..n])
  {
    hide Field, HeaderIn;
    if n > 0 {
      LayoutLoads(b, entry, phoff, entsize, headers, n - 1);
      var h := headers[n - 1];
      assert PhAt(b, n - 1) == phoff + (n - 1) * entsize;
      assert HeaderIn(b, PhAt(b, n - 1), h);
      assert PhAt(b, n - 1) + 56 <= |b| by { HeaderEnd(b, PhAt(b, n - 1), h); }
      HeaderFields(b, PhAt(b, n - 1), h);
      assert headers[..n][..n - 1] == headers[..n - 1] && headers[..n][n - 1] == h;
    }
  }

  lemma HeaderEnd(b: seq<byte>, at: nat, h: Header)
    requires HeaderIn(b, at, h)
    ensures at + 56 <= |b|
  {
  }

  /** Every layout of a file is the one that parsing finds. */
  lemma LayoutParsed(b: seq<byte>, entry: nat, phoff: nat, entsize: nat, headers: seq<Header>)
    requires LaidOut(b, entry, phoff, entsize, headers)
    ensures HeaderError(b).None? && Entry(b) == entry && PhNum(b) == |headers| && InBounds(b, PhNum(b))
    ensures Loads(b, PhNum(b)) == Loadable(headers)
  {
    Pow256Values();
    FromToLe(entry, 8);
    FromToLe(phoff, 8);
    FromToLe(entsize, 2);
    FromToLe(|headers|, 2);
    assert FromLe([0]) == 0 && FromLe([2, 0]) == 2 && FromLe([0x3E, 0]) == 0x3E;
    hide ToLe, FromLe, Pow256;
    assert b[0] == b[..5][0] && b[1] == b[..5][1] && b[2] == b[..5][2] && b[3] == b[..5][3] && b[4] == b[..5][4];
    assert b[16..18] == b[16..20][..2] == [2, 0] && b[18..20] == b[16..20][2..] == [0x3E, 0];
    LayoutLoads(b, entry, phoff, entsize, headers, |headers|);
    assert headers[..|headers|] == headers;
  }

  lemma Layouts(b: seq<byte>)
    ensures forall entry, phoff, entsize, headers :: LaidOut(b, entry, phoff, entsize, headers) ==>
      && HeaderError(b).None? && Entry(b) == entry && InBounds(b, PhNum(b))
      && Loads(b, PhNum(b)) == Loadable(headers)
  {
    hide LaidOut, Loads;
    forall entry, phoff, entsize, headers | LaidOut(b, entry, phoff, entsize, headers)
      ensures HeaderError(b).None? && Entry(b) == entry && InBounds(b, PhNum(b))
      ensures Loads(b, PhNum(b)) == Loadable(headers)
    {
      LayoutParsed(b, entry, phoff, entsize, headers);
    }
  }

  /** The header whose bytes are at `at`. */
  function HeaderFrom(b: seq<byte>, at: nat): Header
    requires at + 56 <= |b|
  {
    Header(Field(b, at, 4), Field(b, at + 4, 4), Field(b, at + 8, 8), Field(b, at + 16, 8), Field(b, at + 24, 8),
           Field(b, at + 32, 8), Field(b, at + 40, 8), Field(b, at + 48, 8))
  }

  lemma FieldBytes(b: seq<byte>, at: nat, n: nat)
    requires at + n <= |b|
    ensures Field(b, at, n) < Pow256(n) && ToLe(Field(b, at, n), n) == b[at..at + n]
  {
    ToFromLe(b[at..at + n]);
  }

  lemma HeaderFound(b: seq<byte>, at: nat)
    requires at + 56 <= |b|
    ensures HeaderIn(b, at, HeaderFrom(b, at))
  {
    hide ToLe, Field, Pow256;
    FieldBytes(b, at, 4);
    FieldBytes(b, at + 4, 4);
    FieldBytes(b, at + 8, 8);
    FieldBytes(b, at + 16, 8);
    FieldBytes(b, at + 24, 8);
    FieldBytes(b, at + 32, 8);
    FieldBytes(b, at + 40, 8);
    FieldBytes(b, at + 48, 8);
    SliceSplit(b, at, at + 4, at + 8);
    SliceSplit(b, at, at + 8, at + 16);
    SliceSplit(b, at, at + 16, at + 24);
    SliceSplit(b, at, at + 24, at + 32);
    SliceSplit(b, at, at + 32, at + 40);
    SliceSplit(b, at, at + 40, at + 48);
    SliceSplit(b, at, at + 48, at + 56);
  }

  /** A file that is accepted has a layout. */
  lemma LayoutFound(b: seq<byte>)
    requires HeaderError(b).None? && InBounds(b, PhNum(b))
    ensures exists entry, phoff, entsize, headers :: LaidOut(b, entry, phoff, entsize, headers)
  {
    StartFound(b);
    hide ToLe, Pow256, HeaderError, HeaderIn, Entry, PhOff, PhEntSize, PhNum, InBounds;
    var headers := HeadersFound(b);
    assert LaidOut(b, Entry(b), PhOff(b), PhEntSize(b), headers);
  }

  lemma HeadersFound(b: seq<byte>) returns (headers: seq<Header>)
    requires |b| >= 64 && InBounds(b, PhNum(b))
    ensures |headers| == PhNum(b)
    ensures forall i :: 0 <= i < |headers| ==> HeaderIn(b, PhOff(b) + i * PhEntSize(b), headers[i])
  {
    hide HeaderIn, HeaderFrom, PhOff, PhEntSize, PhNum;
    headers := seq(PhNum(b), i requires 0 <= i < PhNum(b) => HeaderFrom(b, PhAt(b, i)));
    forall i | 0 <= i < |headers| ensures HeaderIn(b, PhOff(b) + i * PhEntSize(b), headers[i]) {
      HeaderFound(b, PhAt(b, i));
    }
  }

  lemma StartFound(b: seq<byte>)
    requires HeaderError(b).None?
    ensures b[..5] == [0x7F, 0x45, 0x4C, 0x46, 2] && b[16..20] == [2, 0, 0x3E, 0]
    ensures Entry(b) < Pow256(8) && b[24..32] == ToLe(Entry(b), 8)
    ensures PhOff(b) < Pow256(8) && b[32..40] == ToLe(PhOff(b), 8)
    ensures 56 <= PhEntSize(b) < Pow256(2) && b[54..56] == ToLe(PhEntSize(b), 2)
    ensures PhNum(b) < Pow256(2) && b[56..58] == ToLe(PhNum(b), 2)
  {
    MagicFound(b);
    KindFound(b);
    hide ToLe, FromLe, Pow256, Field, Magic;
    FieldBytes(b, 24, 8);
    FieldBytes(b, 32, 8);
    FieldBytes(b, 54, 2);
    FieldBytes(b, 56, 2);
  }

  lemma MagicFound(b: seq<byte>)
    requires |b| >= 64 && Magic(b) && b[4] == 2
    ensures b[..5] == [0x7F, 0x45, 0x4C, 0x46, 2]
  {
  }

  lemma KindFound(b: seq<byte>)
    requires |b| >= 64 && Field(b, 16, 2) == 2 && Field(b, 18, 2) == 0x3E
    ensures b[16..20] == [2, 0, 0x3E, 0]
  {
    hide ToLe, Field, Pow256;
    SmallBytes(2);
    SmallBytes(0x3E);
    FieldBytes(b, 16, 2);
    FieldBytes(b, 18, 2);
    assert b[16..20] == b[16..18] + b[18..20];
  }

  lemma SmallBytes(v: nat)
    requires v < 256
    ensures ToLe(v, 2) == [v as byte, 0]
  {
    assert ToLe(0, 1) == [0];
  }

  /** The header's errors on its bytes: the first four, the class at 4, the type at 16, the machine at 18. */
  lemma HeaderErrors(b: seq<byte>)
    ensures HeaderError(b) == Some(BadMagic) <==> |b| < 64 || b[..4] != [0x7F, 0x45, 0x4C, 0x46]
    ensures |b| >= 64 && b[..4] == [0x7F, 0x45, 0x4C, 0x46] ==>
      && (HeaderError(b) == Some(NotElf64) <==> b[4] != 2)
      && (HeaderError(b) == Some(NotExecutable) <==> b[4] == 2 && b[16..18] != [2, 0])
      && (HeaderError(b) == Some(BadMachine) <==> b[4] == 2 && b[16..18] == [2, 0] && b[18..20] != [0x3E, 0])
  {
    if |b| >= 64 {
      assert b[..4] == [b[0], b[1], b[2], b[3]];
      TwoBytes(b[16..18], 2);
      TwoBytes(b[18..20], 0x3E);
    }
  }

  lemma TwoBytes(s: seq<byte>, v: nat)
    requires |s| == 2 && v < 256
    ensures FromLe(s) == v <==> s == [v as byte, 0]
  {
    SmallBytes(v);
    ToFromLe(s);
    Pow256Values();
    FromToLe(v, 2);
  }

  /** parse_elf: Ok exactly when the header is good, every program header lies in the file and at
      most MAX_SEGMENTS are loadable; then the image is the entry point and the loadable headers.
      The error is the first one in file order. */
  method ParseElf(b: seq<byte>) returns (r: Result<ElfImage, ElfError>)
    ensures r.Ok? <==> HeaderError(b).None? && InBounds(b, PhNum(b)) && |Loads(b, PhNum(b))| <= MAX_SEGMENTS
    ensures r.Ok? ==> r.value == ElfImage(Entry(b), Loads(b, PhNum(b)))
    ensures HeaderError(b).Some? ==> r == Err(HeaderError(b).value)
    ensures r.Err? && HeaderError(b).None? ==> r.error == if TooMany(b) then TooManySegments else BadPhdr
    ensures forall entry, phoff, entsize, headers :: LaidOut(b, entry, phoff, entsize, headers) ==>
      r == if |Loadable(headers)| <= MAX_SEGMENTS then Ok(ElfImage(entry, Loadable(headers)))
           else Err(TooManySegments)
    ensures r.Ok? ==> exists entry, phoff, entsize, headers :: LaidOut(b, entry, phoff, entsize, headers)
  {
    Layouts(b);
    hide FromLe, Loads, LaidOut, Loadable;
    if |b| < 64 { return Err(BadMagic); }
    if b[0] != 0x7F || b[1] != 0x45 || b[2] != 0x4C || b[3] != 0x46 { return Err(BadMagic); }
    if b[4] != 2 { return Err(NotElf64); }
    if Field(b, 0x10, 2) != 2 { return Err(NotExecutable); }
    if Field(b, 0x12, 2) != 0x3E { return Err(BadMachine); }
    var entry := Field(b, 0x18, 8);
    var phoff := Field(b, 0x20, 8);
    var phentsize := Field(b, 0x36, 2);
    var phnum := Field(b, 0x38, 2);
    if phentsize < 56 { return Err(BadPhdr); }
    var segments: seq<ElfSegment> := [];
    var i := 0;
    LoadsStep(b, 0);
    while i < phnum
      invariant 0 <= i <= phnum && InBounds(b, i)
      invariant segments == Loads(b, i) && |segments| <= MAX_SEGMENTS
    {
      LoadsStep(b, i);
      var off := phoff + i * phentsize;
      assert off == PhAt(b, i);
      if off + 56 > |b| {
        FewBefore(b, i);
        return Err(BadPhdr);
      }
      var ptype := Field(b, off, 4);
      if ptype == 1 {
        var flags := Field(b, off + 4, 4);
        var offset := Field(b, off + 8, 8);
        var vaddr := Field(b, off + 16, 8);
        var paddr := Field(b, off + 24, 8);
        var filesz := Field(b, off + 32, 8);
        var memsz := Field(b, off + 40, 8);
        if |segments| >= MAX_SEGMENTS {
          LoadsGrow(b, i + 1, phnum);
          return Err(TooManySegments);
        }
        segments := segments + [ElfSegment(vaddr, paddr, offset, filesz, memsz, flags)];
      }
      i := i + 1;
    }
    LayoutFound(b);
    return Ok(ElfImage(entry, segments));
  }

  lemma LoadsStep(b: seq<byte>, n: nat)
    requires |b| >= 64
    ensures Loads(b, 0) == []
    ensures InBounds(b, n + 1) ==> Loads(b, n + 1) == Loads(b, n) + if IsLoad(b, n) then [SegmentAt(b, n)] else []
  {
  }

  /** Before a header outside the file there are not too many. */
  lemma FewBefore(b: seq<byte>, i: nat)
    requires |b| >= 64 && InBounds(b, i) && PhAt(b, i) + 56 > |b| && |Loads(b, i)| <= MAX_SEGMENTS
    ensures !TooMany(b)
  {
    hide Loads, PhAt;
    forall n: nat | InBounds(b, n) ensures |Loads(b, n)| <= MAX_SEGMENTS {
      assert n <= i;
      LoadsGrow(b, n, i);
    }
  }

  lemma {:induction false} LoadsGrow(b: seq<byte>, m: nat, n: nat)
    requires |b| >= 64 && m <= n
    ensures InBounds(b, n) ==> InBounds(b, m) && |Loads(b, m)| <= |Loads(b, n)|
    decreases n - m
  {
    if m < n {
      LoadsGrow(b, m, n - 1);
    }
  }

  // ---- The builder ----

  /** A 64-byte header, one program header for PT_LOAD with all rights, then the code. */
  ghost predicate IsFlat(b: seq<byte>, code: seq<byte>, load: nat) {
    && |b| == 120 + |code|
    && b[..5] == [0x7F, 0x45, 0x4C, 0x46, 2]
    && b[0x10..0x12] == [2, 0] && b[0x12..0x14] == [0x3E, 0]
    && b[0x18..0x20] == ToLe(load, 8) && b[0x20..0x28] == ToLe(64, 8)
    && b[0x36..0x38] == ToLe(56, 2) && b[0x38..0x3A] == ToLe(1, 2)
    && b[64..68] == ToLe(1, 4) && b[68..72] == ToLe(7, 4)
    && b[72..80] == ToLe(120, 8) && b[80..88] == ToLe(load, 8) && b[88..96] == ToLe(load, 8)
    && b[96..104] == ToLe(|code|, 8) && b[104..112] == ToLe(|code|, 8)
    && b[120..] == code
  }

  method BuildHeader(b: seq<byte>, load: nat) returns (r: seq<byte>)
    requires |b| >= 64
    ensures |r| == |b| && r[64..] == b[64..]
    ensures r[..5] == [0x7F, 0x45, 0x4C, 0x46, 2]
    ensures r[0x10..0x12] == [2, 0] && r[0x12..0x14] == [0x3E, 0]
    ensures r[0x18..0x20] == ToLe(load, 8) && r[0x20..0x28] == ToLe(64, 8)
    ensures r[0x36..0x38] == ToLe(56, 2) && r[0x38..0x3A] == ToLe(1, 2)
    ensures r[5..8] == [1, 1, 0] && r[0x14..0x18] == [1] + b[0x15..0x18] && r[0x34..0x36] == ToLe(64, 2)
    ensures r[8..16] == b[8..16] && r[0x28..0x34] == b[0x28..0x34] && r[0x3A..0x40] == b[0x3A..0x40]
  {
    hide ToLe;
    r := Splice(b, 0, [0x7F, 0x45, 0x4C, 0x46, 2, 1, 1, 0]);
    assert r[5] == 1 && r[6] == 1 && r[7] == 0;
    r := Splice(r, 0x10, [2, 0]);
    r := Splice(r, 0x12, [0x3E, 0]);
    r := r[0x14 := 1];
    ghost var start := r;
    r := BuildNumbers(r, load);
    SamePart(r, start, 0x18, 0, 5);
    SamePart(r, start, 0x18, 5, 8);
    SamePart(r, start, 0x18, 8, 16);
    SamePart(r, start, 0x18, 0x10, 0x12);
    SamePart(r, start, 0x18, 0x12, 0x14);
    SamePart(r, start, 0x18, 0x14, 0x18);
  }

  /** The fields from the entry point on. */
  method BuildNumbers(b: seq<byte>, load: nat) returns (r: seq<byte>)
    requires |b| >= 64
    ensures |r| == |b| && r[64..] == b[64..] && r[..0x18] == b[..0x18]
    ensures r[0x18..0x20] == ToLe(load, 8) && r[0x20..0x28] == ToLe(64, 8) && r[0x34..0x36] == ToLe(64, 2)
    ensures r[0x36..0x38] == ToLe(56, 2) && r[0x38..0x3A] == ToLe(1, 2)
    ensures r[0x28..0x34] == b[0x28..0x34] && r[0x3A..0x40] == b[0x3A..0x40]
  {
    hide ToLe;
    r := Splice(b, 0x18, ToLe(load, 8));
    r := Splice(r, 0x20, ToLe(64, 8));
    r := Splice(r, 0x34, ToLe(64, 2));
    r := Splice(r, 0x36, ToLe(56, 2));
    r := Splice(r, 0x38, ToLe(1, 2));
  }

  method BuildPhdr(b: seq<byte>, load: nat, len: nat) returns (r: seq<byte>)
    requires |b| >= 120
    ensures |r| == |b| && r[..64] == b[..64] && r[120..] == b[120..]
    ensures r[64..68] == ToLe(1, 4) && r[68..72] == ToLe(7, 4)
    ensures r[72..80] == ToLe(120, 8) && r[80..88] == ToLe(load, 8) && r[88..96] == ToLe(load, 8)
    ensures r[96..104] == ToLe(len, 8) && r[104..112] == ToLe(len, 8) && r[112..120] == ToLe(0x1000, 8)
  {
    hide ToLe;
    r := Splice(b, 64, ToLe(1, 4));
    r := Splice(r, 68, ToLe(7, 4));
    r := Splice(r, 72, ToLe(120, 8));
    r := Splice(r, 80, ToLe(load, 8));
    r := Splice(r, 88, ToLe(load, 8));
    r := Splice(r, 96, ToLe(len, 8));
    r := Splice(r, 104, ToLe(len, 8));
    r := Splice(r, 112, ToLe(0x1000, 8));
  }

  /** build_flat_elf: the file with that one program header, byte for byte. */
  method BuildFlatElf(code: seq<byte>, load: nat) returns (b: seq<byte>)
    ensures IsFlat(b, code, load)
    ensures b == ElfFile(load, 56, [Header(1, 7, 120, load, load, |code|, |code|, 0x1000)], code)
  {
    hide ToLe;
    b := Zeros(120 + |code|);
    b := BuildHeader(b, load);
    ghost var h := b;
    b := BuildPhdr(b, load, |code|);
    ghost var p := b;
    b := Splice(b, 120, code);
    assert b[..120] == p[..120];
    forall lo, hi | 0 <= lo <= hi <= 120 ensures b[lo..hi] == p[lo..hi] {
      SamePart(b, p, 120, lo, hi);
    }
    forall lo, hi | 0 <= lo <= hi <= 64 ensures b[lo..hi] == h[lo..hi] {
      SamePart(p, h, 64, lo, hi);
    }
    FlatIs(b, code, load);
  }

  lemma FlatIs(b: seq<byte>, code: seq<byte>, load: nat)
    requires IsFlat(b, code, load) && b[5..8] == [1, 1, 0] && b[0x14..0x18] == [1, 0, 0, 0]
    requires b[0x34..0x36] == ToLe(64, 2) && b[112..120] == ToLe(0x1000, 8)
    requires b[8..16] == Zeros(8) && b[0x28..0x34] == Zeros(12) && b[0x3A..0x40] == Zeros(6)
    ensures b == ElfFile(load, 56, [Header(1, 7, 120, load, load, |code|, |code|, 0x1000)], code)
  {
    hide ToLe;
    var h := Header(1, 7, 120, load, load, |code|, |code|, 0x1000);
    FlatStart(b, code, load);
    assert b[64..120] == b[64..68] + b[68..72] + b[72..80] + b[80..88] + b[88..96] + b[96..104] + b[104..112]
                         + b[112..120];
    assert b[64..120] == HeaderBytes(h);
    hide FileHeader, HeaderBytes;
    assert HeaderTable([], 56) == [] && [h][..0] == [];
    assert HeaderTable([h], 56) == HeaderBytes(h) + Zeros(0) == HeaderBytes(h);
    assert b == b[..64] + b[64..120] + b[120..];
  }

  lemma FlatStart(b: seq<byte>, code: seq<byte>, load: nat)
    requires IsFlat(b, code, load) && b[5..8] == [1, 1, 0] && b[0x14..0x18] == [1, 0, 0, 0]
    requires b[0x34..0x36] == ToLe(64, 2) && b[8..16] == Zeros(8) && b[0x28..0x34] == Zeros(12)
    requires b[0x3A..0x40] == Zeros(6)
    ensures b[..64] == FileHeader(load, 56, 1)
  {
    hide ToLe;
    hide Zeros;
    assert b[0..8] == b[..5] + b[5..8];
    assert b[16..24] == b[16..18] + b[18..20] + b[20..24];
    assert b[40..48] == b[40..52][..8] && b[48..52] == b[40..52][8..] && Zeros(12) == Zeros(8) + Zeros(4);
    SliceSplit(b, 0, 8, 16);
    SliceSplit(b, 0, 16, 24);
    SliceSplit(b, 0, 24, 32);
    SliceSplit(b, 0, 32, 40);
    SliceSplit(b, 0, 40, 48);
    SliceSplit(b, 0, 48, 52);
    SliceSplit(b, 0, 52, 54);
    SliceSplit(b, 0, 54, 56);
    SliceSplit(b, 0, 56, 58);
    SliceSplit(b, 0, 58, 64);
    assert b[..64] == b[0..64];
  }

  // ---- Any file ----

  /** The ELF header of an executable whose program headers follow it. */
  function FileHeader(entry: nat, entsize: nat, n: nat): (b: seq<byte>)
    ensures |b| == 64
  {
    [0x7F, 0x45, 0x4C, 0x46, 2, 1, 1, 0] + Zeros(8) + [2, 0, 0x3E, 0, 1, 0, 0, 0]
    + ToLe(entry, 8) + ToLe(64, 8) + Zeros(8) + Zeros(4) + ToLe(64, 2) + ToLe(entsize, 2) + ToLe(n, 2) + Zeros(6)
  }

  /** Program headers, each filled up to `entsize` bytes. */
  function HeaderTable(headers: seq<Header>, entsize: nat): (b: seq<byte>)
    requires entsize >= 56
    ensures |b| == |headers| * entsize
  {
    if headers == [] then []
    else
      var n := |headers| - 1;
      assert (n + 1) * entsize == n * entsize + entsize;
      HeaderTable(headers[..n], entsize) + HeaderBytes(headers[n]) + Zeros(entsize - 56)
  }

  function ElfFile(entry: nat, entsize: nat, headers: seq<Header>, rest: seq<byte>): seq<byte>
    requires entsize >= 56
  {
    FileHeader(entry, entsize, |headers|) + HeaderTable(headers, entsize) + rest
  }

  lemma {:induction false} TableEntry(headers: seq<Header>, entsize: nat, i: nat)
    requires entsize >= 56 && i < |headers|
    ensures i * entsize + entsize <= |headers| * entsize
    ensures HeaderTable(headers, entsize)[i * entsize..i * entsize + 56] == HeaderBytes(headers[i])
  {
    hide HeaderBytes;
    var n := |headers| - 1;
    MulStep(i, |headers|, entsize);
    var before := HeaderTable(headers[..n], entsize);
    assert HeaderTable(headers, entsize) == before + HeaderBytes(headers[n]) + Zeros(entsize - 56);
    if i < n {
      TableEntry(headers[..n], entsize, i);
      assert HeaderTable(headers, entsize)[i * entsize..i * entsize + 56] == before[i * entsize..i * entsize + 56];
    } else {
      assert |before| == i * entsize;
    }
  }

  /** Such a file has the layout that it was built from. */
  lemma FileLaidOut(entry: nat, entsize: nat, headers: seq<Header>, rest: seq<byte>)
    requires entry < Pow256(8) && 56 <= entsize < Pow256(2) && |headers| < Pow256(2)
    requires forall h :: h in headers ==> FitsWidths(h)
    ensures LaidOut(ElfFile(entry, entsize, headers, rest), entry, 64, entsize, headers)
  {
    hide FileHeader, ToLe, Pow256, FitsWidths, HeaderBytes, HeaderTable, HeaderIn;
    var b, head := ElfFile(entry, entsize, headers, rest), FileHeader(entry, entsize, |headers|);
    FileStart(entry, entsize, |headers|);
    assert 64 < Pow256(8) by { Pow256Values(); }
    assert b[..64] == head == head[..64];
    SamePart(b, head, 64, 0, 5);
    SamePart(b, head, 64, 16, 20);
    SamePart(b, head, 64, 24, 32);
    SamePart(b, head, 64, 32, 40);
    SamePart(b, head, 64, 54, 56);
    SamePart(b, head, 64, 56, 58);
    forall i | 0 <= i < |headers| ensures HeaderIn(b, 64 + i * entsize, headers[i]) {
      FileEntry(entry, entsize, headers, rest, i);
    }
  }

  lemma FileEntry(entry: nat, entsize: nat, headers: seq<Header>, rest: seq<byte>, i: nat)
    requires entsize >= 56 && i < |headers| && forall h :: h in headers ==> FitsWidths(h)
    ensures HeaderIn(ElfFile(entry, entsize, headers, rest), 64 + i * entsize, headers[i])
  {
    hide FileHeader, HeaderTable, FitsWidths, HeaderBytes;
    var b, table, at := ElfFile(entry, entsize, headers, rest), HeaderTable(headers, entsize), i * entsize;
    TableEntry(headers, entsize, i);
    assert b[64..64 + |table|] == table;
    SliceOfSlice(b, 64, 64 + |table|, at, at + 56);
    assert headers[i] in headers;
  }

  lemma FileStart(entry: nat, entsize: nat, n: nat)
    ensures var b := FileHeader(entry, entsize, n);
            && b[..5] == [0x7F, 0x45, 0x4C, 0x46, 2] && b[16..20] == [2, 0, 0x3E, 0]
            && b[24..32] == ToLe(entry, 8) && b[32..40] == ToLe(64, 8)
            && b[54..56] == ToLe(entsize, 2) && b[56..58] == ToLe(n, 2)
  {
    hide ToLe;
  }

  /** Parsing inverts building, for every entry point, every list of program headers, loadable or not, and
      every size of theirs from 56 up: the loadable ones come back, all fields of each. */
  method ParseBuilt(entry: nat, entsize: nat, headers: seq<Header>, rest: seq<byte>)
    returns (r: Result<ElfImage, ElfError>)
    requires entry < Pow256(8) && 56 <= entsize < Pow256(2) && |headers| < Pow256(2)
    requires forall h :: h in headers ==> FitsWidths(h)
    ensures r == if |Loadable(headers)| <= MAX_SEGMENTS then Ok(ElfImage(entry, Loadable(headers)))
                 else Err(TooManySegments)
  {
    hide LaidOut, ElfFile, FitsWidths, HeaderError, Loads, Loadable;
    FileLaidOut(entry, entsize, headers, rest);
    r := ParseElf(ElfFile(entry, entsize, headers, rest));
  }

  /** What two files begin with alike is alike in every part. */
  lemma SamePart(a: seq<byte>, b: seq<byte>, n: nat, lo: nat, hi: nat)
    requires lo <= hi <= n <= |a| && n <= |b| && a[..n] == b[..n]
    ensures a[lo..hi] == b[lo..hi]
  {
    forall i | 0 <= i < hi - lo ensures a[lo..hi][i] == b[lo..hi][i] {
      assert a[..n][lo + i] == b[..n][lo + i];
    }
  }

  lemma FlatHeader(b: seq<byte>, code: seq<byte>, load: nat)
    requires IsFlat(b, code, load) && load < Pow256(8)
    ensures Magic(b) && b[4] == 2 && Field(b, 0x10, 2) == 2 && Field(b, 0x12, 2) == 0x3E
    ensures Entry(b) == load && PhOff(b) == 64 && PhEntSize(b) == 56 && PhNum(b) == 1
  {
    Pow256Values();
    FromToLe(load, 8);
    FromToLe(64, 8);
    FromToLe(56, 2);
    FromToLe(1, 2);
    assert FromLe([0]) == 0 && FromLe([2, 0]) == 2 && FromLe([0x3E, 0]) == 0x3E;
    hide ToLe, FromLe, Pow256;
    assert b[0] == b[..5][0] && b[1] == b[..5][1] && b[2] == b[..5][2] && b[3] == b[..5][3] && b[4] == b[..5][4];
  }

  lemma FlatPhdr(b: seq<byte>, code: seq<byte>, load: nat)
    requires IsFlat(b, code, load) && load < Pow256(8) && |code| < Pow256(8)
    ensures Field(b, 64, 4) == 1 && Field(b, 68, 4) == 7 && Field(b, 72, 8) == 120 && Field(b, 80, 8) == load
    ensures Field(b, 88, 8) == load && Field(b, 96, 8) == |code| && Field(b, 104, 8) == |code|
  {
    Pow256Values();
    FromToLe(load, 8);
    FromToLe(|code|, 8);
    FromToLe(120, 8);
    FromToLe(1, 4);
    FromToLe(7, 4);
    hide ToLe, FromLe, Pow256;
  }

  /** Building and parsing are inverse: one segment, at the load address, holding the code. */
  lemma ParseOfFlat(b: seq<byte>, code: seq<byte>, load: nat)
    requires IsFlat(b, code, load) && load < Pow256(8) && |code| < Pow256(8)
    ensures HeaderError(b).None? && PhNum(b) == 1 && InBounds(b, 1) && Entry(b) == load
    ensures Loads(b, 1) == [ElfSegment(load, load, 120, |code|, |code|, 7)]
    ensures b[120..120 + |code|] == code
  {
    FlatHeader(b, code, load);
    FlatPhdr(b, code, load);
    hide Field, Pow256, ToLe;
    assert PhAt(b, 0) == 64;
    assert Loads(b, 0) == [];
  }
}
