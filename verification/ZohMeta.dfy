// The superblock, bitmap and inode table of ZohFS on the disk: src/fs/zohfs.rs.

/** How mkfs and flush_root_dir lay out the metadata, how init reads it, and that the two agree. */
module ZohMeta {
  import opened Wrappers
  import opened Bytes
  import opened Numbers
  import opened Disks
  import opened BufferCache
  import opened ZohFiles

  /** The blocks that mkfs finds room for on a disk of so many sectors. */
  function BlocksOn(sectors: nat): nat { if sectors < DATA_START then 0
                                        else (sectors - DATA_START) / SECTORS_PER_BLOCK }

  const MAGIC := 0x5A4F_4853
  const BITMAP_WORDS := 64
  const BITMAP_BYTES := 3584
  const INODE_SLOT := 1024

  // ---- Words of the bitmap ----

  function TwoTo(n: nat): (p: nat)
    ensures p > 0
  {
    if n == 0 then 1 else 2 * TwoTo(n - 1)
  }

  /** The number with these bits, the lowest first. */
  function BitsValue(bits: seq<bool>): (v: nat)
    ensures v < TwoTo(|bits|)
  {
    if bits == [] then 0 else (if bits[0] then 1 else 0) + 2 * BitsValue(bits[1..])
  }

  /** The n lowest bits of v. */
  function ValueBits(v: nat, n: nat): (bits: seq<bool>)
    ensures |bits| == n
  {
    if n == 0 then [] else [v % 2 == 1] + ValueBits(v / 2, n - 1)
  }

  lemma {:induction false} BitsRoundTrip(bits: seq<bool>)
    ensures ValueBits(BitsValue(bits), |bits|) == bits
  {
    if bits != [] {
      BitsRoundTrip(bits[1..]);
      var v := BitsValue(bits);
      assert v / 2 == BitsValue(bits[1..]) && (v % 2 == 1) == bits[0];
    }
  }

  lemma {:induction false} TwoToBytes(n: nat)
    ensures TwoTo(8 * n) == Pow256(n)
  {
    if n > 0 {
      TwoToBytes(n - 1);
      var k := 8 * (n - 1);
      assert TwoTo(k + 8) == 2 * TwoTo(k + 7) && TwoTo(k + 7) == 2 * TwoTo(k + 6) && TwoTo(k + 6) == 2 * TwoTo(k + 5);
      assert TwoTo(k + 5) == 2 * TwoTo(k + 4) && TwoTo(k + 4) == 2 * TwoTo(k + 3) && TwoTo(k + 3) == 2 * TwoTo(k + 2);
      assert TwoTo(k + 2) == 2 * TwoTo(k + 1) && TwoTo(k + 1) == 2 * TwoTo(k);
    }
  }

  function WordBytes(bits: seq<bool>): (b: seq<byte>)
    ensures |b| == 8
  {
    ToLe(BitsValue(bits), 8)
  }

  function WordBits(b: seq<byte>): (bits: seq<bool>)
    ensures |bits| == 64
  {
    ValueBits(FromLe(b), 64)
  }

  lemma WordRoundTrip(bits: seq<bool>)
    requires |bits| == 64
    ensures WordBits(WordBytes(bits)) == bits
  {
    TwoToBytes(8);
    FromToLe(BitsValue(bits), 8);
    BitsRoundTrip(bits);
  }

  /** The bits of the first n words. */
  function BitmapIn(b: seq<byte>, n: nat): (bits: seq<bool>)
    requires 8 * n <= |b|
    ensures |bits| == 64 * n
  {
    if n == 0 then [] else BitmapIn(b, n - 1) + WordBits(b[8 * (n - 1)..8 * n])
  }

  /** The words of a bitmap, one after the other. */
  method PackBitmap(bits: seq<bool>) returns (b: seq<byte>)
    requires |bits| == BITMAP_BITS
    ensures |b| == BITMAP_BYTES && BitmapIn(b, BITMAP_WORDS) == bits
  {
    hide WordBytes, WordBits, BitmapIn;
    b := Zeros(BITMAP_BYTES);
    var i := 0;
    BitmapStart(b);
    while i < BITMAP_WORDS
      invariant 0 <= i <= BITMAP_WORDS && |b| == BITMAP_BYTES && BitmapIn(b, i) == bits[..64 * i]
    {
      var word := bits[64 * i..64 * i + 64];
      ghost var before := b;
      b := Splice(b, 8 * i, WordBytes(word));
      BitmapStep(before, b, i, word);
      assert bits[..64 * i + 64] == bits[..64 * i] + word;
      i := i + 1;
    }
    assert bits[..64 * i] == bits;
  }

  lemma BitmapStart(b: seq<byte>)
    ensures BitmapIn(b, 0) == []
  {
  }

  lemma BitmapStep(b: seq<byte>, b': seq<byte>, i: nat, word: seq<bool>)
    requires 8 * i + 8 <= |b| && |word| == 64 && b' == Splice(b, 8 * i, WordBytes(word))
    ensures BitmapIn(b', i + 1) == BitmapIn(b, i) + word
  {
    hide WordBytes, WordBits;
    BitmapKept(b, b', i);
    WordRoundTrip(word);
    assert b'[8 * i..8 * i + 8] == WordBytes(word);
  }

  lemma {:induction false} BitmapKept(b: seq<byte>, b': seq<byte>, n: nat)
    requires 8 * n <= |b| && 8 * n <= |b'| && forall k :: 0 <= k < 8 * n ==> b'[k] == b[k]
    ensures BitmapIn(b', n) == BitmapIn(b, n)
  {
    if n > 0 {
      BitmapKept(b, b', n - 1);
      assert b'[8 * (n - 1)..8 * n] == b[8 * (n - 1)..8 * n];
    }
  }

  // ---- Inodes ----

  /** Numbers of four bytes each. */
  function Quads(v: seq<nat>): (b: seq<byte>)
    ensures |b| == 4 * |v|
  {
    if v == [] then [] else Quads(v[..|v| - 1]) + ToLe(v[|v| - 1], 4)
  }

  function QuadAt(b: seq<byte>, at: nat): nat
    requires at + 4 <= |b|
  {
    FromLe(b[at..at + 4])
  }

  lemma {:induction false} QuadsRoundTrip(v: seq<nat>, k: nat)
    requires k < |v| && v[k] < SIZE_LIMIT
    ensures QuadAt(Quads(v), 4 * k) == v[k]
  {
    var n := |v| - 1;
    if k < n {
      QuadsRoundTrip(v[..n], k);
      assert Quads(v)[4 * k..4 * k + 4] == Quads(v[..n])[4 * k..4 * k + 4];
    } else {
      Pow256Values();
      FromToLe(v[n], 4);
      assert Quads(v)[4 * n..4 * n + 4] == ToLe(v[n], 4);
    }
  }

  /** The struct in memory order: two bytes of padding after the mode, and three numbers that stay 0. */
  function InodeBytes(ino: Inode, pad: seq<byte>): seq<byte> {
    ToLe(ino.mode, 2) + pad + Quads([ino.size, ino.blockCount] + ino.direct + [0, 0, 0])
  }

  function ParseInode(b: seq<byte>): Inode
    requires |b| >= 64
  {
    Inode(FromLe(b[..2]), QuadAt(b, 4), QuadAt(b, 8),
          seq(DIRECT_BLOCKS, k requires 0 <= k < DIRECT_BLOCKS => QuadAt(b, 12 + 4 * k)))
  }

  /** Every field fits its width on the disk. */
  ghost predicate InodeFits(ino: Inode) {
    && ino.mode < 0x1_0000 && ino.size < SIZE_LIMIT && ino.blockCount < SIZE_LIMIT && |ino.direct| == DIRECT_BLOCKS
    && forall k :: 0 <= k < DIRECT_BLOCKS ==> ino.direct[k] < SIZE_LIMIT
  }

  lemma InodeRoundTrip(ino: Inode, pad: seq<byte>, rest: seq<byte>)
    requires InodeFits(ino) && |pad| == 2
    ensures |InodeBytes(ino, pad)| == 64 && ParseInode(InodeBytes(ino, pad) + rest) == ino
  {
    hide ToLe, FromLe, Quads;
    var v := [ino.size, ino.blockCount] + ino.direct + [0, 0, 0];
    var b := InodeBytes(ino, pad) + rest;
    Pow256Values();
    FromToLe(ino.mode, 2);
    assert b[..2] == ToLe(ino.mode, 2);
    forall k: nat | k < 12 ensures QuadAt(b, 4 + 4 * k) == v[k] {
      QuadsRoundTrip(v, k);
      assert b[4 + 4 * k..8 + 4 * k] == Quads(v)[4 * k..4 * k + 4];
    }
    assert QuadAt(b, 4 + 4 * 0) == v[0] && QuadAt(b, 4 + 4 * 1) == v[1];
    forall k | 0 <= k < DIRECT_BLOCKS ensures QuadAt(b, 12 + 4 * k) == ino.direct[k] {
      assert QuadAt(b, 4 + 4 * (k + 2)) == v[k + 2];
    }
    assert ParseInode(b).direct == ino.direct;
  }

  /** The inodes in the first n slots of the table. */
  function InodesIn(b: seq<byte>, n: nat): (inodes: seq<Inode>)
    requires INODE_SLOT * n <= |b|
    ensures |inodes| == n
  {
    if n == 0 then [] else InodesIn(b, n - 1) + [ParseInode(b[INODE_SLOT * (n - 1)..INODE_SLOT * n])]
  }

  /** The inode table, with whatever the padding holds. */
  method PackInodes(inodes: seq<Inode>, pads: seq<seq<byte>>) returns (b: seq<byte>)
    requires |inodes| == |pads| == MAX_INODES
    requires forall n :: 0 <= n < MAX_INODES ==> InodeFits(inodes[n]) && |pads[n]| == 2
    ensures |b| == INODE_SLOT * MAX_INODES && InodesIn(b, MAX_INODES) == inodes
  {
    hide InodeBytes, InodesIn, InodeFits;
    b := Zeros(INODE_SLOT * MAX_INODES);
    var i := 0;
    InodesStart(b);
    while i < MAX_INODES
      invariant 0 <= i <= MAX_INODES && |b| == INODE_SLOT * MAX_INODES && InodesIn(b, i) == inodes[..i]
    {
      InodeRoundTrip(inodes[i], pads[i], []);
      ghost var before := b;
      b := Splice(b, INODE_SLOT * i, InodeBytes(inodes[i], pads[i]));
      InodesStep(before, b, i, inodes[i], pads[i]);
      i := i + 1;
    }
    assert inodes[..i] == inodes;
  }

  lemma InodesStart(b: seq<byte>)
    ensures InodesIn(b, 0) == []
  {
  }

  lemma InodesStep(b: seq<byte>, b': seq<byte>, i: nat, ino: Inode, pad: seq<byte>)
    requires INODE_SLOT * i + INODE_SLOT <= |b| && InodeFits(ino) && |pad| == 2 && |InodeBytes(ino, pad)| == 64
    requires b' == Splice(b, INODE_SLOT * i, InodeBytes(ino, pad))
    ensures InodesIn(b', i + 1) == InodesIn(b, i) + [ino]
  {
    hide InodeBytes, ParseInode, InodeFits;
    InodesKept(b, b', i);
    var at := INODE_SLOT * i;
    var rest := b'[at + 64..at + INODE_SLOT];
    InodeRoundTrip(ino, pad, rest);
    SliceSplit(b', at, at + 64, at + INODE_SLOT);
  }

  lemma {:induction false} InodesKept(b: seq<byte>, b': seq<byte>, n: nat)
    requires INODE_SLOT * n <= |b| && INODE_SLOT * n <= |b'| && forall k :: 0 <= k < INODE_SLOT * n ==> b'[k] == b[k]
    ensures InodesIn(b', n) == InodesIn(b, n)
  {
    hide ParseInode;
    if n > 0 {
      InodesKept(b, b', n - 1);
      assert b'[INODE_SLOT * (n - 1)..INODE_SLOT * n] == b[INODE_SLOT * (n - 1)..INODE_SLOT * n];
    }
  }

  // ---- The superblock ----

  /** Thirteen numbers, and what lies behind them in the sector. */
  function SuperBytes(total: nat, free: nat, rest: seq<byte>): seq<byte> {
    Quads([MAGIC, 1, BLOCK_SIZE, total, MAX_INODES, free, 1, 1, 8, DATA_START, 0, 0, 0]) + rest
  }

  predicate IsZohFs(b: seq<byte>) { |b| == SECTOR_SIZE && QuadAt(b, 0) == MAGIC }

  function TotalIn(b: seq<byte>): nat
    requires |b| == SECTOR_SIZE
  {
    QuadAt(b, 12)
  }

  lemma SuperRoundTrip(total: nat, free: nat, rest: seq<byte>)
    requires total < SIZE_LIMIT && |rest| == SECTOR_SIZE - 52
    ensures var b := SuperBytes(total, free, rest);
            IsZohFs(b) && TotalIn(b) == total && QuadAt(b, 36) == DATA_START
  {
    hide ToLe, FromLe;
    var v := [MAGIC, 1, BLOCK_SIZE, total, MAX_INODES, free, 1, 1, 8, DATA_START, 0, 0, 0];
    var b := SuperBytes(total, free, rest);
    hide Quads;
    assert b[0..4] == Quads(v)[0..4] && b[12..16] == Quads(v)[12..16] && b[36..40] == Quads(v)[36..40];
    QuadsRoundTrip(v, 0);
    QuadsRoundTrip(v, 3);
    QuadsRoundTrip(v, 9);
  }

  // ---- The metadata on a disk ----

  /** The disk says: a filesystem of `total` blocks, with this bitmap and these inodes. */
  ghost predicate Recorded(sectors: Sectors, total: nat, bitmap: seq<bool>, inodes: seq<Inode>) {
    && |sectors| >= DATA_START && Sized(sectors)
    && IsZohFs(sectors[0]) && TotalIn(sectors[0]) == total && QuadAt(sectors[0], 36) == DATA_START
    && |Join(sectors, 1, 7)| == BITMAP_BYTES && |Join(sectors, 8, 64)| == INODE_SLOT * MAX_INODES
    && BitmapIn(Join(sectors, 1, 7), BITMAP_WORDS) == bitmap
    && InodesIn(Join(sectors, 8, 64), MAX_INODES) == inodes
  }

  lemma {:induction false} JoinChunks(sectors: Sectors, first: nat, n: nat, buf: seq<byte>)
    requires first + n <= |sectors| && n * SECTOR_SIZE <= |buf|
    requires forall s :: first <= s < first + n ==> sectors[s] == Chunk(buf, s - first)
    ensures Join(sectors, first, n) == buf[..n * SECTOR_SIZE]
  {
    if n > 0 {
      JoinChunks(sectors, first, n - 1, buf);
      SliceSplit(buf, 0, (n - 1) * SECTOR_SIZE, n * SECTOR_SIZE);
    }
  }

  /** The writes of mkfs and of flush_root_dir record what they encode. */
  lemma WritesRecord(sectors: Sectors, total: nat, free: nat, rest: seq<byte>, b: seq<byte>, table: seq<byte>)
    requires |sectors| >= DATA_START && Sized(sectors) && total < SIZE_LIMIT && |rest| == SECTOR_SIZE - 52
    requires |b| == BITMAP_BYTES && |table| == INODE_SLOT * MAX_INODES
    requires forall s :: 0 <= s < DATA_START ==>
      sectors[s] == if s == 0 then SuperBytes(total, free, rest) else if s < 8 then Chunk(b, s - 1)
                    else Chunk(table, s - 8)
    ensures Recorded(sectors, total, BitmapIn(b, BITMAP_WORDS), InodesIn(table, MAX_INODES))
  {
    hide SuperBytes, BitmapIn, InodesIn, Join, Chunk;
    SuperRoundTrip(total, free, rest);
    JoinChunks(sectors, 1, 7, b);
    JoinChunks(sectors, 8, 64, table);
    assert b[..7 * SECTOR_SIZE] == b && table[..64 * SECTOR_SIZE] == table;
  }

  /** What is not written to sectors 0 to 71 is not recorded: a later mount finds the old state. */
  lemma NotRecorded(sectors: Sectors, sectors': Sectors, total: nat, bitmap: seq<bool>, inodes: seq<Inode>)
    requires Recorded(sectors, total, bitmap, inodes) && Sized(sectors') && KeepsMetadata(sectors, sectors')
    ensures Recorded(sectors', total, bitmap, inodes)
  {
    hide BitmapIn, InodesIn, Join;
    JoinKept(sectors, sectors', 1, 7);
    JoinKept(sectors, sectors', 8, 64);
  }

  /** The inodes of a filesystem fit the disk. */
  lemma InodesFit(bitmap: seq<bool>, inodes: seq<Inode>, total: nat)
    requires FsOk(bitmap, inodes, total)
    ensures |inodes| == MAX_INODES && forall n :: 0 <= n < MAX_INODES ==> InodeFits(inodes[n])
  {
    forall n | 0 <= n < MAX_INODES ensures InodeFits(inodes[n]) {
      FileOk(bitmap, inodes, total, n);
    }
  }

  // ---- The same, sector by sector ----

  lemma {:induction false} ValueBit(v: nat, n: nat, k: nat)
    requires k < n
    ensures ValueBits(v, n)[k] == (v / TwoTo(k) % 2 == 1)
  {
    if k > 0 {
      ValueBit(v / 2, n - 1, k - 1);
      HalfOf(v, TwoTo(k - 1));
    }
  }

  lemma HalfOf(v: nat, p: nat)
    requires p > 0
    ensures v / 2 / p == v / (2 * p)
  {
    var q := v / 2 / p;
    var r := v / 2 - q * p;
    QuotientIs(v, 2 * p, q, 2 * r + v % 2);
  }

  lemma QuotientIs(v: nat, d: nat, q: nat, r: nat)
    requires v == q * d + r && r < d
    ensures v / d == q
  {
    if v / d < q {
      MulStep(v / d, q, d);
    } else if v / d > q {
      MulStep(q, v / d, d);
    }
  }

  /** Bit k of the bytes is bit k % 8 of byte k / 8. */
  lemma {:induction false} BytesBit(b: seq<byte>, n: nat, k: nat)
    requires n == 8 * |b| && k < n
    ensures ValueBits(FromLe(b), n)[k] == (b[k / 8] as nat / TwoTo(k % 8) % 2 == 1)
  {
    hide ValueBits, TwoTo, FromLe;
    var rest := FromLe(b[1..]);
    FromLeFirst(b);
    if k < 8 {
      ValueBit(FromLe(b), n, k);
      LowBit(b[0] as nat, rest, 8, k);
    } else {
      BitsBehind(FromLe(b), n, k);
      BytesBit(b[1..], n - 8, k - 8);
      assert b[1..][(k - 8) / 8] == b[k / 8];
    }
  }

  lemma FromLeFirst(b: seq<byte>)
    requires b != []
    ensures FromLe(b) == b[0] as nat + TwoTo(8) * FromLe(b[1..]) && FromLe(b) / 256 == FromLe(b[1..])
  {
    TwoToBytes(1);
  }

  /** Bits from place m on do not touch bit k. */
  lemma {:induction false} LowBit(x: nat, w: nat, m: nat, k: nat)
    requires k < m
    ensures (x + TwoTo(m) * w) / TwoTo(k) % 2 == x / TwoTo(k) % 2
  {
    var half := TwoTo(m - 1) * w;
    assert TwoTo(m) * w == 2 * half;
    if k > 0 {
      LowBit(x / 2, w, m - 1, k - 1);
      assert (x + 2 * half) / 2 == x / 2 + half;
      HalfOf(x, TwoTo(k - 1));
      HalfOf(x + 2 * half, TwoTo(k - 1));
    }
  }

  lemma BitsBehind(v: nat, n: nat, k: nat)
    requires 8 <= k < n
    ensures ValueBits(v, n)[k] == ValueBits(v / 256, n - 8)[k - 8]
  {
    hide ValueBits;
    Quarters(v);
    TwoBehind(v, n, k);
    TwoBehind(v / 4, n - 2, k - 2);
    TwoBehind(v / 16, n - 4, k - 4);
    TwoBehind(v / 64, n - 6, k - 6);
  }

  lemma Quarters(v: nat)
    ensures v / 4 / 4 == v / 16 && v / 16 / 4 == v / 64 && v / 64 / 4 == v / 256
  {
  }

  lemma TwoBehind(v: nat, n: nat, k: nat)
    requires 2 <= k < n
    ensures ValueBits(v, n)[k] == ValueBits(v / 4, n - 2)[k - 2]
  {
  }

  lemma {:induction false} BitmapBit(b: seq<byte>, n: nat, k: nat)
    requires 8 * n <= |b| && k < 64 * n
    ensures BitmapIn(b, n)[k] == (b[k / 8] as nat / TwoTo(k % 8) % 2 == 1)
  {
    hide ValueBits, TwoTo, FromLe;
    var start := 64 * (n - 1);
    if k < start {
      BitmapBit(b, n - 1, k);
    } else {
      var word := b[8 * (n - 1)..8 * n];
      BytesBit(word, 64, k - start);
      assert word[(k - start) / 8] == b[k / 8];
    }
  }

  lemma {:induction false} InodeOf(b: seq<byte>, n: nat, i: nat)
    requires INODE_SLOT * n <= |b| && i < n
    ensures InodesIn(b, n)[i] == ParseInode(b[INODE_SLOT * i..INODE_SLOT * i + INODE_SLOT])
  {
    hide ParseInode;
    if i < n - 1 {
      InodeOf(b, n - 1, i);
    }
  }

  /** Bit k of the bitmap is bit k % 8 of byte k / 8 of the sector. */
  ghost predicate BitmapSector(sector: seq<byte>, bitmap: seq<bool>) {
    && |sector| == 512 && |bitmap| == 4096
    && forall k: nat :: k < 4096 ==> (bitmap[k] <==> sector[k / 8] as nat / TwoTo(k % 8) % 2 == 1)
  }

  /** The sector starts with the mode, two bytes that do not matter, the size, the count and ten block numbers. */
  ghost predicate InodeSector(sector: seq<byte>, ino: Inode) {
    && |sector| == 512 && |ino.direct| == 10
    && FromLe(sector[0..2]) == ino.mode && FromLe(sector[4..8]) == ino.size && FromLe(sector[8..12]) == ino.blockCount
    && forall k: nat :: k < 10 ==> FromLe(sector[12 + 4 * k..16 + 4 * k]) == ino.direct[k]
  }

  lemma SlotSector(b: seq<byte>, sector: seq<byte>)
    requires |b| == INODE_SLOT && |sector| == 512 && b[..512] == sector
    ensures InodeSector(sector, ParseInode(b))
  {
    hide FromLe;
    assert b[..2] == sector[0..2] && b[4..8] == sector[4..8] && b[8..12] == sector[8..12];
    forall k: nat | k < 10 ensures b[12 + 4 * k..16 + 4 * k] == sector[12 + 4 * k..16 + 4 * k] {
    }
  }

  /** Where on the disk everything is: the superblock in sector 0, the bitmap in sector 1, and inode n
      in sector 8 + 2 * n. */
  lemma MetadataLayout(sectors: Sectors, total: nat, bitmap: seq<bool>, inodes: seq<Inode>)
    requires Recorded(sectors, total, bitmap, inodes)
    ensures |sectors| >= 72 && |sectors[0]| == 512 && FromLe(sectors[0][0..4]) == 0x5A4F_4853
    ensures FromLe(sectors[0][12..16]) == total && FromLe(sectors[0][36..40]) == 72
    ensures BitmapSector(sectors[1], bitmap)
    ensures |inodes| == 32 && forall n: nat :: n < 32 ==> InodeSector(sectors[8 + 2 * n], inodes[n])
  {
    hide Join, BitmapIn, InodesIn, ParseInode, FromLe, TwoTo, InodeSector;
    var marks, table := Join(sectors, 1, 7), Join(sectors, 8, 64);
    JoinParts(sectors, 1, 7);
    JoinParts(sectors, 8, 64);
    forall k: nat | k < 4096 ensures bitmap[k] <==> sectors[1][k / 8] as nat / TwoTo(k % 8) % 2 == 1 {
      BitmapBit(marks, BITMAP_WORDS, k);
      assert marks[512 * 0..512 * 0 + 512] == sectors[1 + 0];
    }
    forall n: nat | n < 32 ensures InodeSector(sectors[8 + 2 * n], inodes[n]) {
      InodeOf(table, MAX_INODES, n);
      var slot := table[INODE_SLOT * n..INODE_SLOT * n + INODE_SLOT];
      assert table[512 * (2 * n)..512 * (2 * n) + 512] == sectors[8 + 2 * n];
      SliceOfSlice(table, INODE_SLOT * n, INODE_SLOT * n + INODE_SLOT, 0, 512);
      SlotSector(slot, sectors[8 + 2 * n]);
    }
  }
}
