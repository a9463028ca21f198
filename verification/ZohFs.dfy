// ZohFS file data, block allocation and inodes: src/fs/zohfs.rs.

/** Inodes, the blocks they own, and files as byte sequences. */
module ZohFiles {
  import opened Wrappers
  import opened Bytes
  import opened Disks
  import opened Files

  const BLOCK_SIZE := 4096
  const SECTORS_PER_BLOCK := 8
  const DIRECT_BLOCKS := 10
  const MAX_INODES := 32
  const MAX_FILE := 40960
  const DATA_START := 72
  const BITMAP_BITS := 4096
  const SIZE_LIMIT := 0x1_0000_0000
  const FILE_MODE := 0x81A4 // 0o100644

  datatype Inode = Inode(mode: nat, size: nat, blockCount: nat, direct: seq<nat>)

  const EMPTY_INODE := Inode(0, 0, 0, [0, 0, 0, 0, 0, 0, 0, 0, 0, 0])

  const ROOT_DIR := Inode(0x41ED, 0, 1, [1, 0, 0, 0, 0, 0, 0, 0, 0, 0]) // mode 0o40755

  predicate IsFile(ino: Inode) { ino.mode / 0x8000 % 2 == 1 }

  /** The blocks that n bytes need. */
  function BlocksFor(n: nat): nat { (n + BLOCK_SIZE - 1) / BLOCK_SIZE }

  /** The blocks of an inode fill the direct list from the front; a file has as many as its size needs. */
  ghost predicate InodeOk(ino: Inode, total: nat) {
    && |ino.direct| == DIRECT_BLOCKS && ino.blockCount <= DIRECT_BLOCKS
    && (forall i :: 0 <= i < DIRECT_BLOCKS ==> ino.direct[i] < total && (ino.direct[i] != 0 <==> i < ino.blockCount))
    && ino.mode < 0x1_0000 && ino.size < SIZE_LIMIT
    && (IsFile(ino) ==> ino.size <= MAX_FILE && ino.blockCount == BlocksFor(ino.size))
    && (ino.mode == 0 ==> ino.blockCount == 0 && ino.size == 0)
  }

  ghost function BlocksOf(ino: Inode): seq<nat> {
    if ino.blockCount <= |ino.direct| then ino.direct[..ino.blockCount] else []
  }

  /** Every block of an inode is marked used, and no block belongs to two inodes or twice to one. */
  ghost predicate FsOk(bitmap: seq<bool>, inodes: seq<Inode>, total: nat) {
    && |bitmap| == BITMAP_BITS && 1 <= total <= BITMAP_BITS && bitmap[0] && |inodes| == MAX_INODES
    && (forall n :: 0 <= n < MAX_INODES ==> InodeOk(inodes[n], total) && NoDups(BlocksOf(inodes[n])))
    && (forall n, i :: 0 <= n < MAX_INODES && 0 <= i < |BlocksOf(inodes[n])| ==>
          BlocksOf(inodes[n])[i] < BITMAP_BITS && bitmap[BlocksOf(inodes[n])[i]])
    && (forall n, m :: 0 <= n < m < MAX_INODES ==> Apart(BlocksOf(inodes[n]), BlocksOf(inodes[m])))
  }

  ghost predicate BlocksOk(blocks: seq<seq<byte>>, total: nat) {
    |blocks| == total && forall b :: 1 <= b < total ==> |blocks[b]| == BLOCK_SIZE
  }

  /** What a file holds. */
  ghost function FileOf(ino: Inode, blocks: seq<seq<byte>>): seq<byte>
    requires forall i :: 0 <= i < |BlocksOf(ino)| ==> BlocksOf(ino)[i] < |blocks|
  {
    var c := Content(blocks, BlocksOf(ino));
    c[..Min(ino.size, |c|)]
  }

  /** The first n bytes of d over s from position `at`, which they may outgrow. */
  function Overwrite(s: seq<byte>, at: nat, d: seq<byte>): seq<byte>
    requires at <= |s|
  {
    s[..at] + d + if at + |d| < |s| then s[at + |d|..] else []
  }

  ghost function FreeBlocks(bitmap: seq<bool>, total: nat): set<nat>
    requires total <= |bitmap|
  {
    set b: nat | b < total && !bitmap[b]
  }

  /** mkfs: ten system blocks marked, and the root directory in block 1. */
  lemma FreshFs(bitmap: seq<bool>, inodes: seq<Inode>, total: nat)
    requires |bitmap| == BITMAP_BITS && |inodes| == MAX_INODES && 2 <= total <= BITMAP_BITS
    requires forall b :: 0 <= b < BITMAP_BITS ==> bitmap[b] == (b < 10)
    requires forall n :: 0 <= n < MAX_INODES ==> inodes[n] == if n == 1 then ROOT_DIR else EMPTY_INODE
    ensures FsOk(bitmap, inodes, total)
  {
    assert BlocksOf(EMPTY_INODE) == [] && BlocksOf(ROOT_DIR) == [1];
    assert InodeOk(EMPTY_INODE, total) && InodeOk(ROOT_DIR, total);
    hide BlocksOf, InodeOk;
  }

  // ---- A write in progress ----

  /** The inode's own copy while it is written: it may have more blocks than its size needs yet. */
  ghost predicate Draft(ino: Inode, total: nat) {
    && |ino.direct| == DIRECT_BLOCKS && ino.blockCount <= DIRECT_BLOCKS
    && (forall i :: 0 <= i < DIRECT_BLOCKS ==> ino.direct[i] < total && (ino.direct[i] != 0 <==> i < ino.blockCount))
    && NoDups(BlocksOf(ino))
  }

  /** The first `written` bytes of `data` are in the blocks of `ino`, the copy of inode n, from
      `offset` on; other blocks and other inodes' blocks are as they were. */
  ghost predicate Writing(bitmap0: seq<bool>, inodes: seq<Inode>, blocks0: seq<seq<byte>>, total: nat, n: nat,
                          offset: nat, data: seq<byte>, written: nat, bitmap: seq<bool>, blocks: seq<seq<byte>>,
                          ino: Inode)
  {
    && FsOk(bitmap0, inodes, total) && n < MAX_INODES && BlocksOk(blocks0, total) && BlocksOk(blocks, total)
    && |bitmap| == BITMAP_BITS && Draft(ino, total) && BlocksOf(inodes[n]) <= BlocksOf(ino)
    && ino.mode == inodes[n].mode && ino.size == inodes[n].size
    && (forall b :: 0 <= b < BITMAP_BITS ==> (bitmap[b] <==> bitmap0[b] || b in BlocksOf(ino)))
    && (forall m :: 0 <= m < MAX_INODES && m != n ==> Apart(BlocksOf(inodes[m]), BlocksOf(ino)))
    && (forall b :: 0 <= b < total && b !in BlocksOf(ino) ==> blocks[b] == blocks0[b])
    && |FreeBlocks(bitmap, total)| + ino.blockCount == |FreeBlocks(bitmap0, total)| + inodes[n].blockCount
    && written <= |data| && offset / BLOCK_SIZE <= inodes[n].blockCount
    && Put(blocks0, blocks, BlocksOf(ino), offset, data[..written])
  }

  /** The pieces hold d from `offset` on, and otherwise what they held before. */
  ghost predicate Put(blocks0: seq<seq<byte>>, blocks: seq<seq<byte>>, chain: seq<nat>, offset: nat, d: seq<byte>) {
    && (forall i :: 0 <= i < |chain| ==> chain[i] < |blocks0| && chain[i] < |blocks|)
    && if d == [] then Content(blocks, chain) == Content(blocks0, chain)
       else && offset + |d| <= |Content(blocks0, chain)|
            && Content(blocks, chain) == Splice(Content(blocks0, chain), offset, d)
  }

  lemma DraftFacts(ino: Inode, blocks: seq<seq<byte>>, total: nat)
    requires Draft(ino, total) && BlocksOk(blocks, total)
    ensures |BlocksOf(ino)| == ino.blockCount && Pieces(blocks, BLOCK_SIZE, BlocksOf(ino))
    ensures forall i :: 0 <= i < |BlocksOf(ino)| ==> BlocksOf(ino)[i] == ino.direct[i] && 1 <= ino.direct[i] < total
    ensures |Content(blocks, BlocksOf(ino))| == ino.blockCount * BLOCK_SIZE
  {
    ContentLength(blocks, BLOCK_SIZE, BlocksOf(ino));
  }

  lemma WriteStart(bitmap: seq<bool>, inodes: seq<Inode>, blocks: seq<seq<byte>>, total: nat, n: nat, offset: nat,
                   data: seq<byte>)
    requires FsOk(bitmap, inodes, total) && BlocksOk(blocks, total) && n < MAX_INODES && IsFile(inodes[n])
    requires offset / BLOCK_SIZE <= inodes[n].blockCount
    ensures Writing(bitmap, inodes, blocks, total, n, offset, data, 0, bitmap, blocks, inodes[n])
  {
    hide Content;
    var ino := inodes[n];
    assert InodeOk(ino, total);
    DraftFacts(ino, blocks, total);
    forall b | 0 <= b < BITMAP_BITS && b in BlocksOf(ino) ensures bitmap[b] {
      var i :| 0 <= i < |BlocksOf(ino)| && BlocksOf(ino)[i] == b;
    }
    forall m | 0 <= m < MAX_INODES && m != n ensures Apart(BlocksOf(inodes[m]), BlocksOf(ino)) {
      assert if m < n then Apart(BlocksOf(inodes[m]), BlocksOf(inodes[n]))
        else Apart(BlocksOf(inodes[n]), BlocksOf(inodes[m]));
    }
    assert data[..0] == [];
  }

  /** The block b joins the inode's copy. */
  function Grown(ino: Inode, b: nat): Inode
    requires ino.blockCount < |ino.direct|
  {
    ino.(direct := ino.direct[ino.blockCount := b], blockCount := ino.blockCount + 1)
  }

  lemma WriteGrow(bitmap0: seq<bool>, inodes: seq<Inode>, blocks0: seq<seq<byte>>, total: nat, n: nat, offset: nat,
                  data: seq<byte>, written: nat, bitmap: seq<bool>, blocks: seq<seq<byte>>, ino: Inode, b: nat)
    requires Writing(bitmap0, inodes, blocks0, total, n, offset, data, written, bitmap, blocks, ino)
    requires b < total && !bitmap[b] && ino.blockCount < DIRECT_BLOCKS
    ensures ino.blockCount < |ino.direct|
    ensures Writing(bitmap0, inodes, blocks0, total, n, offset, data, written, bitmap[b := true], blocks, Grown(ino, b))
  {
    hide FsOk, Content, Splice, Draft, FreeBlocks, BlocksOf, Grown, NoDups, Apart, Put;
    FirstBit(bitmap0, inodes, total);
    DraftFacts(ino, blocks, total);
    DraftFacts(ino, blocks0, total);
    GrownDraft(ino, total, b);
    GrownApart(bitmap0, inodes, total, n, ino, b);
    GrownContent(blocks0, blocks, BlocksOf(ino), b, offset, data[..written]);
    GrownFree(bitmap, total, b);
    assert BlocksOf(inodes[n]) <= BlocksOf(ino) <= BlocksOf(ino) + [b];
  }

  lemma FirstBit(bitmap: seq<bool>, inodes: seq<Inode>, total: nat)
    requires FsOk(bitmap, inodes, total)
    ensures |bitmap| == BITMAP_BITS && bitmap[0] && |inodes| == MAX_INODES && 1 <= total <= BITMAP_BITS
  {
  }

  lemma GrownDraft(ino: Inode, total: nat, b: nat)
    requires Draft(ino, total) && ino.blockCount < DIRECT_BLOCKS && 1 <= b < total && b !in BlocksOf(ino)
    ensures |ino.direct| == DIRECT_BLOCKS && Draft(Grown(ino, b), total)
    ensures BlocksOf(Grown(ino, b)) == BlocksOf(ino) + [b]
    ensures Grown(ino, b).mode == ino.mode && Grown(ino, b).size == ino.size
    ensures Grown(ino, b).blockCount == ino.blockCount + 1
  {
    assert BlocksOf(Grown(ino, b)) == BlocksOf(ino) + [b];
  }

  lemma GrownFree(bitmap: seq<bool>, total: nat, b: nat)
    requires b < total <= |bitmap| && !bitmap[b]
    ensures |FreeBlocks(bitmap[b := true], total)| == |FreeBlocks(bitmap, total)| - 1
  {
    assert FreeBlocks(bitmap[b := true], total) == FreeBlocks(bitmap, total) - {b};
    assert b in FreeBlocks(bitmap, total);
  }

  lemma GrownApart(bitmap0: seq<bool>, inodes: seq<Inode>, total: nat, n: nat, ino: Inode, b: nat)
    requires FsOk(bitmap0, inodes, total) && b < |bitmap0| && !bitmap0[b]
    requires forall m :: 0 <= m < MAX_INODES && m != n ==> Apart(BlocksOf(inodes[m]), BlocksOf(ino))
    ensures forall m :: 0 <= m < MAX_INODES && m != n ==> Apart(BlocksOf(inodes[m]), BlocksOf(ino) + [b])
  {
    hide InodeOk, NoDups, BlocksOf;
    forall m | 0 <= m < MAX_INODES && m != n ensures Apart(BlocksOf(inodes[m]), BlocksOf(ino) + [b]) {
      forall i | 0 <= i < |BlocksOf(inodes[m])| ensures BlocksOf(inodes[m])[i] != b {
        assert bitmap0[BlocksOf(inodes[m])[i]];
      }
    }
  }

  lemma GrownContent(blocks0: seq<seq<byte>>, blocks: seq<seq<byte>>, chain: seq<nat>, b: nat, offset: nat,
                     d: seq<byte>)
    requires |blocks| == |blocks0| && b < |blocks| && (forall i :: 0 <= i < |chain| ==> chain[i] < |blocks|)
    requires blocks[b] == blocks0[b] && Put(blocks0, blocks, chain, offset, d)
    ensures Put(blocks0, blocks, chain + [b], offset, d)
  {
    assert (chain + [b])[..|chain|] == chain;
    if d != [] {
      SpliceAppend(Content(blocks0, chain), offset, d, blocks0[b]);
    }
  }

  /** The next k bytes, within the j-th block. */
  lemma WriteStep(bitmap0: seq<bool>, inodes: seq<Inode>, blocks0: seq<seq<byte>>, total: nat, n: nat, offset: nat,
                  data: seq<byte>, written: nat, bitmap: seq<bool>, blocks: seq<seq<byte>>, ino: Inode, j: nat,
                  pos: nat, k: nat)
    requires Writing(bitmap0, inodes, blocks0, total, n, offset, data, written, bitmap, blocks, ino)
    requires j < ino.blockCount && pos + k <= BLOCK_SIZE && j * BLOCK_SIZE + pos == offset + written
    requires written + k <= |data| && k >= 1
    ensures 1 <= ino.direct[j] < total && |blocks[ino.direct[j]]| == BLOCK_SIZE
    ensures var blocks' := blocks[ino.direct[j] := Splice(blocks[ino.direct[j]], pos, data[written..written + k])];
            Writing(bitmap0, inodes, blocks0, total, n, offset, data, written + k, bitmap, blocks', ino)
  {
    hide Content, Splice, FsOk, FreeBlocks, Put, Apart;
    DraftFacts(ino, blocks, total);
    DraftFacts(ino, blocks0, total);
    PutStep(blocks0, blocks, BlocksOf(ino), offset, data, written, j, pos, k);
  }

  lemma PutStep(blocks0: seq<seq<byte>>, blocks: seq<seq<byte>>, chain: seq<nat>, offset: nat, data: seq<byte>,
                written: nat, j: nat, pos: nat, k: nat)
    requires written + k <= |data| && k >= 1 && Put(blocks0, blocks, chain, offset, data[..written])
    requires Pieces(blocks, BLOCK_SIZE, chain) && Pieces(blocks0, BLOCK_SIZE, chain) && NoDups(chain) && j < |chain|
    requires pos + k <= BLOCK_SIZE && j * BLOCK_SIZE + pos == offset + written
    ensures var d := data[written..written + k];
            Put(blocks0, blocks[chain[j] := Splice(blocks[chain[j]], pos, d)], chain, offset, data[..written + k])
  {
    hide Content, Splice;
    var d := data[written..written + k];
    ContentLength(blocks, BLOCK_SIZE, chain[..j]);
    ContentLength(blocks0, BLOCK_SIZE, chain);
    ContentLength(blocks, BLOCK_SIZE, chain);
    ContentWrite(blocks, chain, j, pos, d);
    if written == 0 {
      assert d == data[..k];
    } else {
      SpliceTwice(Content(blocks0, chain), offset, data, written, k);
    }
  }

  // ---- The end of a write ----

  /** Inodes other than n are the same, and so is what they hold. */
  ghost predicate OthersKept(inodes0: seq<Inode>, blocks0: seq<seq<byte>>, inodes: seq<Inode>, blocks: seq<seq<byte>>,
                             total: nat, n: nat) {
    && |inodes0| == |inodes| == MAX_INODES && BlocksOk(blocks0, total) && BlocksOk(blocks, total)
    && forall m :: 0 <= m < MAX_INODES && m != n ==>
         && inodes[m] == inodes0[m] && Pieces(blocks0, BLOCK_SIZE, BlocksOf(inodes[m]))
         && Pieces(blocks, BLOCK_SIZE, BlocksOf(inodes[m]))
         && FileOf(inodes[m], blocks) == FileOf(inodes[m], blocks0)
  }

  /** The inode as the write leaves it: its size is a 32-bit field. */
  function Closed(ino: Inode, end: nat): Inode { if end > ino.size then ino.(size := end % SIZE_LIMIT) else ino }

  /** The blocks hold neither less nor a block more than the write needs. */
  predicate Snug(was: Inode, ino: Inode, end: nat) {
    ino.blockCount == was.blockCount || (ino.blockCount - 1) * BLOCK_SIZE < end
  }

  lemma WriteOthers(bitmap0: seq<bool>, inodes: seq<Inode>, blocks0: seq<seq<byte>>, total: nat, n: nat, offset: nat,
                    data: seq<byte>, written: nat, bitmap: seq<bool>, blocks: seq<seq<byte>>, ino: Inode,
                    inodes': seq<Inode>)
    requires Writing(bitmap0, inodes, blocks0, total, n, offset, data, written, bitmap, blocks, ino)
    requires |inodes'| == MAX_INODES && forall m :: 0 <= m < MAX_INODES && m != n ==> inodes'[m] == inodes[m]
    ensures OthersKept(inodes, blocks0, inodes', blocks, total, n)
  {
    hide Splice, FreeBlocks, Draft, Content, FileOf, BlocksOf, InodeOk, NoDups, Apart;
    forall m | 0 <= m < MAX_INODES && m != n
      ensures Pieces(blocks0, BLOCK_SIZE, BlocksOf(inodes[m])) && Pieces(blocks, BLOCK_SIZE, BlocksOf(inodes[m]))
      ensures FileOf(inodes[m], blocks) == FileOf(inodes[m], blocks0)
    {
      assert InodeOk(inodes[m], total) && Apart(BlocksOf(inodes[m]), BlocksOf(ino));
      OtherFile(inodes[m], blocks0, blocks, total, BlocksOf(ino));
    }
  }

  /** A file does not change when only blocks apart from its own do. */
  lemma OtherFile(ino: Inode, blocks0: seq<seq<byte>>, blocks: seq<seq<byte>>, total: nat, chain: seq<nat>)
    requires InodeOk(ino, total) && BlocksOk(blocks0, total) && BlocksOk(blocks, total) && Apart(BlocksOf(ino), chain)
    requires forall b :: 0 <= b < total && b !in chain ==> blocks[b] == blocks0[b]
    ensures Pieces(blocks0, BLOCK_SIZE, BlocksOf(ino)) && Pieces(blocks, BLOCK_SIZE, BlocksOf(ino))
    ensures FileOf(ino, blocks) == FileOf(ino, blocks0)
  {
    hide Content;
    ContentKept(blocks0, blocks, BlocksOf(ino));
  }

  /** A failed write leaves the inodes as they were; blocks it took stay marked. */
  lemma WriteFailed(bitmap0: seq<bool>, inodes: seq<Inode>, blocks0: seq<seq<byte>>, total: nat, n: nat, offset: nat,
                    data: seq<byte>, written: nat, bitmap: seq<bool>, blocks: seq<seq<byte>>, ino: Inode)
    requires Writing(bitmap0, inodes, blocks0, total, n, offset, data, written, bitmap, blocks, ino)
    ensures FsOk(bitmap, inodes, total)
  {
    hide Splice, FreeBlocks, Draft, InodeOk, Content;
  }

  lemma MoreBlocks(was: Inode, ino: Inode, total: nat)
    requires InodeOk(was, total) && Draft(ino, total) && BlocksOf(was) <= BlocksOf(ino)
    ensures was.blockCount <= ino.blockCount
  {
    assert |BlocksOf(was)| == was.blockCount && |BlocksOf(ino)| == ino.blockCount;
  }

  lemma ClosedOk(was: Inode, ino: Inode, total: nat, end: nat)
    requires InodeOk(was, total) && IsFile(was) && Draft(ino, total) && ino.mode == was.mode && ino.size == was.size
    requires BlocksOf(was) <= BlocksOf(ino) && Snug(was, ino, end) && end <= MAX_FILE
    requires end <= ino.blockCount * BLOCK_SIZE
    ensures InodeOk(Closed(ino, end), total) && BlocksOf(Closed(ino, end)) == BlocksOf(ino) && NoDups(BlocksOf(ino))
  {
    MoreBlocks(was, ino, total);
    ClosedCount(was.size, ino.blockCount, end);
    ClosedSize(ino, end);
    hide BlocksFor, BlocksOf, NoDups;
  }

  /** Blocks that were as many as the size needs, and have grown only as far as `end` needs. */
  lemma ClosedCount(size: nat, count: nat, end: nat)
    requires BlocksFor(size) <= count && (count == BlocksFor(size) || (count - 1) * BLOCK_SIZE < end)
    requires end <= count * BLOCK_SIZE
    ensures count == BlocksFor(if end > size then end else size)
  {
  }

  lemma ClosedSize(ino: Inode, end: nat)
    requires end <= MAX_FILE
    ensures BlocksOf(Closed(ino, end)) == BlocksOf(ino)
    ensures Closed(ino, end).size == if end > ino.size then end else ino.size
  {
  }

  lemma WriteFs(bitmap0: seq<bool>, inodes: seq<Inode>, blocks0: seq<seq<byte>>, total: nat, n: nat, offset: nat,
                data: seq<byte>, written: nat, bitmap: seq<bool>, blocks: seq<seq<byte>>, ino: Inode)
    requires Writing(bitmap0, inodes, blocks0, total, n, offset, data, written, bitmap, blocks, ino)
    requires IsFile(inodes[n]) && (written > 0 || offset <= inodes[n].blockCount * BLOCK_SIZE)
    requires offset + written <= MAX_FILE && Snug(inodes[n], ino, offset + written)
    ensures FsOk(bitmap, inodes[n := Closed(ino, offset + written)], total)
  {
    hide Splice, FreeBlocks, Content, InodeOk, Draft, BlocksOf, Closed;
    var ino' := Closed(ino, offset + written);
    DraftFacts(ino, blocks0, total);
    assert InodeOk(inodes[n], total);
    MoreBlocks(inodes[n], ino, total);
    ClosedOk(inodes[n], ino, total, offset + written);
    var inodes' := inodes[n := ino'];
    forall i, j | 0 <= i < j < MAX_INODES ensures Apart(BlocksOf(inodes'[i]), BlocksOf(inodes'[j])) {
      if i == n {
        assert Apart(BlocksOf(inodes[j]), BlocksOf(ino));
      } else if j == n {
        assert Apart(BlocksOf(inodes[i]), BlocksOf(ino));
      } else {
        assert Apart(BlocksOf(inodes[i]), BlocksOf(inodes[j]));
      }
    }
  }

  /** The file is the old one, overwritten. */
  lemma WriteFile(bitmap0: seq<bool>, inodes: seq<Inode>, blocks0: seq<seq<byte>>, total: nat, n: nat, offset: nat,
                  data: seq<byte>, written: nat, bitmap: seq<bool>, blocks: seq<seq<byte>>, ino: Inode)
    requires Writing(bitmap0, inodes, blocks0, total, n, offset, data, written, bitmap, blocks, ino)
    requires IsFile(inodes[n]) && (written > 0 || offset <= inodes[n].blockCount * BLOCK_SIZE)
    ensures var ino' := Closed(ino, offset + written);
            && FileWritten(inodes[n], blocks0, ino', blocks, offset, data[..written])
            && Marked(bitmap0, bitmap, BlocksOf(ino'))
  {
    hide Writing, Pieces, Draft, BlocksOf, Marked, Put, FileWritten, Closed, BlocksOk;
    ClosedBlocks(ino, offset + written);
    WriteFacts(bitmap0, inodes, blocks0, total, n, offset, data, written, bitmap, blocks, ino);
    FileClosed(inodes[n], ino, blocks0, blocks, total, offset, data[..written]);
  }

  lemma ClosedBlocks(ino: Inode, end: nat)
    ensures BlocksOf(Closed(ino, end)) == BlocksOf(ino)
  {
  }

  /** Exactly these blocks have been marked. */
  ghost predicate Marked(bitmap0: seq<bool>, bitmap: seq<bool>, chain: seq<nat>) {
    |bitmap| == |bitmap0| && forall b :: 0 <= b < |bitmap| ==> (bitmap[b] <==> bitmap0[b] || b in chain)
  }

  lemma WriteFacts(bitmap0: seq<bool>, inodes: seq<Inode>, blocks0: seq<seq<byte>>, total: nat, n: nat, offset: nat,
                   data: seq<byte>, written: nat, bitmap: seq<bool>, blocks: seq<seq<byte>>, ino: Inode)
    requires Writing(bitmap0, inodes, blocks0, total, n, offset, data, written, bitmap, blocks, ino)
    requires IsFile(inodes[n])
    ensures Marked(bitmap0, bitmap, BlocksOf(ino))
    ensures n < |inodes| && Draft(ino, total) && Draft(inodes[n], total) && BlocksOk(blocks, total)
    ensures BlocksOk(blocks0, total)
    ensures BlocksOf(inodes[n]) <= BlocksOf(ino) && ino.size == inodes[n].size
    ensures inodes[n].size <= inodes[n].blockCount * BLOCK_SIZE
    ensures Pieces(blocks, BLOCK_SIZE, BlocksOf(ino)) && Pieces(blocks0, BLOCK_SIZE, BlocksOf(ino)) && written <= |data|
    ensures Put(blocks0, blocks, BlocksOf(ino), offset, data[..written])
  {
    hide Splice, Content, FreeBlocks, Put;
    assert InodeOk(inodes[n], total);
    DraftFacts(ino, blocks, total);
    DraftFacts(ino, blocks0, total);
  }

  lemma FileClosed(was: Inode, ino: Inode, blocks0: seq<seq<byte>>, blocks: seq<seq<byte>>, total: nat, offset: nat,
                   d: seq<byte>)
    requires Draft(ino, total) && Draft(was, total) && BlocksOk(blocks, total) && BlocksOk(blocks0, total)
    requires BlocksOf(was) <= BlocksOf(ino) && ino.size == was.size <= was.blockCount * BLOCK_SIZE
    requires d != [] || offset <= was.blockCount * BLOCK_SIZE
    requires Put(blocks0, blocks, BlocksOf(ino), offset, d)
    ensures FileWritten(was, blocks0, Closed(ino, offset + |d|), blocks, offset, d)
  {
    var a, b, end := BlocksOf(was), BlocksOf(ino), offset + |d|;
    PutFits(was, ino, blocks0, blocks, total, offset, d);
    hide Content, Splice, Draft, BlocksOk, BlocksOf, Closed, Put;
    ClosedSize(ino, end);
    ClosedBytes(Content(blocks0, a), Content(blocks0, b), Content(blocks, b), was.size, offset, d);
    ClosedIs(was, Closed(ino, end), blocks0, blocks, offset, d, a, b);
  }

  /** What the blocks hold, old and new. */
  lemma PutFits(was: Inode, ino: Inode, blocks0: seq<seq<byte>>, blocks: seq<seq<byte>>, total: nat, offset: nat,
                d: seq<byte>)
    requires Draft(ino, total) && Draft(was, total) && BlocksOk(blocks, total) && BlocksOk(blocks0, total)
    requires BlocksOf(was) <= BlocksOf(ino) && ino.size == was.size <= was.blockCount * BLOCK_SIZE
    requires d != [] || offset <= was.blockCount * BLOCK_SIZE
    requires Put(blocks0, blocks, BlocksOf(ino), offset, d)
    ensures Pieces(blocks, BLOCK_SIZE, BlocksOf(ino)) && Pieces(blocks0, BLOCK_SIZE, BlocksOf(ino))
    ensures Pieces(blocks0, BLOCK_SIZE, BlocksOf(was))
    ensures var a, held, now := Content(blocks0, BlocksOf(was)), Content(blocks0, BlocksOf(ino)),
              Content(blocks, BlocksOf(ino));
            && a <= held && was.size <= |a| && |now| == |held| <= MAX_FILE && offset + |d| <= |held|
            && now == if d == [] then held else Splice(held, offset, d)
  {
    hide Content, Splice, Draft, BlocksOk, BlocksOf;
    DraftSize(ino, blocks, total);
    DraftSize(ino, blocks0, total);
    DraftSize(was, blocks0, total);
    HeldPrefix(blocks0, BlocksOf(was), BlocksOf(ino));
  }

  lemma DraftSize(ino: Inode, blocks: seq<seq<byte>>, total: nat)
    requires Draft(ino, total) && BlocksOk(blocks, total)
    ensures Pieces(blocks, BLOCK_SIZE, BlocksOf(ino)) && |BlocksOf(ino)| == ino.blockCount <= DIRECT_BLOCKS
    ensures |Content(blocks, BlocksOf(ino))| == ino.blockCount * BLOCK_SIZE
  {
    hide Content;
    DraftFacts(ino, blocks, total);
  }

  lemma HeldPrefix(blocks: seq<seq<byte>>, a: seq<nat>, b: seq<nat>)
    requires a <= b && Pieces(blocks, BLOCK_SIZE, a) && Pieces(blocks, BLOCK_SIZE, b)
    ensures Content(blocks, a) <= Content(blocks, b)
  {
    hide Content;
    assert b == a + b[|a|..];
    ContentAppend(blocks, a, b[|a|..]);
  }

  lemma ClosedIs(was: Inode, ino: Inode, blocks0: seq<seq<byte>>, blocks: seq<seq<byte>>, offset: nat, d: seq<byte>,
                 a: seq<nat>, b: seq<nat>)
    requires a == BlocksOf(was) && b == BlocksOf(ino)
    requires Pieces(blocks, BLOCK_SIZE, b) && Pieces(blocks0, BLOCK_SIZE, b) && Pieces(blocks0, BLOCK_SIZE, a)
    requires ino.size == if offset + |d| > was.size then offset + |d| else was.size
    requires was.size <= |Content(blocks0, a)| && |Content(blocks, b)| == |Content(blocks0, b)|
    requires var now, held := Content(blocks, b), Content(blocks0, b);
             ino.size <= |now| && forall i :: 0 <= i < ino.size ==>
               now[..ino.size][i] == if offset <= i < offset + |d| then d[i - offset]
                 else if i < was.size then Content(blocks0, a)[..was.size][i] else held[i]
    ensures FileWritten(was, blocks0, ino, blocks, offset, d)
  {
    hide Content, BlocksOf;
  }

  lemma ClosedBytes(a: seq<byte>, held: seq<byte>, now: seq<byte>, size: nat, offset: nat, d: seq<byte>)
    requires a <= held && size <= |a| && |now| == |held| && offset + |d| <= |held|
    requires now == if d == [] then held else Splice(held, offset, d)
    ensures var n := if offset + |d| > size then offset + |d| else size;
            n <= |now| && forall i :: 0 <= i < n ==>
              now[..n][i] == if offset <= i < offset + |d| then d[i - offset] else if i < size then a[..size][i]
                else held[i]
  {
  }

  /** The old blocks and the free ones can hold the file up to `end`. */
  ghost predicate HasRoom(bitmap: seq<bool>, total: nat, ino: Inode, end: nat)
    requires total <= |bitmap|
  {
    end <= (ino.blockCount + |FreeBlocks(bitmap, total)|) * BLOCK_SIZE
  }

  lemma RoomFound(bitmap0: seq<bool>, inodes: seq<Inode>, blocks0: seq<seq<byte>>, total: nat, n: nat, offset: nat,
                  data: seq<byte>, written: nat, bitmap: seq<bool>, blocks: seq<seq<byte>>, ino: Inode)
    requires Writing(bitmap0, inodes, blocks0, total, n, offset, data, written, bitmap, blocks, ino)
    requires written > 0 || offset <= inodes[n].blockCount * BLOCK_SIZE
    ensures total <= |bitmap0| && HasRoom(bitmap0, total, inodes[n], offset + written)
  {
    hide Splice, FreeBlocks, Content;
    DraftFacts(ino, blocks0, total);
  }

  lemma NoRoom(bitmap0: seq<bool>, inodes: seq<Inode>, blocks0: seq<seq<byte>>, total: nat, n: nat, offset: nat,
               data: seq<byte>, written: nat, bitmap: seq<bool>, blocks: seq<seq<byte>>, ino: Inode, end: nat)
    requires Writing(bitmap0, inodes, blocks0, total, n, offset, data, written, bitmap, blocks, ino)
    requires ino.blockCount * BLOCK_SIZE < end && forall b :: 0 <= b < total ==> bitmap[b]
    ensures total <= |bitmap0| && !HasRoom(bitmap0, total, inodes[n], end)
  {
    assert FreeBlocks(bitmap, total) == {};
    hide Splice, FreeBlocks, Content;
  }

  /** The file is the old one with d written over it. Between its old end and d it holds whatever its
      blocks held. */
  ghost predicate FileWritten(was: Inode, blocks0: seq<seq<byte>>, ino: Inode, blocks: seq<seq<byte>>, offset: nat,
                              d: seq<byte>) {
    && Pieces(blocks, BLOCK_SIZE, BlocksOf(ino)) && Pieces(blocks0, BLOCK_SIZE, BlocksOf(ino))
    && Pieces(blocks0, BLOCK_SIZE, BlocksOf(was)) && |FileOf(was, blocks0)| == was.size
    && var file, held := FileOf(ino, blocks), Content(blocks0, BlocksOf(ino));
       && |file| == (if offset + |d| > was.size then offset + |d| else was.size) <= |held|
       && forall i :: 0 <= i < |file| ==>
            file[i] == if offset <= i < offset + |d| then d[i - offset]
                       else if i < was.size then FileOf(was, blocks0)[i] else held[i]
  }

  /** At an offset inside the file or at its end nothing lies between. */
  lemma WrittenOver(was: Inode, blocks0: seq<seq<byte>>, ino: Inode, blocks: seq<seq<byte>>, offset: nat, d: seq<byte>)
    requires FileWritten(was, blocks0, ino, blocks, offset, d) && offset <= was.size
    ensures FileOf(ino, blocks) == Overwrite(FileOf(was, blocks0), offset, d)
  {
    hide FileOf, BlocksOf;
  }

  /** Reading back what was written gives it, and the old bytes around it. */
  lemma WrittenIsRead(was: Inode, blocks0: seq<seq<byte>>, ino: Inode, blocks: seq<seq<byte>>, offset: nat,
                      d: seq<byte>, got: seq<byte>)
    requires FileWritten(was, blocks0, ino, blocks, offset, d) && FileRead(ino, blocks, offset, |d|, got)
    ensures got == d
    ensures |FileOf(ino, blocks)| == if offset + |d| > was.size then offset + |d| else was.size
    ensures forall i :: 0 <= i < was.size && !(offset <= i < offset + |d|) ==>
      FileOf(ino, blocks)[i] == FileOf(was, blocks0)[i]
  {
    hide FileOf, BlocksOf;
    var file := FileOf(ino, blocks);
    assert |file| >= offset + |d| && file[offset..offset + |d|] == d;
  }

  // ---- A write that leaves a hole ----

  /** A write at `offset` leaves no hole: it starts in the blocks of the file, or it has data for the
      block right after them. */
  predicate InOrder(ino: Inode, offset: nat, data: seq<byte>) {
    offset <= ino.blockCount * BLOCK_SIZE || (data != [] && offset / BLOCK_SIZE == ino.blockCount < DIRECT_BLOCKS)
  }

  /** Out of order but for the 32 bits of the size: nothing is written, and the file is cut or stretched
      to a size that its blocks still fit. */
  predicate Wraps(ino: Inode, offset: nat) {
    offset >= SIZE_LIMIT && offset % SIZE_LIMIT <= MAX_FILE && ino.blockCount == BlocksFor(offset % SIZE_LIMIT)
  }

  /** A write of any data to a file of ten bytes at 2^32 + 4 cuts the file to four bytes. */
  lemma CutShort(ino: Inode, total: nat, data: seq<byte>)
    requires InodeOk(ino, total) && IsFile(ino) && ino.size == 10
    ensures !InOrder(ino, 0x1_0000_0004, data) && Wraps(ino, 0x1_0000_0004) && Fitting(0x1_0000_0004, data) == 0
    ensures Closed(ino, 0x1_0000_0004).size == 4 && InodeOk(Closed(ino, 0x1_0000_0004), total)
  {
    assert BlocksFor(10) == 1 && BlocksFor(4) == 1;
  }

  /** For an empty file that is its first block: a byte written at 4096 leaves a hole. */
  lemma EmptyFileOrder(ino: Inode, offset: nat, data: seq<byte>)
    requires ino.blockCount == 0
    ensures InOrder(ino, offset, data) <==> offset == 0 || (data != [] && offset < BLOCK_SIZE)
    ensures !InOrder(ino, 4096, [1])
  {
  }

  /** The bytes of `data` that a file has room for from `offset` on. */
  function Fitting(offset: nat,
                   data: seq<byte>): nat { if offset < MAX_FILE then Min(|data|, MAX_FILE - offset) else 0 }

  /** The block after those that hold `written` bytes from `offset` on. */
  function BlockAfter(offset: nat, written: nat): nat {
    if written == 0 then offset / BLOCK_SIZE else (offset + written - 1) / BLOCK_SIZE + 1
  }

  function Part(s: seq<nat>, lo: nat, hi: nat): seq<nat> { if lo <= hi <= |s| then s[lo..hi] else [] }

  /** Out of order, the entries lo to hi of the copy of inode n have new blocks; everything else is as
      it was, with entries missing before lo. */
  ghost predicate Scattered(bitmap0: seq<bool>, inodes: seq<Inode>, blocks0: seq<seq<byte>>, total: nat, n: nat,
                            lo: nat, hi: nat, bitmap: seq<bool>, blocks: seq<seq<byte>>, ino: Inode)
  {
    && FsOk(bitmap0, inodes, total) && n < MAX_INODES && BlocksOk(blocks0, total) && BlocksOk(blocks, total)
    && |bitmap| == BITMAP_BITS && inodes[n].blockCount <= lo <= hi && (lo < hi ==> inodes[n].blockCount < lo)
    && |ino.direct| == DIRECT_BLOCKS && (lo < hi ==> hi <= DIRECT_BLOCKS)
    && ino.mode == inodes[n].mode && ino.size == inodes[n].size
    && ino.blockCount == (if lo < hi then hi else inodes[n].blockCount)
    && |inodes[n].direct| == DIRECT_BLOCKS
    && (forall i :: 0 <= i < DIRECT_BLOCKS && !(lo <= i < hi) ==> ino.direct[i] == inodes[n].direct[i])
    && (forall b :: b in Part(ino.direct, lo, hi) ==> 1 <= b < total && !bitmap0[b])
    && (forall b :: 0 <= b < BITMAP_BITS ==> (bitmap[b] <==> bitmap0[b] || b in Part(ino.direct, lo, hi)))
    && (forall b :: 0 <= b < total && b !in Part(ino.direct, lo, hi) ==> blocks[b] == blocks0[b])
    && |FreeBlocks(bitmap, total)| + (hi - lo) == |FreeBlocks(bitmap0, total)|
  }

  lemma ScatterStart(bitmap: seq<bool>, inodes: seq<Inode>, blocks: seq<seq<byte>>, total: nat, n: nat, offset: nat,
                     data: seq<byte>)
    requires FsOk(bitmap, inodes, total) && BlocksOk(blocks, total) && n < MAX_INODES && IsFile(inodes[n])
    requires !InOrder(inodes[n], offset, data)
    ensures var j := offset / BLOCK_SIZE;
            && Scattered(bitmap, inodes, blocks, total, n, j, j, bitmap, blocks, inodes[n])
            && (data != [] && j < DIRECT_BLOCKS ==> inodes[n].blockCount < j)
  {
    assert InodeOk(inodes[n], total);
    hide FreeBlocks, NoDups, Apart;
    assert Part(inodes[n].direct, offset / BLOCK_SIZE, offset / BLOCK_SIZE) == [];
  }

  /** One more block, at the next entry. */
  lemma ScatterGrow(bitmap0: seq<bool>, inodes: seq<Inode>, blocks0: seq<seq<byte>>, total: nat, n: nat, lo: nat,
                    hi: nat, bitmap: seq<bool>, blocks: seq<seq<byte>>, ino: Inode, b: nat, ino': Inode)
    requires Scattered(bitmap0, inodes, blocks0, total, n, lo, hi, bitmap, blocks, ino)
    requires inodes[n].blockCount < lo && hi < DIRECT_BLOCKS && b < total && !bitmap[b]
    requires ino' == ino.(direct := ino.direct[hi := b], blockCount := hi + 1)
    ensures Scattered(bitmap0, inodes, blocks0, total, n, lo, hi + 1, bitmap[b := true], blocks, ino')
  {
    hide FsOk, FreeBlocks, BlocksOk;
    FirstBit(bitmap0, inodes, total);
    GrownFree(bitmap, total, b);
    assert ino.direct[lo..hi] == Part(ino.direct, lo, hi);
    assert ino'.direct[lo..hi + 1] == ino.direct[lo..hi] + [b];
  }

  /** The new block gets its bytes. */
  lemma ScatterWrite(bitmap0: seq<bool>, inodes: seq<Inode>, blocks0: seq<seq<byte>>, total: nat, n: nat, lo: nat,
                     hi: nat, bitmap: seq<bool>, blocks: seq<seq<byte>>, ino: Inode, buf: seq<byte>)
    requires Scattered(bitmap0, inodes, blocks0, total, n, lo, hi, bitmap, blocks, ino)
    requires lo < hi && |buf| == BLOCK_SIZE
    ensures hi <= |ino.direct| && 1 <= ino.direct[hi - 1] < total && |blocks| == total
    ensures Scattered(bitmap0, inodes, blocks0, total, n, lo, hi, bitmap, blocks[ino.direct[hi - 1] := buf], ino)
  {
    hide FsOk, FreeBlocks;
    FirstBit(bitmap0, inodes, total);
    var taken := Part(ino.direct, lo, hi);
    assert ino.direct[hi - 1] == taken[hi - 1 - lo] && taken[hi - 1 - lo] in taken;
  }

  /** Every other file is as it was. */
  lemma ScatterOthers(bitmap0: seq<bool>, inodes: seq<Inode>, blocks0: seq<seq<byte>>, total: nat, n: nat, lo: nat,
                      hi: nat, bitmap: seq<bool>, blocks: seq<seq<byte>>, ino: Inode, inodes': seq<Inode>)
    requires Scattered(bitmap0, inodes, blocks0, total, n, lo, hi, bitmap, blocks, ino)
    requires |inodes'| == MAX_INODES && forall m :: 0 <= m < MAX_INODES && m != n ==> inodes'[m] == inodes[m]
    ensures OthersKept(inodes, blocks0, inodes', blocks, total, n) && FsOk(bitmap, inodes, total)
  {
    hide FreeBlocks, Content, FileOf, BlocksOf, InodeOk, NoDups, Part;
    var taken := Part(ino.direct, lo, hi);
    forall m | 0 <= m < MAX_INODES && m != n
      ensures Pieces(blocks0, BLOCK_SIZE, BlocksOf(inodes[m])) && Pieces(blocks, BLOCK_SIZE, BlocksOf(inodes[m]))
      ensures FileOf(inodes[m], blocks) == FileOf(inodes[m], blocks0)
    {
      forall i, k | 0 <= i < |BlocksOf(inodes[m])| && 0 <= k < |taken| ensures BlocksOf(inodes[m])[i] != taken[k] {
        assert bitmap0[BlocksOf(inodes[m])[i]] && taken[k] in taken;
      }
      assert InodeOk(inodes[m], total);
      OtherFile(inodes[m], blocks0, blocks, total, taken);
    }
  }

  /** The finished inode has a hole or a size that its blocks do not fit, unless the size wraps. */
  lemma ScatterEnd(bitmap0: seq<bool>, inodes: seq<Inode>, blocks0: seq<seq<byte>>, total: nat, n: nat, offset: nat,
                   data: seq<byte>, written: nat, bitmap: seq<bool>, blocks: seq<seq<byte>>, ino: Inode)
    requires Scattered(bitmap0, inodes, blocks0, total, n, offset / BLOCK_SIZE, BlockAfter(offset, written), bitmap,
                       blocks, ino)
    requires IsFile(inodes[n]) && !InOrder(inodes[n], offset, data) && written == Fitting(offset, data)
    ensures var inodes' := inodes[n := Closed(ino, offset + written)];
            && (FsOk(bitmap, inodes', total) <==> Wraps(inodes[n], offset))
            && OthersKept(inodes, blocks0, inodes', blocks, total, n) && total <= |bitmap0|
            && BlockAfter(offset, written) - offset / BLOCK_SIZE <= |FreeBlocks(bitmap0, total)|
            && (Wraps(inodes[n], offset) ==>
                  && bitmap == bitmap0 && blocks == blocks0 && ino == inodes[n] && written == 0
                  && FileCut(inodes[n], inodes'[n], blocks, offset % SIZE_LIMIT))
  {
    hide FreeBlocks, FsOk, Part, OthersKept, FileCut;
    FirstBit(bitmap0, inodes, total);
    var inodes' := inodes[n := Closed(ino, offset + written)];
    ScatterOthers(bitmap0, inodes, blocks0, total, n, offset / BLOCK_SIZE, BlockAfter(offset, written), bitmap, blocks,
                  ino, inodes');
    if Wraps(inodes[n], offset) {
      ScatterNone(bitmap0, inodes, blocks0, total, n, offset, bitmap, blocks, ino);
      CutOk(bitmap, inodes, blocks, total, n, offset);
    } else {
      ScatterBroken(bitmap0, inodes, blocks0, total, n, offset, data, written, bitmap, blocks, ino);
      if FsOk(bitmap, inodes', total) {
        FileOk(bitmap, inodes', total, n);
      }
    }
  }

  /** With no block taken all is as it was. */
  lemma ScatterNone(bitmap0: seq<bool>, inodes: seq<Inode>, blocks0: seq<seq<byte>>, total: nat, n: nat, offset: nat,
                    bitmap: seq<bool>, blocks: seq<seq<byte>>, ino: Inode)
    requires Scattered(bitmap0, inodes, blocks0, total, n, offset / BLOCK_SIZE, offset / BLOCK_SIZE, bitmap, blocks,
                       ino)
    ensures bitmap == bitmap0 && blocks == blocks0 && ino == inodes[n]
  {
    hide FreeBlocks;
    FirstBit(bitmap0, inodes, total);
    assert Part(ino.direct, offset / BLOCK_SIZE, offset / BLOCK_SIZE) == [];
    assert ino.direct == inodes[n].direct;
  }

  /** The file is what its blocks hold, up to the new size. */
  ghost predicate FileCut(was: Inode, ino: Inode, blocks: seq<seq<byte>>, size: nat) {
    && BlocksOf(ino) == BlocksOf(was) && Pieces(blocks, BLOCK_SIZE, BlocksOf(ino))
    && size <= |Content(blocks, BlocksOf(was))| && FileOf(ino, blocks) == Content(blocks, BlocksOf(was))[..size]
  }

  lemma CutOk(bitmap: seq<bool>, inodes: seq<Inode>, blocks: seq<seq<byte>>, total: nat, n: nat, offset: nat)
    requires FsOk(bitmap, inodes, total) && BlocksOk(blocks, total) && n < MAX_INODES && IsFile(inodes[n])
    requires Wraps(inodes[n], offset)
    ensures var ino := Closed(inodes[n], offset);
            FsOk(bitmap, inodes[n := ino], total) && FileCut(inodes[n], ino, blocks, offset % SIZE_LIMIT)
  {
    hide Content, NoDups, Apart;
    FileOk(bitmap, inodes, total, n);
    var ino := Closed(inodes[n], offset);
    assert InodeOk(ino, total) && BlocksOf(ino) == BlocksOf(inodes[n]);
    DraftFacts(ino, blocks, total) by { assert NoDups(BlocksOf(inodes[n])); }
    hide BlocksOf, InodeOk;
  }

  lemma ScatterBroken(bitmap0: seq<bool>, inodes: seq<Inode>, blocks0: seq<seq<byte>>, total: nat, n: nat, offset: nat,
                      data: seq<byte>, written: nat, bitmap: seq<bool>, blocks: seq<seq<byte>>, ino: Inode)
    requires Scattered(bitmap0, inodes, blocks0, total, n, offset / BLOCK_SIZE, BlockAfter(offset, written), bitmap,
                       blocks, ino)
    requires IsFile(inodes[n]) && !InOrder(inodes[n], offset, data) && written == Fitting(offset, data)
    requires !Wraps(inodes[n], offset)
    ensures !InodeOk(Closed(ino, offset + written), total)
  {
    hide FreeBlocks, FsOk, Part;
    FirstBit(bitmap0, inodes, total);
    FileOk(bitmap0, inodes, total, n);
    var hole := inodes[n].blockCount;
    if written > 0 {
      assert inodes[n].direct[hole] == 0 && ino.direct[hole] == 0;
    }
  }

  lemma ScatterShape(bitmap0: seq<bool>, inodes: seq<Inode>, blocks0: seq<seq<byte>>, total: nat, n: nat, lo: nat,
                     hi: nat, bitmap: seq<bool>, blocks: seq<seq<byte>>, ino: Inode)
    requires Scattered(bitmap0, inodes, blocks0, total, n, lo, hi, bitmap, blocks, ino)
    ensures |ino.direct| == DIRECT_BLOCKS && n < |inodes|
  {
  }

  /** The next block is the one after those taken, and missing. */
  lemma ScatterNext(bitmap0: seq<bool>, inodes: seq<Inode>, blocks0: seq<seq<byte>>, total: nat, n: nat, offset: nat,
                    written: nat, bitmap: seq<bool>, blocks: seq<seq<byte>>, ino: Inode)
    requires Scattered(bitmap0, inodes, blocks0, total, n, offset / BLOCK_SIZE, BlockAfter(offset, written), bitmap,
                       blocks, ino)
    requires (written > 0 ==> (offset + written) % BLOCK_SIZE == 0) && (offset + written) / BLOCK_SIZE < DIRECT_BLOCKS
    ensures BlockAfter(offset, written) == (offset + written) / BLOCK_SIZE
    ensures |ino.direct| == DIRECT_BLOCKS && ino.direct[(offset + written) / BLOCK_SIZE] == 0
  {
    hide FsOk, FreeBlocks, Part;
    FileOk(bitmap0, inodes, total, n);
  }

  /** No block is left, and some data is. */
  lemma ScatterFull(bitmap0: seq<bool>, inodes: seq<Inode>, blocks0: seq<seq<byte>>, total: nat, n: nat, offset: nat,
                    data: seq<byte>, written: nat, bitmap: seq<bool>, blocks: seq<seq<byte>>, ino: Inode)
    requires Scattered(bitmap0, inodes, blocks0, total, n, offset / BLOCK_SIZE, (offset + written) / BLOCK_SIZE, bitmap,
                       blocks, ino)
    requires written < Fitting(offset, data) && total <= |bitmap| && forall b :: 0 <= b < total ==> bitmap[b]
    ensures total <= |bitmap0|
    ensures BlockAfter(offset, Fitting(offset, data)) - offset / BLOCK_SIZE > |FreeBlocks(bitmap0, total)|
  {
    assert FreeBlocks(bitmap, total) == {};
    hide FreeBlocks, FsOk, Part;
    FirstBit(bitmap0, inodes, total);
    DivMono(offset + written, offset + Fitting(offset, data) - 1);
  }

  lemma DivMono(a: nat, b: nat)
    requires a <= b
    ensures a / BLOCK_SIZE <= b / BLOCK_SIZE
  {
  }

  /** A turn fills up its block, or ends the data. */
  lemma TurnEnds(offset: nat, written: nat, k: nat, data: seq<byte>)
    requires written < |data| && (offset + written) / BLOCK_SIZE < DIRECT_BLOCKS
    requires k == Min(|data| - written, BLOCK_SIZE - (offset + written) % BLOCK_SIZE)
    ensures k >= 1 && written + k <= Fitting(offset, data)
    ensures BlockAfter(offset, written + k) == (offset + written) / BLOCK_SIZE + 1
    ensures written + k < |data| ==> (offset + written + k) % BLOCK_SIZE == 0
  {
  }

  lemma OrderStart(bitmap: seq<bool>, inodes: seq<Inode>, blocks: seq<seq<byte>>, total: nat, n: nat, offset: nat,
                   data: seq<byte>)
    requires FsOk(bitmap, inodes, total) && BlocksOk(blocks, total) && n < MAX_INODES && IsFile(inodes[n])
    requires InOrder(inodes[n], offset, data)
    ensures Writing(bitmap, inodes, blocks, total, n, offset, data, 0, bitmap, blocks, inodes[n])
  {
    hide Writing;
    assert offset / BLOCK_SIZE <= inodes[n].blockCount;
    WriteStart(bitmap, inodes, blocks, total, n, offset, data);
  }

  /** A write in order keeps the filesystem valid and makes the file what it should be. */
  lemma OrderEnd(bitmap0: seq<bool>, inodes: seq<Inode>, blocks0: seq<seq<byte>>, total: nat, n: nat, offset: nat,
                 data: seq<byte>, written: nat, bitmap: seq<bool>, blocks: seq<seq<byte>>, ino: Inode)
    requires Writing(bitmap0, inodes, blocks0, total, n, offset, data, written, bitmap, blocks, ino)
    requires IsFile(inodes[n]) && InOrder(inodes[n], offset, data) && written == Fitting(offset, data)
    requires Snug(inodes[n], ino, offset + written)
    ensures var ino' := Closed(ino, offset + written);
            var inodes' := inodes[n := ino'];
            && FsOk(bitmap, inodes', total) && OthersKept(inodes, blocks0, inodes', blocks, total, n)
            && total <= |bitmap0| && HasRoom(bitmap0, total, inodes[n], offset + written)
            && FileWritten(inodes[n], blocks0, ino', blocks, offset, data[..written])
            && Marked(bitmap0, bitmap, BlocksOf(ino'))
  {
    FileOk(bitmap0, inodes, total, n);
    assert inodes[n].blockCount * BLOCK_SIZE <= MAX_FILE;
    assert written > 0 || offset <= inodes[n].blockCount * BLOCK_SIZE;
    hide Writing, FsOk, OthersKept, FileWritten, Marked, HasRoom, Closed, Snug, BlocksOf;
    WriteOthers(bitmap0, inodes, blocks0, total, n, offset, data, written, bitmap, blocks, ino,
                inodes[n := Closed(ino, offset + written)]);
    WriteFs(bitmap0, inodes, blocks0, total, n, offset, data, written, bitmap, blocks, ino);
    WriteFile(bitmap0, inodes, blocks0, total, n, offset, data, written, bitmap, blocks, ino);
    RoomFound(bitmap0, inodes, blocks0, total, n, offset, data, written, bitmap, blocks, ino);
  }

  lemma FileOk(bitmap: seq<bool>, inodes: seq<Inode>, total: nat, n: nat)
    requires FsOk(bitmap, inodes, total) && n < MAX_INODES
    ensures InodeOk(inodes[n], total)
  {
  }

  // ---- Either way ----

  /** The write so far, in order or not. */
  ghost predicate Going(bitmap0: seq<bool>, inodes: seq<Inode>, blocks0: seq<seq<byte>>, total: nat, n: nat,
                        offset: nat, data: seq<byte>, written: nat, bitmap: seq<bool>, blocks: seq<seq<byte>>,
                        ino: Inode)
  {
    && n < MAX_INODES == |inodes| && IsFile(inodes[n]) && written <= Fitting(offset, data)
    && if InOrder(inodes[n], offset, data) then
         && Writing(bitmap0, inodes, blocks0, total, n, offset, data, written, bitmap, blocks, ino)
         && Snug(inodes[n], ino, offset + written)
       else
         && Scattered(bitmap0, inodes, blocks0, total, n, offset / BLOCK_SIZE, BlockAfter(offset, written), bitmap,
                      blocks, ino)
         && (0 < written < |data| ==> (offset + written) % BLOCK_SIZE == 0)
         && (data != [] && offset / BLOCK_SIZE < DIRECT_BLOCKS ==> inodes[n].blockCount < offset / BLOCK_SIZE)
  }

  /** There are blocks for all the data that fits. */
  ghost predicate Enough(bitmap: seq<bool>, total: nat, ino: Inode, offset: nat, data: seq<byte>)
    requires total <= |bitmap|
  {
    if InOrder(ino, offset, data) then HasRoom(bitmap, total, ino, offset + Fitting(offset, data))
    else BlockAfter(offset, Fitting(offset, data)) - offset / BLOCK_SIZE <= |FreeBlocks(bitmap, total)|
  }

  lemma GoingStart(bitmap: seq<bool>, inodes: seq<Inode>, blocks: seq<seq<byte>>, total: nat, n: nat, offset: nat,
                   data: seq<byte>)
    requires FsOk(bitmap, inodes, total) && BlocksOk(blocks, total) && n < MAX_INODES && IsFile(inodes[n])
    ensures Going(bitmap, inodes, blocks, total, n, offset, data, 0, bitmap, blocks, inodes[n])
  {
    hide Writing, Scattered, FsOk, InOrder;
    FirstBit(bitmap, inodes, total);
    if InOrder(inodes[n], offset, data) {
      OrderStart(bitmap, inodes, blocks, total, n, offset, data);
    } else {
      ScatterStart(bitmap, inodes, blocks, total, n, offset, data);
    }
  }

  /** No block is left for the next part: all inodes are as they were, and the blocks did not suffice. */
  lemma GoingFails(bitmap0: seq<bool>, inodes: seq<Inode>, blocks0: seq<seq<byte>>, total: nat, n: nat, offset: nat,
                   data: seq<byte>, written: nat, bitmap: seq<bool>, blocks: seq<seq<byte>>, ino: Inode)
    requires Going(bitmap0, inodes, blocks0, total, n, offset, data, written, bitmap, blocks, ino)
    requires written < |data| && (offset + written) / BLOCK_SIZE < DIRECT_BLOCKS
    requires InOrder(inodes[n], offset, data) ==> (offset + written) / BLOCK_SIZE == ino.blockCount
    requires total <= |bitmap| && forall b :: 0 <= b < total ==> bitmap[b]
    ensures OthersKept(inodes, blocks0, inodes, blocks, total, n) && total <= |bitmap0|
    ensures !Enough(bitmap0, total, inodes[n], offset, data)
  {
    hide Writing, Scattered, FsOk, InOrder, OthersKept, HasRoom, FreeBlocks, Snug;
    assert written < Fitting(offset, data);
    if InOrder(inodes[n], offset, data) {
      WriteOthers(bitmap0, inodes, blocks0, total, n, offset, data, written, bitmap, blocks, ino, inodes);
      NoRoom(bitmap0, inodes, blocks0, total, n, offset, data, written, bitmap, blocks, ino,
             offset + Fitting(offset, data));
    } else {
      ScatterNext(bitmap0, inodes, blocks0, total, n, offset, written, bitmap, blocks, ino);
      ScatterOthers(bitmap0, inodes, blocks0, total, n, offset / BLOCK_SIZE, BlockAfter(offset, written), bitmap,
                    blocks,
                    ino, inodes);
      ScatterFull(bitmap0, inodes, blocks0, total, n, offset, data, written, bitmap, blocks, ino);
    }
  }

  /** All that fits is written: the filesystem is valid if and only if the write was in order, or its size
      wraps to one that the blocks fit. */
  lemma GoingEnds(bitmap0: seq<bool>, inodes: seq<Inode>, blocks0: seq<seq<byte>>, total: nat, n: nat, offset: nat,
                  data: seq<byte>, written: nat, bitmap: seq<bool>, blocks: seq<seq<byte>>, ino: Inode)
    requires Going(bitmap0, inodes, blocks0, total, n, offset, data, written, bitmap, blocks, ino)
    requires written == |data| || (offset + written) / BLOCK_SIZE >= DIRECT_BLOCKS
    ensures var ino' := Closed(ino, offset + written);
            var inodes' := inodes[n := ino'];
            && written == Fitting(offset, data) && OthersKept(inodes, blocks0, inodes', blocks, total, n)
            && total <= |bitmap0| && Enough(bitmap0, total, inodes[n], offset, data)
            && (FsOk(bitmap, inodes', total) <==> InOrder(inodes[n], offset, data) || Wraps(inodes[n], offset))
            && (!InOrder(inodes[n], offset, data) && Wraps(inodes[n], offset) ==>
                  && bitmap == bitmap0 && blocks == blocks0 && written == 0
                  && FileCut(inodes[n], ino', blocks, offset % SIZE_LIMIT))
            && (InOrder(inodes[n], offset, data) ==>
                  && FileWritten(inodes[n], blocks0, ino', blocks, offset, data[..written])
                  && Marked(bitmap0, bitmap, BlocksOf(ino')))
  {
    hide Writing, Scattered, FsOk, InOrder, OthersKept, HasRoom, FreeBlocks, Snug, FileWritten, Marked, BlocksOf,
      Closed, Wraps, FileCut;
    if InOrder(inodes[n], offset, data) {
      OrderEnd(bitmap0, inodes, blocks0, total, n, offset, data, written, bitmap, blocks, ino);
    } else {
      ScatterEnd(bitmap0, inodes, blocks0, total, n, offset, data, written, bitmap, blocks, ino);
    }
  }

  /** The superblock, the bitmap and the inode table on the disk are as they were. */
  ghost predicate KeepsMetadata(sectors0: Sectors, sectors: Sectors) {
    |sectors| == |sectors0| && forall s :: 0 <= s < DATA_START && s < |sectors| ==> sectors[s] == sectors0[s]
  }

  lemma Untouched(bitmap: seq<bool>, inodes: seq<Inode>, blocks: seq<seq<byte>>, total: nat, n: nat)
    requires FsOk(bitmap, inodes, total) && BlocksOk(blocks, total)
    ensures OthersKept(inodes, blocks, inodes, blocks, total, n)
  {
    forall m | 0 <= m < MAX_INODES ensures Pieces(blocks, BLOCK_SIZE, BlocksOf(inodes[m])) {
      assert InodeOk(inodes[m], total);
    }
  }

  lemma CloseIs(ino: Inode, end: nat)
    ensures Closed(ino, end) == if end > ino.size then ino.(size := end % SIZE_LIMIT) else ino
  {
  }

  lemma SnugStep(was: Inode, ino: Inode, ino': Inode, pos: nat, k: nat)
    requires Snug(was, ino, pos) && (ino' == ino || pos / BLOCK_SIZE + 1 == ino'.blockCount) && k >= 1
    ensures Snug(was, ino', pos + k)
  {
  }

  /** The current position is in the blocks or just after them. */
  lemma WriteIndex(bitmap0: seq<bool>, inodes: seq<Inode>, blocks0: seq<seq<byte>>, total: nat, n: nat, offset: nat,
                   data: seq<byte>, written: nat, bitmap: seq<bool>, blocks: seq<seq<byte>>, ino: Inode, j: nat)
    requires Writing(bitmap0, inodes, blocks0, total, n, offset, data, written, bitmap, blocks, ino)
    requires j == (offset + written) / BLOCK_SIZE < DIRECT_BLOCKS
    ensures |ino.direct| == DIRECT_BLOCKS && j <= ino.blockCount && (ino.direct[j] != 0 <==> j < ino.blockCount)
    ensures j < ino.blockCount ==> 1 <= ino.direct[j] < total
    ensures total <= |bitmap|
  {
    hide Splice, FreeBlocks, Content;
    assert InodeOk(inodes[n], total);
    MoreBlocks(inodes[n], ino, total);
    DraftFacts(ino, blocks0, total);
  }

  lemma GrownIs(ino: Inode, b: nat)
    requires ino.blockCount < |ino.direct|
    ensures Grown(ino, b) == ino.(direct := ino.direct[ino.blockCount := b], blockCount := ino.blockCount + 1)
  {
  }

  lemma FileShape(bitmap: seq<bool>, inodes: seq<Inode>, blocks: seq<seq<byte>>, total: nat, n: nat)
    requires FsOk(bitmap, inodes, total) && BlocksOk(blocks, total) && n < MAX_INODES && IsFile(inodes[n])
    ensures InodeOk(inodes[n], total) && Pieces(blocks, BLOCK_SIZE, BlocksOf(inodes[n]))
    ensures |FileOf(inodes[n], blocks)| == inodes[n].size
  {
    hide Content;
    assert InodeOk(inodes[n], total);
    DraftFacts(inodes[n], blocks, total);
  }

  /** A part of a file that lies in one block. */
  lemma ReadPart(ino: Inode, blocks: seq<seq<byte>>, total: nat, pos: nat, k: nat)
    requires InodeOk(ino, total) && IsFile(ino) && BlocksOk(blocks, total) && Pieces(blocks, BLOCK_SIZE, BlocksOf(ino))
    requires pos < ino.size && pos + k <= ino.size && pos % BLOCK_SIZE + k <= BLOCK_SIZE
    ensures var j := pos / BLOCK_SIZE;
            && j < DIRECT_BLOCKS && |ino.direct| == DIRECT_BLOCKS && 1 <= ino.direct[j] < total
            && |blocks[ino.direct[j]]| == BLOCK_SIZE
            && pos + k <= |FileOf(ino, blocks)|
            && FileOf(ino, blocks)[pos..pos + k] == blocks[ino.direct[j]][pos % BLOCK_SIZE..pos % BLOCK_SIZE + k]
  {
    hide Content;
    var j, off, chain := pos / BLOCK_SIZE, pos % BLOCK_SIZE, BlocksOf(ino);
    assert pos == j * BLOCK_SIZE + off;
    assert j < |chain| && chain[j] == ino.direct[j];
    ContentLength(blocks, BLOCK_SIZE, chain);
    ContentAt(blocks, BLOCK_SIZE, chain, j);
    var c := Content(blocks, chain);
    SliceOfSlice(c, j * BLOCK_SIZE, (j + 1) * BLOCK_SIZE, off, off + k);
    SliceOfSlice(c, 0, ino.size, pos, pos + k);
  }

  /** `got` is the file from `offset` on, as far as it goes and as much as fits in `room` bytes. */
  ghost predicate FileRead(ino: Inode, blocks: seq<seq<byte>>, offset: nat, room: nat, got: seq<byte>) {
    && Pieces(blocks, BLOCK_SIZE, BlocksOf(ino))
    && var file := FileOf(ino, blocks);
       if offset >= |file| then got == []
       else |got| == Min(room, |file| - offset) && got == file[offset..offset + |got|]
  }

  /** A free inode made a file is empty and owns nothing. */
  lemma NewFile(bitmap: seq<bool>, inodes: seq<Inode>, blocks: seq<seq<byte>>, total: nat, n: nat)
    requires FsOk(bitmap, inodes, total) && BlocksOk(blocks, total) && n < MAX_INODES && inodes[n].mode == 0
    ensures var ino := inodes[n].(mode := FILE_MODE, size := 0);
            && IsFile(ino) && BlocksOf(ino) == [] && FileOf(ino, blocks) == []
            && FsOk(bitmap, inodes[n := ino], total)
            && OthersKept(inodes, blocks, inodes[n := ino], blocks, total, n)
  {
    hide NoDups, Apart;
    assert InodeOk(inodes[n], total);
    var ino := inodes[n].(mode := FILE_MODE, size := 0);
    assert BlocksOf(ino) == BlocksOf(inodes[n]) == [];
    Untouched(bitmap, inodes, blocks, total, n);
    hide BlocksOf, FileOf;
  }

  /** The bitmap without the marks of these blocks. */
  ghost function Unmarked(bitmap: seq<bool>, chain: seq<nat>): (r: seq<bool>)
    ensures |r| == |bitmap| && forall b :: 0 <= b < |bitmap| ==> (r[b] <==> bitmap[b] && b !in chain)
  {
    seq(|bitmap|, b requires 0 <= b < |bitmap| => bitmap[b] && b !in chain)
  }

  lemma UnmarkedNone(bitmap: seq<bool>)
    ensures Unmarked(bitmap, []) == bitmap
  {
  }

  lemma UnmarkedOne(bitmap: seq<bool>, chain: seq<nat>, b: nat)
    requires b < |bitmap|
    ensures Unmarked(bitmap, chain + [b]) == Unmarked(bitmap, chain)[b := false]
  {
  }

  lemma InodeFacts(ino: Inode, total: nat)
    requires InodeOk(ino, total)
    ensures |ino.direct| == DIRECT_BLOCKS && ino.blockCount <= DIRECT_BLOCKS
    ensures BlocksOf(ino) == ino.direct[..ino.blockCount]
    ensures forall i :: 0 <= i < ino.blockCount ==> 1 <= ino.direct[i] < total
  {
  }

  /** Without one inode and its blocks' marks all is well. */
  lemma RemoveOk(bitmap: seq<bool>, inodes: seq<Inode>, blocks: seq<seq<byte>>, total: nat, n: nat)
    requires FsOk(bitmap, inodes, total) && BlocksOk(blocks, total) && n < MAX_INODES
    ensures FsOk(Unmarked(bitmap, BlocksOf(inodes[n])), inodes[n := EMPTY_INODE], total)
    ensures OthersKept(inodes, blocks, inodes[n := EMPTY_INODE], blocks, total, n)
  {
    RemoveFs(bitmap, inodes, total, n);
    Untouched(bitmap, inodes, blocks, total, n);
    hide FsOk, FileOf, BlocksOf, Unmarked;
  }

  lemma RemoveFs(bitmap: seq<bool>, inodes: seq<Inode>, total: nat, n: nat)
    requires FsOk(bitmap, inodes, total) && n < MAX_INODES
    ensures FsOk(Unmarked(bitmap, BlocksOf(inodes[n])), inodes[n := EMPTY_INODE], total)
  {
    assert BlocksOf(EMPTY_INODE) == [] && InodeOk(EMPTY_INODE, total);
    assert InodeOk(inodes[n], total);
    InodeFacts(inodes[n], total);
    NoDupsEmpty();
    RemoveMarks(bitmap, inodes, total, n, inodes[n := EMPTY_INODE]);
    RemoveApart(bitmap, inodes, total, n, inodes[n := EMPTY_INODE]);
    hide InodeOk, BlocksOf, NoDups, Apart;
  }

  lemma RemoveMarks(bitmap: seq<bool>, inodes: seq<Inode>, total: nat, n: nat, inodes': seq<Inode>)
    requires FsOk(bitmap, inodes, total) && n < MAX_INODES && inodes' == inodes[n := EMPTY_INODE]
    ensures forall m, i :: 0 <= m < MAX_INODES && 0 <= i < |BlocksOf(inodes'[m])| ==>
      var b := BlocksOf(inodes'[m])[i]; b < BITMAP_BITS && Unmarked(bitmap, BlocksOf(inodes[n]))[b]
  {
    assert BlocksOf(EMPTY_INODE) == [];
    hide InodeOk, BlocksOf, NoDups;
    var chain := BlocksOf(inodes[n]);
    forall m, i | 0 <= m < MAX_INODES && 0 <= i < |BlocksOf(inodes'[m])|
      ensures var b := BlocksOf(inodes'[m])[i]; b < BITMAP_BITS && Unmarked(bitmap, chain)[b]
    {
      assert m != n && bitmap[BlocksOf(inodes[m])[i]];
      assert if m < n then Apart(BlocksOf(inodes[m]), chain) else Apart(chain, BlocksOf(inodes[m]));
    }
  }

  lemma RemoveApart(bitmap: seq<bool>, inodes: seq<Inode>, total: nat, n: nat, inodes': seq<Inode>)
    requires FsOk(bitmap, inodes, total) && n < MAX_INODES && inodes' == inodes[n := EMPTY_INODE]
    ensures forall i, k :: 0 <= i < k < MAX_INODES ==>
      Apart(BlocksOf(inodes'[i]), BlocksOf(inodes'[k]))
  {
    assert BlocksOf(EMPTY_INODE) == [];
    hide InodeOk, BlocksOf, NoDups, Apart;
    forall i, k | 0 <= i < k < MAX_INODES
      ensures Apart(BlocksOf(inodes'[i]), BlocksOf(inodes'[k]))
    {
      if i == n || k == n {
        ApartEmpty(BlocksOf(inodes'[i]), BlocksOf(inodes'[k]));
      } else {
        assert Apart(BlocksOf(inodes[i]), BlocksOf(inodes[k]));
      }
    }
  }

  lemma ApartEmpty(a: seq<nat>, b: seq<nat>)
    requires a == [] || b == []
    ensures Apart(a, b)
  {
  }

  lemma NoDupsEmpty()
    ensures NoDups([])
  {
  }

  /** One more mark does no harm. */
  lemma MarkOne(bitmap: seq<bool>, inodes: seq<Inode>, total: nat, b: nat)
    requires FsOk(bitmap, inodes, total) && b < |bitmap|
    ensures FsOk(bitmap[b := true], inodes, total)
  {
    hide InodeOk, NoDups, BlocksOf, Apart;
  }

  // ---- Blocks on the disk ----

  function SectorOf(b: nat): nat
    requires b >= 1
  {
    DATA_START + (b - 1) * SECTORS_PER_BLOCK
  }

  predicate OnDisk(total: nat, sectors: nat) { total >= 1 && DATA_START + (total - 1) * SECTORS_PER_BLOCK <= sectors }

  ghost function BlockData(sectors: Sectors, total: nat): seq<seq<byte>>
    requires OnDisk(total, |sectors|)
  {
    seq(total, b requires 0 <= b < total => if b == 0 then [] else Join(sectors, SectorOf(b), SECTORS_PER_BLOCK))
  }

  /** The block is in eight sectors, the first one 72 + 8 * (b - 1). */
  ghost predicate BlockOn(sectors: Sectors, b: nat, buf: seq<byte>)
    requires b >= 1
  {
    && 64 + 8 * b + 8 <= |sectors| && |buf| == 4096
    && forall s: nat :: s < 8 ==> buf[512 * s..512 * s + 512] == sectors[64 + 8 * b + s]
  }

  lemma BlockIsOn(sectors: Sectors, total: nat, b: nat)
    requires OnDisk(total, |sectors|) && Sized(sectors) && 1 <= b < total
    ensures BlockOn(sectors, b, BlockData(sectors, total)[b])
  {
    hide Join;
    JoinParts(sectors, SectorOf(b), SECTORS_PER_BLOCK);
  }

  lemma BlockDataOk(sectors: Sectors, total: nat)
    requires OnDisk(total, |sectors|) && Sized(sectors)
    ensures BlocksOk(BlockData(sectors, total), total)
  {
    forall b: nat | 1 <= b < total ensures |BlockData(sectors, total)[b]| == BLOCK_SIZE {
      JoinLength(sectors, SectorOf(b), SECTORS_PER_BLOCK);
    }
  }

  /** The s-th sector of a block follows those before it. */
  lemma BlockStep(sectors: Sectors, sectors': Sectors, first: nat, s: nat, buf: seq<byte>)
    requires first + s < |sectors| && s * 512 + 512 <= |buf| && Join(sectors, first, s) == buf[..s * 512]
    requires sectors' == sectors[first + s := buf[s * 512..s * 512 + 512]]
    ensures Join(sectors', first, s + 1) == buf[..(s + 1) * 512]
  {
    hide Join;
    JoinKept(sectors, sectors', first, s);
    JoinNext(sectors', first, s);
    SliceSplit(buf, 0, s * 512, s * 512 + 512);
  }

  /** Writing the sectors of one block changes that block only. */
  lemma BlockWritten(sectors: Sectors, sectors': Sectors, total: nat, b: nat, buf: seq<byte>)
    requires OnDisk(total, |sectors|) && |sectors'| == |sectors| && 1 <= b < total
    requires forall s :: 0 <= s < |sectors| && !(SectorOf(b) <= s < SectorOf(b) + SECTORS_PER_BLOCK) ==>
      sectors'[s] == sectors[s]
    requires Join(sectors', SectorOf(b), SECTORS_PER_BLOCK) == buf
    ensures BlockData(sectors', total) == BlockData(sectors, total)[b := buf]
  {
    hide Join;
    forall c: nat | 1 <= c < total && c != b ensures BlockData(sectors', total)[c] == BlockData(sectors, total)[c] {
      JoinKept(sectors, sectors', SectorOf(c), SECTORS_PER_BLOCK);
    }
  }
}

module ZohFs {
  import opened Wrappers
  import opened Bytes
  import opened Disks
  import opened Files
  import opened BufferCache
  import opened ZohFiles
  import opened ZohMeta

  class FileSystem {
    const cache: Cache
    const bitmap: array<bool>
    const inodes: array<Inode>
    var totalBlocks: nat
    var mounted: bool

    /** Nothing in the cache is dirty, and the tables have their sizes. */
    ghost predicate Ready()
      reads this, cache.disk, cache.data, cache.entries
    {
      cache.Valid() && cache.Clean() && bitmap.Length == BITMAP_BITS && inodes.Length == MAX_INODES
    }

    ghost predicate Valid()
      reads this, cache.disk, cache.data, cache.entries, bitmap, inodes
    {
      Ready() && OnDisk(totalBlocks, |cache.disk.sectors|) && FsOk(bitmap[..], inodes[..], totalBlocks)
    }

    /** Valid once mounted. */
    ghost predicate Usable()
      reads this, cache.disk, cache.data, cache.entries, bitmap, inodes
    {
      Ready() && (mounted ==> Valid())
    }

    ghost function Blocks(): seq<seq<byte>>
      reads this, cache.disk
    {
      if OnDisk(totalBlocks, |cache.disk.sectors|) then BlockData(cache.disk.sectors, totalBlocks) else []
    }

    /** Before mkfs or init. */
    constructor (cache: Cache)
      requires cache.Valid() && cache.Clean()
      ensures Usable() && this.cache == cache && !mounted && fresh(bitmap) && fresh(inodes)
    {
      this.cache, totalBlocks, mounted := cache, 0, false;
      bitmap := new bool[BITMAP_BITS](_ => false);
      inodes := new Inode[MAX_INODES](_ => EMPTY_INODE);
    }

    /** mkfs. What it sets up in memory is a filesystem of a root directory alone, with the ten system
        blocks marked; the disk records it, and nothing is mounted by it. The bytes behind the
        superblock and the padding of the inodes are whatever memory held. */
    method Mkfs(garbage: seq<byte>, pads: seq<seq<byte>>) returns (ok: bool)
      requires Ready() && |cache.disk.sectors| < SIZE_LIMIT && |garbage| == 76
      requires |pads| == MAX_INODES && forall n :: 0 <= n < MAX_INODES ==> |pads[n]| == 2
      modifies cache.disk, cache.data, cache.entries, bitmap, inodes
      ensures Ready() && |cache.disk.sectors| == |old(cache.disk.sectors)|
      ensures ok <==> |cache.disk.sectors| > DATA_START
      ensures forall b :: 0 <= b < BITMAP_BITS ==> bitmap[b] == (b < 10)
      ensures forall n :: 0 <= n < MAX_INODES ==> inodes[n] == if n == 1 then ROOT_DIR else EMPTY_INODE
      ensures ok ==> Recorded(cache.disk.sectors, BlocksOn(|cache.disk.sectors|), bitmap[..], inodes[..])
      ensures 2 <= BlocksOn(|cache.disk.sectors|) <= BITMAP_BITS ==>
        && FsOk(bitmap[..], inodes[..], BlocksOn(|cache.disk.sectors|))
        && OnDisk(BlocksOn(|cache.disk.sectors|), |cache.disk.sectors|)
    {
      hide Recorded, FsOk, SuperBytes, BitmapIn, InodesIn;
      var total := BlocksOn(|cache.disk.sectors|);
      FreshTables();
      if 2 <= total <= BITMAP_BITS {
        FreshFs(bitmap[..], inodes[..], total);
      }
      FreshFit(inodes[..]);
      var free := (total + SIZE_LIMIT - 9) % SIZE_LIMIT;
      var rest := garbage + Zeros(384);
      SuperRoundTrip(total, free, rest);
      var marks := PackBitmap(bitmap[..]);
      var table := PackInodes(inodes[..], pads);
      cache.CleanView();
      ok := cache.Format(SuperBytes(total, free, rest), marks, table);
      cache.CleanView();
      if ok {
        WritesRecord(cache.disk.sectors, total, free, rest, marks, table);
      }
    }

    /** The bitmap and the inodes as mkfs sets them. */
    method FreshTables()
      requires bitmap.Length == BITMAP_BITS && inodes.Length == MAX_INODES
      modifies bitmap, inodes
      ensures forall b :: 0 <= b < BITMAP_BITS ==> bitmap[b] == (b < 10)
      ensures forall n :: 0 <= n < MAX_INODES ==> inodes[n] == if n == 1 then ROOT_DIR else EMPTY_INODE
    {
      var i := 0;
      while i < BITMAP_BITS
        invariant 0 <= i <= BITMAP_BITS && forall b :: 0 <= b < i ==> !bitmap[b]
      {
        bitmap[i] := false;
        i := i + 1;
      }
      i := 0;
      while i < 10
        invariant 0 <= i <= 10 && forall b :: 0 <= b < BITMAP_BITS ==> bitmap[b] == (b < i)
      {
        bitmap[i] := true;
        i := i + 1;
      }
      i := 0;
      while i < MAX_INODES
        invariant 0 <= i <= MAX_INODES && forall n :: 0 <= n < i ==> inodes[n] == EMPTY_INODE
        modifies inodes
      {
        inodes[i] := EMPTY_INODE;
        i := i + 1;
      }
      inodes[1] := ROOT_DIR;
      bitmap[1] := true;
    }

    /** init: the disk's own account of itself. A disk without the magic number changes nothing; one with
        it is mounted, and its blocks, bitmap and inodes are what the disk records. */
    method Mount() returns (ok: bool)
      requires Ready()
      modifies this`mounted, this`totalBlocks, bitmap, inodes, cache.disk, cache.data, cache.entries
      ensures Ready() && cache.disk.sectors == old(cache.disk.sectors)
      ensures var d := cache.disk.sectors;
              && (ok <==> |d| > 0 && (IsZohFs(d[0]) ==> |d| >= DATA_START))
              && (|d| == 0 || !IsZohFs(d[0]) ==>
                    && mounted == old(mounted) && totalBlocks == old(totalBlocks)
                    && bitmap[..] == old(bitmap[..]) && inodes[..] == old(inodes[..]))
              && (|d| > 0 && IsZohFs(d[0]) ==> mounted && totalBlocks == TotalIn(d[0]))
      ensures forall total, marks, table :: Recorded(cache.disk.sectors, total, marks, table) ==>
        ok && mounted && totalBlocks == total && bitmap[..] == marks && inodes[..] == table
    {
      hide BitmapIn, InodesIn, Join, QuadAt;
      cache.CleanView();
      ghost var d := cache.disk.sectors;
      var sb := cache.CachedRead(0);
      cache.CleanView();
      if sb.Err? { return false; }
      cache.SeenSized();
      if QuadAt(sb.value, 0) != MAGIC { return true; }
      totalBlocks, mounted := QuadAt(sb.value, 12), true;
      ok := FetchBitmap();
      if !ok { return; }
      ok := FetchInodes();
    }

    /** The bitmap from sectors 1 to 7. */
    method FetchBitmap() returns (ok: bool)
      requires Ready()
      modifies bitmap, cache.disk, cache.data, cache.entries
      ensures Ready() && cache.disk.sectors == old(cache.disk.sectors) && (ok <==> |cache.disk.sectors| >= 8)
      ensures ok ==>
        var b := Join(cache.disk.sectors, 1, 7); |b| == BITMAP_BYTES && bitmap[..] == BitmapIn(b, BITMAP_WORDS)
    {
      hide BitmapIn, Join;
      cache.CleanView();
      var marks := new byte[BITMAP_BYTES];
      ok := cache.CachedReadSectors(1, 7, marks);
      cache.CleanView();
      if !ok { return; }
      assert marks[..] == marks[..7 * SECTOR_SIZE];
      LoadBitmap(marks[..]);
    }

    /** The inodes from sectors 8 to 71. */
    method FetchInodes() returns (ok: bool)
      requires Ready()
      modifies inodes, cache.disk, cache.data, cache.entries
      ensures Ready() && cache.disk.sectors == old(cache.disk.sectors) && (ok <==> |cache.disk.sectors| >= DATA_START)
      ensures ok ==>
        var b := Join(cache.disk.sectors, 8, 64);
        |b| == INODE_SLOT * MAX_INODES && inodes[..] == InodesIn(b, MAX_INODES)
    {
      hide InodesIn, Join;
      cache.CleanView();
      var table := new byte[INODE_SLOT * MAX_INODES];
      ok := cache.CachedReadSectors(8, 64, table);
      cache.CleanView();
      if !ok { return; }
      assert table[..] == table[..64 * SECTOR_SIZE];
      LoadInodes(table[..]);
    }

    method LoadBitmap(b: seq<byte>)
      requires bitmap.Length == BITMAP_BITS && |b| == BITMAP_BYTES
      modifies bitmap
      ensures bitmap[..] == BitmapIn(b, BITMAP_WORDS)
    {
      hide WordBits;
      var i := 0;
      while i < BITMAP_WORDS
        invariant 0 <= i <= BITMAP_WORDS && bitmap[..64 * i] == BitmapIn(b, i)
      {
        var bits := WordBits(b[8 * i..8 * i + 8]);
        ghost var before := bitmap[..64 * i];
        forall k | 64 * i <= k < 64 * i + 64 {
          bitmap[k] := bits[k - 64 * i];
        }
        assert bitmap[..64 * i + 64] == before + bits;
        i := i + 1;
      }
      assert bitmap[..64 * i] == bitmap[..];
    }

    method LoadInodes(b: seq<byte>)
      requires inodes.Length == MAX_INODES && |b| == INODE_SLOT * MAX_INODES
      modifies inodes
      ensures inodes[..] == InodesIn(b, MAX_INODES)
    {
      hide ParseInode;
      var i := 0;
      while i < MAX_INODES
        invariant 0 <= i <= MAX_INODES && inodes[..i] == InodesIn(b, i)
      {
        inodes[i] := ParseInode(b[INODE_SLOT * i..INODE_SLOT * i + INODE_SLOT]);
        i := i + 1;
      }
      assert inodes[..i] == inodes[..];
    }

    /** flush_root_dir, which creating and deleting end with: the directory's sector and the metadata
        reach the disk, and no file other than the directory changes. */
    method FlushRoot(dir: seq<byte>, free: nat, pads: seq<seq<byte>>) returns (ok: bool)
      requires Valid() && |dir| == SECTOR_SIZE
      requires |pads| == MAX_INODES && forall n :: 0 <= n < MAX_INODES ==> |pads[n]| == 2
      modifies cache.disk, cache.data, cache.entries
      ensures ok && Valid()
      ensures inodes[1].direct[0] == 0 ==> cache.disk.sectors == old(cache.disk.sectors)
      ensures inodes[1].direct[0] != 0 ==> Recorded(cache.disk.sectors, totalBlocks, bitmap[..], inodes[..])
      ensures OthersKept(inodes[..], old(Blocks()), inodes[..], Blocks(), totalBlocks, 1)
    {
      hide Recorded, FsOk, SuperBytes, BitmapIn, InodesIn, OthersKept, Join;
      Shapes();
      Untouched(bitmap[..], inodes[..], Blocks(), totalBlocks, 1);
      FileOk(bitmap[..], inodes[..], totalBlocks, 1);
      InodesFit(bitmap[..], inodes[..], totalBlocks);
      FirstBit(bitmap[..], inodes[..], totalBlocks);
      var block := inodes[1].direct[0];
      if block == 0 { return true; }
      ghost var d := cache.disk.sectors;
      var rest := Zeros(SECTOR_SIZE - 52);
      SuperRoundTrip(totalBlocks, free, rest);
      cache.CleanView();
      ok := cache.CachedWrite(SectorOf(block), dir);
      cache.CleanView();
      ghost var d1 := cache.disk.sectors;
      var marks := PackBitmap(bitmap[..]);
      var table := PackInodes(inodes[..], pads);
      ok := cache.WriteMetadata(SuperBytes(totalBlocks, free, rest), marks, table);
      cache.CleanView();
      WritesRecord(cache.disk.sectors, totalBlocks, free, rest, marks, table);
      FlushKeeps(bitmap[..], inodes[..], totalBlocks, d, d1, cache.disk.sectors, dir);
    }

    method ReadBlock(b: nat) returns (buf: seq<byte>)
      requires Valid() && 1 <= b < totalBlocks
      modifies cache.disk, cache.data, cache.entries
      ensures Valid() && cache.disk.sectors == old(cache.disk.sectors)
      ensures Blocks() == old(Blocks()) && |Blocks()| == totalBlocks && buf == Blocks()[b] && |buf| == BLOCK_SIZE
      ensures BlockOn(cache.disk.sectors, b, buf)
    {
      hide FsOk, Join, BlockOn;
      buf := [];
      var sector := SectorOf(b);
      var s := 0;
      JoinFirst(cache.disk.sectors, sector);
      while s < SECTORS_PER_BLOCK
        invariant 0 <= s <= SECTORS_PER_BLOCK && Valid() && cache.disk.sectors == old(cache.disk.sectors)
        invariant buf == Join(cache.disk.sectors, sector, s)
      {
        cache.CleanView();
        var sec := cache.CachedRead(sector + s);
        JoinNext(cache.disk.sectors, sector, s);
        buf := buf + sec.value;
        s := s + 1;
      }
      BlockDataOk(cache.disk.sectors, totalBlocks);
      BlockIsOn(cache.disk.sectors, totalBlocks, b);
    }

    method WriteBlock(b: nat, buf: seq<byte>)
      requires Valid() && 1 <= b < totalBlocks && |buf| == BLOCK_SIZE
      modifies cache.disk, cache.data, cache.entries
      ensures Valid() && Blocks() == old(Blocks())[b := buf]
      ensures |cache.disk.sectors| == |old(cache.disk.sectors)|
      ensures forall s :: 0 <= s < DATA_START ==> cache.disk.sectors[s] == old(cache.disk.sectors[s])
      ensures BlockOn(cache.disk.sectors, b, buf)
      ensures forall s :: 0 <= s < |cache.disk.sectors| && !(64 + 8 * b <= s < 72 + 8 * b) ==>
        cache.disk.sectors[s] == old(cache.disk.sectors)[s]
    {
      hide FsOk, Join, BlockOn;
      ghost var sectors := cache.disk.sectors;
      var sector := SectorOf(b);
      var s := 0;
      JoinFirst(cache.disk.sectors, sector);
      while s < SECTORS_PER_BLOCK
        invariant 0 <= s <= SECTORS_PER_BLOCK && Valid() && |cache.disk.sectors| == |sectors|
        invariant forall i :: 0 <= i < |sectors| && !(sector <= i < sector + SECTORS_PER_BLOCK) ==>
          cache.disk.sectors[i] == sectors[i]
        invariant Join(cache.disk.sectors, sector, s) == buf[..s * 512]
      {
        cache.CleanView();
        var sec := buf[s * 512..s * 512 + 512];
        ghost var before := cache.disk.sectors;
        var ok := cache.CachedWrite(sector + s, sec);
        BlockStep(before, cache.disk.sectors, sector, s, buf);
        s := s + 1;
      }
      assert buf[..s * 512] == buf;
      BlockWritten(sectors, cache.disk.sectors, totalBlocks, b, buf);
      BlockIsOn(cache.disk.sectors, totalBlocks, b);
    }

    /** The first block that is not marked, which gets marked; Err when all are. */
    method AllocBlock() returns (r: Result<nat, string>)
      requires Valid()
      modifies bitmap
      ensures Valid()
      ensures r.Ok? ==> && r.value < totalBlocks && !old(bitmap[r.value])
                        && bitmap[..] == old(bitmap[..])[r.value := true]
                        && forall b :: 0 <= b < r.value ==> old(bitmap[b])
      ensures r.Err? ==> bitmap[..] == old(bitmap[..]) && forall b :: 0 <= b < totalBlocks ==> bitmap[b]
    {
      var i := 0;
      while i < totalBlocks
        invariant 0 <= i <= totalBlocks && forall b :: 0 <= b < i ==> bitmap[b]
      {
        if !bitmap[i] {
          ghost var before := bitmap[..];
          bitmap[i] := true;
          MarkOne(before, inodes[..], totalBlocks, i);
          assert bitmap[..] == before[i := true];
          return Ok(i);
        }
        i := i + 1;
      }
      return Err("no free blocks");
    }

    /** The copy of inode n with a block at the current position, which is allocated if missing. */
    method EnsureBlock(ino: Inode, ghost bitmap0: seq<bool>, ghost inodes0: seq<Inode>, ghost blocks0: seq<seq<byte>>,
                       ghost n: nat, ghost offset: nat, ghost data: seq<byte>, ghost written: nat, blockIdx: nat,
                       ghost ordered: bool)
      returns (r: Result<Inode, string>)
      requires Valid() && blockIdx == (offset + written) / BLOCK_SIZE < DIRECT_BLOCKS
      requires ordered ==>
        Writing(bitmap0, inodes0, blocks0, totalBlocks, n, offset, data, written, bitmap[..], Blocks(), ino)
      requires !ordered ==>
        && Scattered(bitmap0, inodes0, blocks0, totalBlocks, n, offset / BLOCK_SIZE, blockIdx, bitmap[..], Blocks(),
                     ino)
        && inodes0[n].blockCount < offset / BLOCK_SIZE && ino.direct[blockIdx] == 0
      modifies bitmap
      ensures Valid() && cache.disk.sectors == old(cache.disk.sectors)
      ensures r.Ok? ==> |r.value.direct| == DIRECT_BLOCKS && 1 <= r.value.direct[blockIdx] < totalBlocks
      ensures r.Ok? && ordered ==>
        && Writing(bitmap0, inodes0, blocks0, totalBlocks, n, offset, data, written, bitmap[..], Blocks(), r.value)
        && blockIdx < r.value.blockCount && (r.value == ino || blockIdx + 1 == r.value.blockCount)
      ensures r.Ok? && !ordered ==>
        Scattered(bitmap0, inodes0, blocks0, totalBlocks, n, offset / BLOCK_SIZE, blockIdx + 1, bitmap[..], Blocks(),
                  r.value)
      ensures r.Err? ==> bitmap[..] == old(bitmap[..]) && forall b :: 0 <= b < totalBlocks ==> bitmap[b]
      ensures r.Err? && ordered ==> blockIdx == ino.blockCount
    {
      hide Valid, Blocks, Writing, Scattered, Grown, FsOk;
      Shapes();
      FirstBit(bitmap[..], inodes[..], totalBlocks);
      if ordered {
        WriteIndex(bitmap0, inodes0, blocks0, totalBlocks, n, offset, data, written, bitmap[..], Blocks(), ino,
                   blockIdx);
      } else {
        ScatterShape(bitmap0, inodes0, blocks0, totalBlocks, n, offset / BLOCK_SIZE, blockIdx, bitmap[..], Blocks(),
                     ino);
      }
      if ino.direct[blockIdx] != 0 {
        return Ok(ino);
      }
      ghost var before := bitmap[..];
      var b := AllocBlock();
      if b.Err? {
        return Err(b.error);
      }
      assert b.value < |before| && !before[b.value];
      var grown := ino.(direct := ino.direct[blockIdx := b.value], blockCount := blockIdx + 1);
      if ordered {
        WriteGrow(bitmap0, inodes0, blocks0, totalBlocks, n, offset, data, written, before, Blocks(), ino, b.value);
        GrownIs(ino, b.value);
        WriteIndex(bitmap0, inodes0, blocks0, totalBlocks, n, offset, data, written, bitmap[..], Blocks(), grown,
                   blockIdx);
      } else {
        ScatterGrow(bitmap0, inodes0, blocks0, totalBlocks, n, offset / BLOCK_SIZE, blockIdx, before, Blocks(), ino,
                    b.value, grown);
        ScatterWrite(bitmap0, inodes0, blocks0, totalBlocks, n, offset / BLOCK_SIZE, blockIdx + 1, bitmap[..], Blocks(),
                     grown, Zeros(BLOCK_SIZE));
      }
      return Ok(grown);
    }

    /** One turn of the loop: the part of the data that goes into one block. */
    method WriteTurn(ino: Inode, ghost bitmap0: seq<bool>, ghost inodes0: seq<Inode>, ghost blocks0: seq<seq<byte>>,
                     ghost n: nat, ghost offset: nat, data: seq<byte>, written: nat, pos: nat, ghost ordered: bool)
      returns (k: nat)
      requires Valid() && pos == offset + written && written < |data| && pos / BLOCK_SIZE < DIRECT_BLOCKS
      requires |ino.direct| == DIRECT_BLOCKS && 1 <= ino.direct[pos / BLOCK_SIZE] < totalBlocks
      requires ordered ==>
        && Writing(bitmap0, inodes0, blocks0, totalBlocks, n, offset, data, written, bitmap[..], Blocks(), ino)
        && pos / BLOCK_SIZE < ino.blockCount
      requires !ordered ==>
        Scattered(bitmap0, inodes0, blocks0, totalBlocks, n, offset / BLOCK_SIZE, pos / BLOCK_SIZE + 1, bitmap[..],
                  Blocks(), ino)
      modifies cache.disk, cache.data, cache.entries
      ensures Valid() && KeepsMetadata(old(cache.disk.sectors), cache.disk.sectors)
      ensures k == Min(|data| - written, BLOCK_SIZE - pos % BLOCK_SIZE)
      ensures ordered ==>
        Writing(bitmap0, inodes0, blocks0, totalBlocks, n, offset, data, written + k, bitmap[..], Blocks(), ino)
      ensures !ordered ==>
        Scattered(bitmap0, inodes0, blocks0, totalBlocks, n, offset / BLOCK_SIZE, pos / BLOCK_SIZE + 1, bitmap[..],
                  Blocks(), ino)
    {
      hide Valid, Blocks, Writing, Scattered, FsOk, Splice;
      var blockIdx, blockOffset := pos / BLOCK_SIZE, pos % BLOCK_SIZE;
      k := Min(|data| - written, BLOCK_SIZE - blockOffset);
      var blockNum := ino.direct[blockIdx];
      var buf := ReadBlock(blockNum);
      var changed := Splice(buf, blockOffset, data[written..written + k]);
      if ordered {
        WriteStep(bitmap0, inodes0, blocks0, totalBlocks, n, offset, data, written, bitmap[..], Blocks(), ino, blockIdx,
                  blockOffset, k);
      } else {
        DivMono(offset, pos);
        ScatterWrite(bitmap0, inodes0, blocks0, totalBlocks, n, offset / BLOCK_SIZE, blockIdx + 1, bitmap[..], Blocks(),
                     ino, changed);
      }
      WriteBlock(blockNum, changed);
    }

    /** One turn: the block at the current position, and the part of the data that goes into it. */
    method WritePart(ino: Inode, ghost bitmap0: seq<bool>, ghost inodes0: seq<Inode>, ghost blocks0: seq<seq<byte>>,
                     ghost n: nat, ghost offset: nat, data: seq<byte>, written: nat, pos: nat)
      returns (r: Result<Inode, string>, k: nat)
      requires Valid() && pos == offset + written && written < |data| && pos / BLOCK_SIZE < DIRECT_BLOCKS
      requires Going(bitmap0, inodes0, blocks0, totalBlocks, n, offset, data, written, bitmap[..], Blocks(), ino)
      modifies cache.disk, cache.data, cache.entries, bitmap
      ensures Valid() && KeepsMetadata(old(cache.disk.sectors), cache.disk.sectors)
      ensures r.Ok? ==>
        && 1 <= k <= |data| - written
        && Going(bitmap0, inodes0, blocks0, totalBlocks, n, offset, data, written + k, bitmap[..], Blocks(), r.value)
      ensures r.Err? ==>
        && OthersKept(inodes0, blocks0, inodes0, Blocks(), totalBlocks, n) && totalBlocks <= |bitmap0|
        && n < |inodes0| && !Enough(bitmap0, totalBlocks, inodes0[n], offset, data)
    {
      hide Valid, Blocks, Writing, Scattered, FsOk, OthersKept, Enough, InOrder, Snug;
      k := 0;
      ghost var ordered := InOrder(inodes0[n], offset, data);
      if !ordered {
        ScatterNext(bitmap0, inodes0, blocks0, totalBlocks, n, offset, written, bitmap[..], Blocks(), ino);
        DivMono(offset, pos);
      }
      r := EnsureBlock(ino, bitmap0, inodes0, blocks0, n, offset, data, written, pos / BLOCK_SIZE, ordered);
      if r.Err? {
        Shapes();
        FirstBit(bitmap[..], inodes[..], totalBlocks);
        GoingFails(bitmap0, inodes0, blocks0, totalBlocks, n, offset, data, written, bitmap[..], Blocks(), ino);
        return;
      }
      k := WriteTurn(r.value, bitmap0, inodes0, blocks0, n, offset, data, written, pos, ordered);
      TurnEnds(offset, written, k, data);
      if ordered {
        SnugStep(inodes0[n], ino, r.value, pos, k);
      }
    }

    ghost predicate Writable(n: nat)
      reads this, inodes
      requires inodes.Length == MAX_INODES
    {
      mounted && 1 <= n < MAX_INODES && IsFile(inodes[n])
    }

    /** write_file_data, at any offset. A write in order keeps the filesystem valid; one out of order
        does exactly when it fails for want of blocks, or when the 32 bits of the size make it cut
        the file to a size that its blocks fit. */
    method WriteFileData(n: nat, offset: nat, data: seq<byte>) returns (r: Result<nat, string>)
      requires Usable()
      modifies cache.disk, cache.data, cache.entries, bitmap, inodes
      ensures mounted ==> OthersKept(old(inodes[..]), old(Blocks()), inodes[..], Blocks(), totalBlocks, n)
      ensures KeepsMetadata(old(cache.disk.sectors), cache.disk.sectors)
      ensures r.Err? ==> Usable() && inodes[..] == old(inodes[..])
      ensures r.Ok? ==> old(Writable(n)) && r.value == Fitting(offset, data)
      ensures r.Ok? ==> (Valid() <==> InOrder(old(inodes[n]), offset, data) || Wraps(old(inodes[n]), offset))
      ensures !old(Writable(n)) ==> r.Err? && Blocks() == old(Blocks()) && bitmap[..] == old(bitmap[..])
      ensures old(Writable(n)) ==> (r.Ok? <==> Enough(old(bitmap[..]), totalBlocks, old(inodes[n]), offset, data))
      ensures r.Ok? && InOrder(old(inodes[n]), offset, data) ==>
        && FileWritten(old(inodes[n]), old(Blocks()), inodes[n], Blocks(), offset, data[..r.value])
        && Marked(old(bitmap[..]), bitmap[..], BlocksOf(inodes[n]))
      ensures r.Ok? && !InOrder(old(inodes[n]), offset, data) && Wraps(old(inodes[n]), offset) ==>
        && r.value == 0 && bitmap[..] == old(bitmap[..]) && Blocks() == old(Blocks())
        && FileCut(old(inodes[n]), inodes[n], Blocks(), offset % SIZE_LIMIT)
    {
      hide Valid, Blocks, Going, OthersKept, FileWritten, Closed, FsOk, BlocksOk, Marked, BlocksOf, Enough, InOrder,
        Wraps, FileCut;
      if !mounted { return Err("filesystem not mounted"); }
      Shapes();
      Untouched(bitmap[..], inodes[..], Blocks(), totalBlocks, n);
      if n == 0 || n >= MAX_INODES { return Err("invalid inode"); }
      var ino := inodes[n];
      if !IsFile(ino) { return Err("not a file"); }
      ghost var bitmap0, inodes0, blocks0 := bitmap[..], inodes[..], Blocks();
      GoingStart(bitmap0, inodes0, blocks0, totalBlocks, n, offset, data);
      var pos, written := offset, 0;
      while written < |data|
        invariant Valid() && inodes[..] == inodes0 && pos == offset + written && written <= |data|
        invariant KeepsMetadata(old(cache.disk.sectors), cache.disk.sectors)
        invariant Going(bitmap0, inodes0, blocks0, totalBlocks, n, offset, data, written, bitmap[..], Blocks(), ino)
        decreases |data| - written
      {
        if pos / BLOCK_SIZE >= DIRECT_BLOCKS { break; }
        var got, k := WritePart(ino, bitmap0, inodes0, blocks0, n, offset, data, written, pos);
        if got.Err? {
          Shapes();
          return Err(got.error);
        }
        ino := got.value;
        written := written + k;
        pos := pos + k;
      }
      GoingEnds(bitmap0, inodes0, blocks0, totalBlocks, n, offset, data, written, bitmap[..], Blocks(), ino);
      CloseIs(ino, offset + written);
      if offset + written > ino.size { ino := ino.(size := (offset + written) % SIZE_LIMIT); }
      Store(n, ino);
      return Ok(written);
    }

    /** read_file_data: the bytes of the file from `offset` on, as many as there are and fit the buffer. */
    method ReadFileData(n: nat, offset: nat, buf: array<byte>) returns (r: Result<nat, string>)
      requires Usable()
      modifies cache.disk, cache.data, cache.entries, buf
      ensures Usable() && cache.disk.sectors == old(cache.disk.sectors)
      ensures r.Ok? <==> Writable(n)
      ensures r.Ok? ==> r.value <= buf.Length && FileRead(inodes[n], Blocks(), offset, buf.Length, buf[..r.value])
      ensures forall k :: (if r.Ok? then r.value else 0) <= k < buf.Length ==> buf[k] == old(buf[k])
    {
      hide Valid, Blocks, FsOk, InodeOk, FileOf, BlocksOf, BlocksOk, OnDisk, BlockOn, IsFile;
      if !mounted { return Err("filesystem not mounted"); }
      Shapes();
      if n == 0 || n >= MAX_INODES { return Err("invalid inode"); }
      var ino := inodes[n];
      if !IsFile(ino) { return Err("not a file"); }
      ghost var blocks := Blocks();
      FileShape(bitmap[..], inodes[..], blocks, totalBlocks, n);
      ghost var file := FileOf(ino, blocks);
      if offset >= ino.size { return Ok(0); }
      var toRead := Min(buf.Length, ino.size - offset);
      var bytesRead, pos := 0, offset;
      while bytesRead < toRead
        invariant Valid() && cache.disk.sectors == old(cache.disk.sectors) && Blocks() == blocks
        invariant 0 <= bytesRead <= toRead && pos == offset + bytesRead && buf[..bytesRead] == file[offset..pos]
        invariant forall k :: bytesRead <= k < buf.Length ==> buf[k] == old(buf[k])
      {
        var blockIdx, blockOffset := pos / BLOCK_SIZE, pos % BLOCK_SIZE;
        var k := Min(toRead - bytesRead, BLOCK_SIZE - blockOffset);
        ReadPart(ino, blocks, totalBlocks, pos, k);
        if blockIdx >= DIRECT_BLOCKS { break; }
        var blockNum := ino.direct[blockIdx];
        if blockNum == 0 { break; }
        ReadTurn(blockNum, blockOffset, k, buf, bytesRead);
        SliceSplit(file, offset, pos, pos + k);
        bytesRead := bytesRead + k;
        pos := pos + k;
      }
      Shapes();
      return Ok(bytesRead);
    }

    /** One turn: k bytes of a block join what has been read. */
    method ReadTurn(b: nat, off: nat, k: nat, buf: array<byte>, at: nat)
      requires Valid() && 1 <= b < totalBlocks && off + k <= BLOCK_SIZE && at + k <= buf.Length
      modifies cache.disk, cache.data, cache.entries, buf
      ensures Valid() && cache.disk.sectors == old(cache.disk.sectors) && Blocks() == old(Blocks())
      ensures b < |Blocks()| && |Blocks()[b]| == BLOCK_SIZE
      ensures buf[..at + k] == old(buf[..at]) + Blocks()[b][off..off + k]
      ensures forall i :: at + k <= i < buf.Length ==> buf[i] == old(buf[i])
    {
      hide Valid, Blocks, OnDisk;
      Shapes();
      var block := ReadBlock(b);
      CopyIn(buf, at, block[off..off + k]);
    }

    /** The first inode from 1 on that is free. */
    method AllocInode() returns (r: Result<nat, string>)
      requires Valid()
      ensures r.Ok? ==> 1 <= r.value < MAX_INODES && inodes[r.value].mode == 0
      ensures r.Ok? ==> forall i :: 1 <= i < r.value ==> inodes[i].mode != 0
      ensures r.Err? ==> forall i :: 1 <= i < MAX_INODES ==> inodes[i].mode != 0
    {
      var i := 1;
      while i < MAX_INODES
        invariant 1 <= i <= MAX_INODES && forall j :: 1 <= j < i ==> inodes[j].mode != 0
      {
        if inodes[i].mode == 0 { return Ok(i); }
        i := i + 1;
      }
      return Err("no free inodes");
    }

    /** create_file, as far as inodes go: an empty file; all others stay. */
    method CreateInode() returns (r: Result<nat, string>)
      requires Valid()
      modifies inodes
      ensures Valid() && bitmap[..] == old(bitmap[..])
      ensures r.Ok? <==> exists i :: 1 <= i < MAX_INODES && old(inodes[i].mode) == 0
      ensures r.Ok? ==> && 1 <= r.value < MAX_INODES && old(inodes[r.value].mode) == 0
                        && IsFile(inodes[r.value]) && BlocksOf(inodes[r.value]) == []
                        && FileOf(inodes[r.value], Blocks()) == []
                        && OthersKept(old(inodes[..]), Blocks(), inodes[..], Blocks(), totalBlocks, r.value)
      ensures r.Err? ==> inodes[..] == old(inodes[..])
    {
      r := AllocInode();
      if r.Err? { return; }
      var ino := inodes[r.value].(mode := FILE_MODE, size := 0);
      hide Valid, FsOk, InodeOk, OthersKept, Blocks;
      Shapes();
      NewFile(bitmap[..], inodes[..], Blocks(), totalBlocks, r.value);
      Store(r.value, ino);
    }

    /** free_inode_blocks: the blocks of the inode, and no others, are unmarked. */
    method FreeInodeBlocks(n: nat) returns (ok: bool)
      requires Valid()
      modifies bitmap
      ensures ok <==> 1 <= n < MAX_INODES
      ensures bitmap[..] == if ok then Unmarked(old(bitmap[..]), BlocksOf(inodes[n])) else old(bitmap[..])
    {
      if n == 0 || n >= MAX_INODES { return false; }
      var ino := inodes[n];
      assert InodeOk(ino, totalBlocks);
      InodeFacts(ino, totalBlocks);
      assert totalBlocks <= bitmap.Length;
      hide InodeOk, Unmarked, Valid, FsOk, BlocksOf;
      var i := 0;
      UnmarkedNone(bitmap[..]);
      while i < Min(ino.blockCount, DIRECT_BLOCKS)
        invariant 0 <= i <= ino.blockCount && bitmap[..] == Unmarked(old(bitmap[..]), ino.direct[..i])
      {
        var block := ino.direct[i];
        UnmarkedOne(old(bitmap[..]), ino.direct[..i], block);
        assert ino.direct[..i + 1] == ino.direct[..i] + [block];
        if block > 0 {
          bitmap[block] := false;
        }
        i := i + 1;
      }
      return true;
    }

    /** delete_file, as far as inodes go: the inode is free again and its blocks are too; every other
        inode keeps its file. */
    method RemoveInode(n: nat) returns (ok: bool)
      requires Valid()
      modifies bitmap, inodes
      ensures Valid() && (ok <==> 1 <= n < MAX_INODES)
      ensures !ok ==> bitmap[..] == old(bitmap[..]) && inodes[..] == old(inodes[..])
      ensures ok ==> && inodes[..] == old(inodes[..])[n := EMPTY_INODE]
                     && bitmap[..] == Unmarked(old(bitmap[..]), old(BlocksOf(inodes[n])))
                     && OthersKept(old(inodes[..]), Blocks(), inodes[..], Blocks(), totalBlocks, n)
    {
      hide FsOk, OthersKept, Blocks, Unmarked;
      Shapes();
      ok := FreeInodeBlocks(n);
      if !ok { return; }
      RemoveOk(old(bitmap[..]), inodes[..], Blocks(), totalBlocks, n);
      inodes[n] := EMPTY_INODE;
      assert inodes[..] == old(inodes[..])[n := EMPTY_INODE];
    }

    /** The inode goes back into the table. */
    method Store(n: nat, ino: Inode)
      requires Valid() && n < MAX_INODES
      modifies inodes
      ensures n < inodes.Length && inodes[..] == old(inodes[..])[n := ino]
      ensures Valid() <==> FsOk(bitmap[..], inodes[..], totalBlocks)
    {
      inodes[n] := ino;
      assert inodes[..] == old(inodes[..])[n := ino];
    }

    lemma Shapes()
      requires Valid()
      ensures bitmap.Length == BITMAP_BITS && inodes.Length == MAX_INODES && FsOk(bitmap[..], inodes[..], totalBlocks)
      ensures Ready() && BlocksOk(Blocks(), totalBlocks) && DATA_START <= |cache.disk.sectors|
    {
      BlockDataOk(cache.disk.sectors, totalBlocks);
    }
  }

  lemma FreshFit(inodes: seq<Inode>)
    requires |inodes| == MAX_INODES
    requires forall n :: 0 <= n < MAX_INODES ==> inodes[n] == if n == 1 then ROOT_DIR else EMPTY_INODE
    ensures forall n :: 0 <= n < MAX_INODES ==> InodeFits(inodes[n])
  {
  }

  /** The directory's sector is in its own block, and the metadata is in none. */
  lemma FlushKeeps(bitmap: seq<bool>, inodes: seq<Inode>, total: nat, d: Sectors, d1: Sectors, d2: Sectors,
                   dir: seq<byte>)
    requires FsOk(bitmap, inodes, total) && OnDisk(total, |d|) && Sized(d) && Sized(d2) && |d2| == |d|
    requires var b := inodes[1].direct[0]; 1 <= b < total && d1 == d[SectorOf(b) := dir]
    requires forall s :: DATA_START <= s < |d| ==> d2[s] == d1[s]
    ensures OthersKept(inodes, BlockData(d, total), inodes, BlockData(d2, total), total, 1)
  {
    var b, blocks0, blocks := inodes[1].direct[0], BlockData(d, total), BlockData(d2, total);
    hide Join, Content, InodeOk, FileOf, BlocksOf, NoDups;
    BlockDataOk(d, total);
    BlockDataOk(d2, total);
    forall c: nat | c < total && c != b ensures blocks[c] == blocks0[c] {
      if c > 0 {
        JoinKept(d, d2, SectorOf(c), SECTORS_PER_BLOCK);
      }
    }
    forall m | 0 <= m < MAX_INODES && m != 1
      ensures Pieces(blocks0, BLOCK_SIZE, BlocksOf(inodes[m])) && Pieces(blocks, BLOCK_SIZE, BlocksOf(inodes[m]))
      ensures FileOf(inodes[m], blocks) == FileOf(inodes[m], blocks0)
    {
      RootApart(bitmap, inodes, total, m);
      FileOk(bitmap, inodes, total, m);
      OtherFile(inodes[m], blocks0, blocks, total, [b]);
    }
  }

  /** No other inode has the directory's block. */
  lemma RootApart(bitmap: seq<bool>, inodes: seq<Inode>, total: nat, m: nat)
    requires FsOk(bitmap, inodes, total) && m < MAX_INODES && m != 1 && inodes[1].direct[0] != 0
    ensures Apart(BlocksOf(inodes[m]), [inodes[1].direct[0]])
  {
    FileOk(bitmap, inodes, total, 1);
    var b := inodes[1].direct[0];
    assert BlocksOf(inodes[1])[0] == b;
    assert if m < 1 then Apart(BlocksOf(inodes[m]), BlocksOf(inodes[1]))
      else Apart(BlocksOf(inodes[1]), BlocksOf(inodes[m]));
  }

  /** The next boot: an empty cache, nothing mounted, and init. What the disk records comes back, and with
      it every file; what it does not record is gone. */
  method Restart(fs: FileSystem) returns (next: FileSystem)
    requires fs.Ready()
    modifies fs.cache.disk
    ensures fs.cache.disk.sectors == old(fs.cache.disk.sectors)
    ensures next.Ready() && next.cache.disk == fs.cache.disk
    ensures forall total, marks, table :: Recorded(fs.cache.disk.sectors, total, marks, table) ==>
      && next.mounted && next.totalBlocks == total && next.bitmap[..] == marks && next.inodes[..] == table
      && (FsOk(marks, table, total) && OnDisk(total, |fs.cache.disk.sectors|) ==> next.Valid())
    ensures old(fs.Valid()) && Recorded(fs.cache.disk.sectors, fs.totalBlocks, fs.bitmap[..], fs.inodes[..]) ==>
      next.Valid() && next.Blocks() == old(fs.Blocks())
  {
    hide Recorded;
    var cache := new Cache(fs.cache.disk);
    next := new FileSystem(cache);
    var ok := next.Mount();
  }
}
