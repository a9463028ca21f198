// The kernel heap: src/allocator.rs. Size-class free lists, threaded through the freed blocks
// themselves, over a bump allocator.

module HeapBlocks {
  import opened Wrappers
  import opened Numbers
  import opened Bytes
  import opened Files

  const BLOCK_SIZES := [8, 16, 32, 64, 128, 256, 512, 1024, 2048]
  const CLASSES := 9

  datatype Layout = Layout(size: nat, align: nat)

  predicate IsPow2(n: nat) { n == 1 || (n > 1 && n % 2 == 0 && IsPow2(n / 2)) }

  /** What an allocation request is: some bytes, at a power of two. */
  predicate Proper(l: Layout) { l.size >= 1 && IsPow2(l.align) }

  function Required(l: Layout): nat { if l.size >= l.align then l.size else l.align }

  /** A block of a size class, or one that the bump allocator made to measure. */
  datatype Kind = Small(index: nat) | Large(size: nat)

  predicate KindOk(k: Kind) { if k.Small? then k.index < CLASSES else k.size >= 1 }

  function SizeOf(k: Kind): nat
    requires KindOk(k)
  {
    match k
    case Small(i) => BLOCK_SIZES[i]
    case Large(n) => n
  }

  /** The smallest class that is large enough. */
  function KindFor(l: Layout): (k: Kind)
    requires Proper(l)
    ensures KindOk(k)
    ensures k.Small? ==> BLOCK_SIZES[k.index] >= Required(l) && (k.index > 0 ==> BLOCK_SIZES[k.index - 1] < Required(l))
    ensures k.Large? ==> k.size == l.size && Required(l) > 2048
  {
    var n := Required(l);
    if n <= 8 then Small(0) else if n <= 16 then Small(1) else if n <= 32 then Small(2)
    else if n <= 64 then Small(3) else if n <= 128 then Small(4) else if n <= 256 then Small(5)
    else if n <= 512 then Small(6) else if n <= 1024 then Small(7) else if n <= 2048 then Small(8)
    else Large(l.size)
  }

  lemma {:induction false} Pow2Divides(a: nat, b: nat)
    requires IsPow2(a) && IsPow2(b) && a <= b
    ensures b % a == 0
  {
    if a > 1 {
      Pow2Divides(a / 2, b / 2);
      var k := b / 2 / (a / 2);
      assert b / 2 == k * (a / 2);
      assert b == k * a;
      MulMod(k, a);
    }
  }

  lemma MulMod(k: nat, a: nat)
    requires a > 0
    ensures (k * a) % a == 0
  {
    var x := k * a;
    var q := x / a;
    assert x == q * a + x % a;
    if q < k {
      MulStep(q, k, a);
    } else if k < q {
      MulStep(k, q, a);
    }
  }

  /** The first multiple of `align` from n on. */
  function AlignUp(n: nat, align: nat): nat
    requires align > 0
  {
    (n + align - 1) / align * align
  }

  lemma AlignedUp(n: nat, align: nat)
    requires align > 0
    ensures n <= AlignUp(n, align) < n + align && AlignUp(n, align) % align == 0
  {
    var q := (n + align - 1) / align;
    assert q * align + (n + align - 1) % align == n + align - 1;
    MulMod(q, align);
  }

  // ---- Free lists in memory ----

  /** The pointer that a free block begins with. */
  function Word(mem: seq<byte>, a: nat): nat
    requires a + 8 <= |mem|
  {
    FromLe(mem[a..a + 8])
  }

  /** `list` is what following the pointers from `head` visits, up to the null pointer. */
  ghost predicate Chained(mem: seq<byte>, head: nat, list: seq<nat>)
    decreases |list|
  {
    if list == [] then head == 0
    else head == list[0] && head != 0 && head + 8 <= |mem| && Chained(mem, Word(mem, head), list[1..])
  }

  lemma {:induction false} ChainKept(mem: seq<byte>, mem': seq<byte>, head: nat, list: seq<nat>)
    requires Chained(mem, head, list) && |mem'| == |mem|
    requires forall k :: 0 <= k < |list| ==>
      list[k] + 8 <= |mem| && mem'[list[k]..list[k] + 8] == mem[list[k]..list[k] + 8]
    ensures Chained(mem', head, list)
    decreases |list|
  {
    if list != [] {
      assert mem'[list[0]..list[0] + 8] == mem[list[0]..list[0] + 8];
      ChainKept(mem, mem', Word(mem, head), list[1..]);
    }
  }

  // ---- The heap ----

  /** Blocks lie inside the part of the heap handed out so far, class blocks on a multiple of their
      size, and no two overlap. */
  ghost predicate Carved(start: nat, next: nat, blocks: map<nat, Kind>) {
    && (forall a :: a in blocks ==> KindOk(blocks[a]) && start <= a && a + SizeOf(blocks[a]) <= next)
    && (forall a :: a in blocks && blocks[a].Small? ==> a % BLOCK_SIZES[blocks[a].index] == 0)
    && (forall a, b :: a in blocks && b in blocks && a < b ==> a + SizeOf(blocks[a]) <= b)
  }

  /** The free list of class i holds exactly its blocks that are not live, each once, and is
      threaded through them. */
  ghost predicate ListOk(mem: seq<byte>, head: nat, list: seq<nat>, blocks: map<nat, Kind>, live: set<nat>, i: nat) {
    && NoDups(list) && Chained(mem, head, list)
    && forall a :: a in list <==> a in blocks && blocks[a] == Small(i) && a !in live
  }

  ghost predicate HeapOk(mem: seq<byte>, start: nat, next: nat, end: nat, heads: seq<nat>, lists: seq<seq<nat>>,
                         blocks: map<nat, Kind>, live: set<nat>)
  {
    && 0 < start <= next <= end <= |mem| && end <= 0x1_0000_0000_0000_0000
    && |heads| == |lists| == CLASSES && live <= blocks.Keys && Carved(start, next, blocks)
    && forall i :: 0 <= i < CLASSES ==> ListOk(mem, heads[i], lists[i], blocks, live, i)
  }

  lemma CarveOne(start: nat, next: nat, blocks: map<nat, Kind>, a: nat, k: Kind)
    requires Carved(start, next, blocks) && KindOk(k) && start <= next <= a
    requires (k.Small? ==> a % BLOCK_SIZES[k.index] == 0)
    ensures a !in blocks && Carved(start, a + SizeOf(k), blocks[a := k])
  {
  }

  /** A new block, live from the start, touches no list. */
  lemma BumpKeeps(mem: seq<byte>, start: nat, next: nat, end: nat, heads: seq<nat>, lists: seq<seq<nat>>,
                  blocks: map<nat, Kind>, live: set<nat>, a: nat, k: Kind)
    requires HeapOk(mem, start, next, end, heads, lists, blocks, live)
    requires KindOk(k) && next <= a && a + SizeOf(k) <= end && (k.Small? ==> a % BLOCK_SIZES[k.index] == 0)
    ensures a !in blocks && HeapOk(mem, start, a + SizeOf(k), end, heads, lists, blocks[a := k], live + {a})
  {
    hide Chained, NoDups;
    CarveOne(start, next, blocks, a, k);
    hide Carved;
    forall i | 0 <= i < CLASSES ensures ListOk(mem, heads[i], lists[i], blocks[a := k], live + {a}, i) {
      assert ListOk(mem, heads[i], lists[i], blocks, live, i);
    }
  }

  /** The first block of a list becomes live, and its pointer the head. */
  lemma PopKeeps(mem: seq<byte>, start: nat, next: nat, end: nat, heads: seq<nat>, lists: seq<seq<nat>>,
                 blocks: map<nat, Kind>, live: set<nat>, i: nat)
    requires HeapOk(mem, start, next, end, heads, lists, blocks, live) && i < CLASSES && heads[i] != 0
    ensures lists[i] != [] && heads[i] == lists[i][0] && heads[i] + 8 <= |mem|
    ensures heads[i] in blocks && blocks[heads[i]] == Small(i) && heads[i] !in live
    ensures HeapOk(mem, start, next, end, heads[i := Word(mem, heads[i])], lists[i := lists[i][1..]], blocks,
                   live + {heads[i]})
  {
    hide Carved, Word;
    assert ListOk(mem, heads[i], lists[i], blocks, live, i);
    var a, rest := heads[i], lists[i][1..];
    assert a in lists[i] && lists[i] == [a] + rest;
    forall j | 0 <= j < CLASSES && j != i ensures ListOk(mem, heads[j], lists[j], blocks, live + {a}, j) {
      assert ListOk(mem, heads[j], lists[j], blocks, live, j);
    }
    forall x ensures x in rest <==> x in blocks && blocks[x] == Small(i) && x !in live + {a} {
      assert x in lists[i] <==> x == a || x in rest;
    }
  }

  /** A live class block goes to the front of its list; only its own first bytes change. */
  lemma PushKeeps(mem: seq<byte>, start: nat, next: nat, end: nat, heads: seq<nat>, lists: seq<seq<nat>>,
                  blocks: map<nat, Kind>, live: set<nat>, a: nat, i: nat)
    requires HeapOk(mem, start, next, end, heads, lists, blocks, live) && i < CLASSES
    requires a in live && a in blocks && blocks[a] == Small(i)
    ensures a + 8 <= a + BLOCK_SIZES[i] <= |mem|
    ensures var mem' := Splice(mem, a, ToLe(heads[i], 8));
            HeapOk(mem', start, next, end, heads[i := a], lists[i := [a] + lists[i]], blocks, live - {a})
  {
    hide Chained, Word, NoDups;
    assert a + 8 <= a + SizeOf(blocks[a]);
    var mem' := Splice(mem, a, ToLe(heads[i], 8));
    forall j | 0 <= j < CLASSES ensures Chained(mem', heads[j], lists[j]) {
      OtherBlocks(mem, mem', start, next, end, heads, lists, blocks, live, a, j);
    }
    HeadFits(mem, start, next, end, heads, lists, blocks, live, i);
    WordWritten(mem, a, heads[i]);
    hide Carved, Splice;
    assert ListOk(mem, heads[i], lists[i], blocks, live, i);
    PushList(mem', heads[i], lists[i], a);
    assert ListOk(mem', a, [a] + lists[i], blocks, live - {a}, i);
    forall j | 0 <= j < CLASSES && j != i ensures ListOk(mem', heads[j], lists[j], blocks, live - {a}, j) {
      assert ListOk(mem, heads[j], lists[j], blocks, live, j);
    }
  }

  lemma WordWritten(mem: seq<byte>, a: nat, v: nat)
    requires a + 8 <= |mem| && v < 0x1_0000_0000_0000_0000
    ensures Word(Splice(mem, a, ToLe(v, 8)), a) == v
  {
    Pow256Values();
    FromToLe(v, 8);
  }

  lemma PushList(mem: seq<byte>, head: nat, list: seq<nat>, a: nat)
    requires Chained(mem, head, list) && NoDups(list) && a !in list && a != 0 && a + 8 <= |mem| && Word(mem, a) == head
    ensures Chained(mem, a, [a] + list) && NoDups([a] + list) && forall x :: x in [a] + list <==> x == a || x in list
  {
    assert ([a] + list)[1..] == list;
  }

  lemma HeadFits(mem: seq<byte>, start: nat, next: nat, end: nat, heads: seq<nat>, lists: seq<seq<nat>>,
                 blocks: map<nat, Kind>, live: set<nat>, i: nat)
    requires HeapOk(mem, start, next, end, heads, lists, blocks, live) && i < CLASSES
    ensures heads[i] < 0x1_0000_0000_0000_0000
  {
    assert ListOk(mem, heads[i], lists[i], blocks, live, i);
    if lists[i] != [] {
      assert lists[i][0] in lists[i];
    }
  }

  /** Bytes written inside one block leave the pointers in free blocks alone. */
  lemma OtherBlocks(mem: seq<byte>, mem': seq<byte>, start: nat, next: nat, end: nat, heads: seq<nat>,
                    lists: seq<seq<nat>>, blocks: map<nat, Kind>, live: set<nat>, a: nat, j: nat)
    requires HeapOk(mem, start, next, end, heads, lists, blocks, live) && j < CLASSES
    requires a in live && a in blocks && |mem'| == |mem|
    requires forall x :: 0 <= x < |mem| && !(a <= x < a + SizeOf(blocks[a])) ==> mem'[x] == mem[x]
    ensures Chained(mem', heads[j], lists[j])
  {
    hide Chained;
    assert ListOk(mem, heads[j], lists[j], blocks, live, j);
    forall k | 0 <= k < |lists[j]|
      ensures lists[j][k] + 8 <= |mem| && mem'[lists[j][k]..lists[j][k] + 8] == mem[lists[j][k]..lists[j][k] + 8]
    {
      var b := lists[j][k];
      assert b in lists[j];
      assert b != a && SizeOf(blocks[b]) >= 8;
      assert b < a ==> b + SizeOf(blocks[b]) <= a;
      assert a < b ==> a + SizeOf(blocks[a]) <= b;
    }
    ChainKept(mem, mem', heads[j], lists[j]);
  }

  /** A large block is given up: it stays carved, is no longer live, and is on no list. */
  lemma DropKeeps(mem: seq<byte>, start: nat, next: nat, end: nat, heads: seq<nat>, lists: seq<seq<nat>>,
                  blocks: map<nat, Kind>, live: set<nat>, a: nat)
    requires HeapOk(mem, start, next, end, heads, lists, blocks, live) && a in live && a in blocks && blocks[a].Large?
    ensures HeapOk(mem, start, next, end, heads, lists, blocks, live - {a})
  {
    hide Carved, Chained, NoDups;
    forall i | 0 <= i < CLASSES ensures ListOk(mem, heads[i], lists[i], blocks, live - {a}, i) {
      assert ListOk(mem, heads[i], lists[i], blocks, live, i);
    }
  }

  /** Whatever the owner of a live block writes into it, the heap stays sound. */
  lemma OwnerMayWrite(mem: seq<byte>, start: nat, next: nat, end: nat, heads: seq<nat>, lists: seq<seq<nat>>,
                      blocks: map<nat, Kind>, live: set<nat>, a: nat, mem': seq<byte>)
    requires HeapOk(mem, start, next, end, heads, lists, blocks, live) && a in live && a in blocks && |mem'| == |mem|
    requires forall x :: 0 <= x < |mem| && !(a <= x < a + SizeOf(blocks[a])) ==> mem'[x] == mem[x]
    ensures HeapOk(mem', start, next, end, heads, lists, blocks, live)
  {
    forall i | 0 <= i < CLASSES ensures ListOk(mem', heads[i], lists[i], blocks, live, i) {
      assert ListOk(mem, heads[i], lists[i], blocks, live, i);
      OtherBlocks(mem, mem', start, next, end, heads, lists, blocks, live, a, i);
    }
  }

  // ---- How many blocks a class has ----

  ghost function ClassBlocks(blocks: map<nat, Kind>, i: nat): set<nat> { set a | a in blocks && blocks[a] == Small(i) }

  ghost function LiveBlocks(blocks: map<nat, Kind>, live: set<nat>, i: nat): set<nat> {
    set a | a in live && a in blocks && blocks[a] == Small(i)
  }

  lemma LiveAreBlocks(blocks: map<nat, Kind>, live: set<nat>, i: nat)
    ensures |LiveBlocks(blocks, live, i)| <= |ClassBlocks(blocks, i)|
  {
    SubsetSize(LiveBlocks(blocks, live, i), ClassBlocks(blocks, i));
  }

  lemma {:induction false} SubsetSize(a: set<nat>, b: set<nat>)
    requires a <= b
    ensures |a| <= |b|
  {
    if a != {} {
      var x :| x in a;
      SubsetSize(a - {x}, b - {x});
    }
  }

  /** Without a free block of its class, every block of the class is live. */
  lemma NoneFree(mem: seq<byte>, start: nat, next: nat, end: nat, heads: seq<nat>, lists: seq<seq<nat>>,
                 blocks: map<nat, Kind>, live: set<nat>, i: nat)
    requires HeapOk(mem, start, next, end, heads, lists, blocks, live) && i < CLASSES && lists[i] == []
    ensures |LiveBlocks(blocks, live, i)| == |ClassBlocks(blocks, i)|
  {
    hide Chained, NoDups, Carved;
    assert ListOk(mem, heads[i], lists[i], blocks, live, i);
    assert LiveBlocks(blocks, live, i) == ClassBlocks(blocks, i);
  }

  /** A granted request: a class gets a new block only when all it has are live, so it never has more
      blocks than were live at once. */
  lemma GrantCounts(mem: seq<byte>, start: nat, next: nat, end: nat, heads: seq<nat>, lists: seq<seq<nat>>,
                    blocks: map<nat, Kind>, live: set<nat>, p: nat, k: Kind, i: nat)
    requires HeapOk(mem, start, next, end, heads, lists, blocks, live) && KindOk(k) && p !in live && i < CLASSES
    requires if k.Small? && lists[k.index] != [] then p == lists[k.index][0] else p !in blocks
    ensures var now := LiveBlocks(blocks[p := k], live + {p}, i);
            && |now| == |LiveBlocks(blocks, live, i)| + (if k == Small(i) then 1 else 0)
            && |ClassBlocks(blocks[p := k], i)| == Max(|ClassBlocks(blocks, i)|, |now|)
  {
    hide Chained, NoDups, Carved, ClassBlocks, LiveBlocks;
    if k.Small? {
      assert ListOk(mem, heads[k.index], lists[k.index], blocks, live, k.index);
      if lists[k.index] == [] {
        NoneFree(mem, start, next, end, heads, lists, blocks, live, k.index);
      } else {
        assert p in lists[k.index];
      }
    }
    CountsStep(blocks, live, p, k, i);
  }

  lemma CountsStep(blocks: map<nat, Kind>, live: set<nat>, p: nat, k: Kind, i: nat)
    requires p !in live && (p in blocks ==> blocks[p] == k)
    requires p !in blocks && k == Small(i) ==> |LiveBlocks(blocks, live, i)| == |ClassBlocks(blocks, i)|
    ensures var now := LiveBlocks(blocks[p := k], live + {p}, i);
            && |now| == |LiveBlocks(blocks, live, i)| + (if k == Small(i) then 1 else 0)
            && |ClassBlocks(blocks[p := k], i)| == Max(|ClassBlocks(blocks, i)|, |now|)
  {
    var blocks', live' := blocks[p := k], live + {p};
    LiveAreBlocks(blocks', live', i);
    if k == Small(i) {
      assert LiveBlocks(blocks', live', i) == LiveBlocks(blocks, live, i) + {p};
      assert ClassBlocks(blocks', i) == ClassBlocks(blocks, i) + {p};
    } else {
      assert LiveBlocks(blocks', live', i) == LiveBlocks(blocks, live, i);
      assert ClassBlocks(blocks', i) == ClassBlocks(blocks, i);
    }
  }

  lemma ReturnCounts(blocks: map<nat, Kind>, live: set<nat>, p: nat, i: nat)
    requires p in live && p in blocks
    ensures var now := LiveBlocks(blocks, live - {p}, i);
            && |now| + (if blocks[p] == Small(i) then 1 else 0) == |LiveBlocks(blocks, live, i)|
            && |ClassBlocks(blocks, i)| == Max(|ClassBlocks(blocks, i)|, |now|)
  {
    LiveAreBlocks(blocks, live - {p}, i);
    if blocks[p] == Small(i) {
      assert LiveBlocks(blocks, live, i) == LiveBlocks(blocks, live - {p}, i) + {p};
    } else {
      assert LiveBlocks(blocks, live, i) == LiveBlocks(blocks, live - {p}, i);
    }
  }

  /** What the owner of a block finds in it. */
  ghost function BytesOf(mem: seq<byte>, a: nat, k: Kind): seq<byte> {
    if KindOk(k) && a + SizeOf(k) <= |mem| then mem[a..a + SizeOf(k)] else []
  }

  /** Threading a freed block changes no other live block. */
  lemma OthersUntouched(mem: seq<byte>, start: nat, next: nat, end: nat, heads: seq<nat>, lists: seq<seq<nat>>,
                        blocks: map<nat, Kind>, live: set<nat>, a: nat, v: nat)
    requires HeapOk(mem, start, next, end, heads, lists, blocks, live) && a in live && a in blocks && blocks[a].Small?
    ensures KindOk(blocks[a]) && a + 8 <= a + SizeOf(blocks[a]) <= |mem|
    ensures forall b :: b in live && b != a ==>
      BytesOf(Splice(mem, a, ToLe(v, 8)), b, blocks[b]) == BytesOf(mem, b, blocks[b])
  {
    hide ListOk;
    forall b | b in live && b != a
      ensures BytesOf(Splice(mem, a, ToLe(v, 8)), b, blocks[b]) == BytesOf(mem, b, blocks[b])
    {
      assert if a < b then a + SizeOf(blocks[a]) <= b else b + SizeOf(blocks[b]) <= a;
    }
  }

  /** Live blocks are inside the heap and overlap neither each other nor a free block. */
  lemma LiveApart(mem: seq<byte>, start: nat, next: nat, end: nat, heads: seq<nat>, lists: seq<seq<nat>>,
                  blocks: map<nat, Kind>, live: set<nat>, a: nat, b: nat)
    requires HeapOk(mem, start, next, end, heads, lists, blocks, live) && a in live && a != b
    requires b in live || exists i :: 0 <= i < CLASSES && b in lists[i]
    ensures a in blocks && b in blocks && KindOk(blocks[a]) && KindOk(blocks[b])
    ensures start <= a && a + SizeOf(blocks[a]) <= end
    ensures a + SizeOf(blocks[a]) <= b || b + SizeOf(blocks[b]) <= a
  {
    hide Chained, NoDups;
    if b !in live {
      var i :| 0 <= i < CLASSES && b in lists[i];
      assert ListOk(mem, heads[i], lists[i], blocks, live, i);
    }
    assert if a < b then a + SizeOf(blocks[a]) <= b else b + SizeOf(blocks[b]) <= a;
  }
}

module Heap {
  import opened Wrappers
  import opened Numbers
  import opened Bytes
  import opened HeapBlocks

  class BumpAllocator {
    var next: nat
    var end: nat

    constructor (start: nat, size: nat)
      ensures next == start && end == start + size
    {
      next, end := start, start + size;
    }

    /** The next aligned stretch of memory, or null when it would pass the end. */
    method Alloc(l: Layout) returns (p: nat)
      requires next > 0 && l.align > 0
      modifies this
      ensures end == old(end)
      ensures p == 0 <==> AlignUp(old(next), l.align) + l.size > end
      ensures p == 0 ==> next == old(next)
      ensures p != 0 ==> old(next) <= p < old(next) + l.align && p % l.align == 0 && next == p + l.size <= end
      ensures p != 0 ==> p == AlignUp(old(next), l.align)
    {
      AlignedUp(next, l.align);
      var alignedStart := (next + l.align - 1) / l.align * l.align;
      var allocatedEnd := alignedStart + l.size;
      if allocatedEnd > end { return 0; }
      next := allocatedEnd;
      return alignedStart;
    }
  }

  class FixedBlockAllocator {
    const mem: array<byte>
    const heads: array<nat>
    const bump: BumpAllocator
    ghost const start: nat
    ghost var lists: seq<seq<nat>>
    ghost var blocks: map<nat, Kind>
    ghost var live: set<nat>

    ghost predicate Valid()
      reads this, mem, heads, bump
    {
      HeapOk(mem[..], start, bump.next, bump.end, heads[..], lists, blocks, live)
    }

    /** An empty heap at a nonzero address. */
    constructor (mem: array<byte>, start: nat, size: nat)
      requires 0 < start && start + size <= mem.Length && start + size <= 0x1_0000_0000_0000_0000
      ensures Valid() && this.mem == mem && live == {} && fresh(heads) && fresh(bump) && bump.next == start
      ensures bump.end == start + size
    {
      this.mem, this.start := mem, start;
      heads := new nat[CLASSES](_ => 0);
      bump := new BumpAllocator(start, size);
      lists, blocks, live := seq(CLASSES, _ => []), map[], {};
    }

    /** get_block_index: the first class that is large enough. */
    method GetBlockIndex(l: Layout) returns (r: Option<nat>)
      requires Proper(l)
      ensures r.Some? ==> KindFor(l) == Small(r.value) && r.value < CLASSES
      ensures r.None? ==> KindFor(l) == Large(l.size)
    {
      var required := Required(l);
      var i := 0;
      while i < CLASSES
        invariant 0 <= i <= CLASSES && forall j :: 0 <= j < i ==> BLOCK_SIZES[j] < required
      {
        if BLOCK_SIZES[i] >= required { return Some(i); }
        i := i + 1;
      }
      return None;
    }

    /** A block of the wanted size and alignment that was not live, and so overlaps no live block and
        no free one. No byte of memory changes. The block freed last of its class is used first;
        only a class without free blocks gets a new one, the next of the heap. Null exactly when
        the class has no free block and the heap's end is reached. */
    method Alloc(l: Layout) returns (p: nat)
      requires Valid() && Proper(l)
      modifies this, heads, bump
      ensures Valid() && bump.end == old(bump.end)
      ensures p == 0 ==> live == old(live) && blocks == old(blocks)
      ensures p != 0 ==> && p !in old(live) && live == old(live) + {p} && blocks == old(blocks)[p := KindFor(l)]
                         && p % l.align == 0 && l.size <= SizeOf(KindFor(l)) && start <= p
                         && p + SizeOf(KindFor(l)) <= bump.end
      ensures forall a :: a in old(blocks) ==> a in blocks && blocks[a] == old(blocks)[a]
      ensures var k := KindFor(l);
              p == 0 <==> && (k.Small? ==> old(lists)[k.index] == [])
                          && AlignUp(old(bump.next), if k.Small? then SizeOf(k) else l.align) + SizeOf(k) > bump.end
      ensures var k := KindFor(l);
              if k.Small? && old(lists)[k.index] != [] then
                && p == old(lists)[k.index][0] && lists == old(lists)[k.index := old(lists)[k.index][1..]]
                && bump.next == old(bump.next) && blocks == old(blocks)
              else
                && lists == old(lists)
                && if p == 0 then bump.next == old(bump.next)
                   else && p == AlignUp(old(bump.next), if k.Small? then SizeOf(k) else l.align)
                        && bump.next == p + SizeOf(k) && p !in old(blocks)
    {
      hide Carved, ListOk, Word, AlignUp;
      var index := GetBlockIndex(l);
      Fits(l);
      if index.Some? {
        var i := index.value;
        ListHead(mem[..], start, bump.next, bump.end, heads[..], lists, blocks, live, i);
        if heads[i] != 0 {
          p := heads[i];
          PopKeeps(mem[..], start, bump.next, bump.end, heads[..], lists, blocks, live, i);
          InHeap(mem[..], start, bump.next, bump.end, heads[..], lists, blocks, live, p);
          heads[i] := ReadPointer(p);
          assert heads[..] == old(heads[..])[i := Word(mem[..], p)];
          lists, live := lists[i := lists[i][1..]], live + {p};
          Divides(l, p);
          assert blocks == blocks[p := Small(i)];
        } else {
          p := Carve(Layout(BLOCK_SIZES[i], BLOCK_SIZES[i]), Small(i));
          if p != 0 { Divides(l, p); }
        }
      } else {
        p := Carve(l, Large(l.size));
      }
    }

    /** A new block from the bump allocator. */
    method Carve(l: Layout, ghost k: Kind) returns (p: nat)
      requires Valid() && KindOk(k) && SizeOf(k) == l.size && l.align > 0
      requires (k.Small? ==> l.align == BLOCK_SIZES[k.index])
      modifies this, bump
      ensures Valid() && bump.end == old(bump.end) && lists == old(lists)
      ensures p == 0 <==> AlignUp(old(bump.next), l.align) + l.size > bump.end
      ensures p == 0 ==> live == old(live) && blocks == old(blocks) && bump.next == old(bump.next)
      ensures p != 0 ==> p == AlignUp(old(bump.next), l.align) && bump.next == p + l.size
      ensures p != 0 ==> && p !in old(blocks) && p !in old(live) && live == old(live) + {p}
                         && blocks == old(blocks)[p := k]
                         && p % l.align == 0 && start <= p && p + SizeOf(k) <= bump.end
    {
      ghost var next := bump.next;
      p := bump.Alloc(l);
      if p != 0 {
        BumpKeeps(mem[..], start, next, bump.end, heads[..], lists, blocks, live, p, k);
        blocks, live := blocks[p := k], live + {p};
      }
    }

    /** The block is free again. The only bytes that change are the first eight of the block itself. */
    method Dealloc(p: nat, l: Layout)
      requires Valid() && Proper(l) && p in live && blocks[p] == KindFor(l)
      modifies this, heads, mem
      ensures Valid() && live == old(live) - {p} && blocks == old(blocks) && p + SizeOf(KindFor(l)) <= mem.Length
      ensures forall x :: 0 <= x < mem.Length && !(p <= x < p + Min(8, SizeOf(KindFor(l)))) ==> mem[x] == old(mem[x])
      ensures forall b :: b in live ==>
        b in blocks && BytesOf(mem[..], b, blocks[b]) == old(BytesOf(mem[..], b, blocks[b]))
      ensures KindFor(l).Small? ==> var i := KindFor(l).index; lists == old(lists)[i := [p] + old(lists)[i]]
      ensures KindFor(l).Large? ==> lists == old(lists)
    {
      hide Carved, ListOk, BytesOf;
      InHeap(mem[..], start, bump.next, bump.end, heads[..], lists, blocks, live, p);
      var index := GetBlockIndex(l);
      if index.Some? {
        var i := index.value;
        PushKeeps(mem[..], start, bump.next, bump.end, heads[..], lists, blocks, live, p, i);
        OthersUntouched(mem[..], start, bump.next, bump.end, heads[..], lists, blocks, live, p, heads[i]);
        WritePointer(p, heads[i]);
        heads[i] := p;
        lists := lists[i := [p] + lists[i]];
        assert heads[..] == old(heads[..])[i := p];
      } else {
        DropKeeps(mem[..], start, bump.next, bump.end, heads[..], lists, blocks, live, p);
      }
      live := live - {p};
    }

    /** What is given back is the next block of its class to be handed out, and the heap does not grow. */
    method Recycle(p: nat, l: Layout, l': Layout) returns (q: nat)
      requires Valid() && Proper(l) && p in live && blocks[p] == KindFor(l)
      requires Proper(l') && KindFor(l').Small? && KindFor(l') == KindFor(l)
      modifies this, heads, bump, mem
      ensures Valid() && q == p && bump.next == old(bump.next) && bump.end == old(bump.end)
      ensures lists == old(lists) && blocks == old(blocks) && live == old(live)
    {
      hide Valid, KindFor, AlignUp, BytesOf;
      ListCount();
      Dealloc(p, l);
      ListCount();
      q := Alloc(l');
      assert lists == old(lists) && live == old(live);
    }

    lemma ListCount()
      requires Valid()
      ensures |lists| == CLASSES
    {
    }

    /** The pointer at the beginning of a free block. */
    method ReadPointer(p: nat) returns (v: nat)
      requires p + 8 <= mem.Length
      ensures v == Word(mem[..], p)
    {
      v := FromLe(mem[p..p + 8]);
      assert mem[..][p..p + 8] == mem[p..p + 8];
    }

    method WritePointer(p: nat, v: nat)
      requires p + 8 <= mem.Length
      modifies mem
      ensures mem[..] == Splice(old(mem[..]), p, ToLe(v, 8))
    {
      var bytes := ToLe(v, 8);
      forall k | p <= k < p + 8 {
        mem[k] := bytes[k - p];
      }
      assert forall k :: 0 <= k < mem.Length ==> mem[..][k] == Splice(old(mem[..]), p, bytes)[k];
    }

    /** The owner of a live block writes a byte of it. */
    method Poke(p: nat, k: nat, v: byte)
      requires Valid() && p in live && p in blocks && KindOk(blocks[p]) && k < SizeOf(blocks[p]) && p + k < mem.Length
      modifies mem
      ensures Valid() && mem[..] == old(mem[..])[p + k := v]
    {
      ghost var before := mem[..];
      mem[p + k] := v;
      OwnerMayWrite(before, start, bump.next, bump.end, heads[..], lists, blocks, live, p, mem[..]);
    }

    /** Any sequence of requests, where a block is given back with the layout it was asked for, and of
        writes by the blocks' holders. What is held at the end is what the clients' own account
        says, given which requests were granted; it lies inside the heap, aligned, no two of the
        blocks overlap, and every byte that a holder has written reads as last written. A class
        never has more blocks than it had or were live at once, so that what is given back is
        used again, and a request is refused only while every block of its class is live. */
    method Serve(requests: seq<Request>) returns (held: seq<Holding>, granted: seq<bool>)
      requires Valid() && forall r :: r in requests && r.Get? ==> Proper(r.l)
      modifies this, heads, bump, mem
      ensures Valid() && bump.end == old(bump.end) && |granted| == |requests|
      ensures forall h :: h in held ==>
        h.l.align > 0 && h.p % h.l.align == 0 && start <= h.p && h.p + h.l.size <= bump.end <= mem.Length
      ensures forall i, j :: 0 <= i < j < |held| ==>
        held[i].p + held[i].l.size <= held[j].p || held[j].p + held[j].l.size <= held[i].p
      ensures Reads(mem[..], held, Ledger(requests, granted))
      ensures forall c :: 0 <= c < CLASSES ==>
        |ClassBlocks(blocks, c)|
        == Max(old(|ClassBlocks(blocks, c)|), old(|LiveBlocks(blocks, live, c)|) + Peak(requests, granted, c))
      ensures forall c, j :: 0 <= c < CLASSES && 0 <= j < |requests| ==>
        RefusedRightly(requests, granted, j, c, old(blocks), old(live))
      ensures blocks.Keys == old(blocks.Keys) ==> bump.next == old(bump.next)
    {
      hide Valid, Ledger, Reads, Held, ClassBlocks, LiveBlocks, Peak, CountOf, RefusedRightly;
      held, granted := [], [];
      var i := 0;
      NothingHeld(mem[..], requests);
      ghost var had, base := blocks, live;
      TallyStart(blocks, live, requests);
      while i < |requests|
        invariant 0 <= i <= |requests| == |granted| + (|requests| - i)
        invariant Valid() && Held(held, blocks, live) && bump.end == old(bump.end)
        invariant Reads(mem[..], held, Ledger(requests[..i], granted))
        invariant AllTally(blocks, live, requests[..i], granted, had, base)
        invariant forall c, j :: 0 <= c < CLASSES && 0 <= j < i ==>
          RefusedRightly(requests, granted, j, c, had, base)
        invariant old(blocks.Keys) <= blocks.Keys
        invariant blocks.Keys == old(blocks.Keys) ==> bump.next == old(bump.next)
      {
        var r := requests[i];
        assert r in requests;
        ghost var blocks0, live0 := blocks, live;
        var yes;
        held, yes := ServeOne(r, held, Ledger(requests[..i], granted));
        LedgerStep(requests, granted, i, yes);
        ghost var granted', seen := granted + [yes], requests[..i + 1];
        forall c | 0 <= c < CLASSES
          ensures Tally(blocks, live, seen, granted', c, had, base)
          ensures RefusedRightly(requests, granted', i, c, had, base)
        {
          TallyStep(blocks0, live0, blocks, live, requests, granted, i, yes, c, had, base);
        }
        forall c, j | 0 <= c < CLASSES && 0 <= j < i
          ensures RefusedRightly(requests, granted', j, c, had, base)
        {
          RefusedBefore(requests, granted, yes, j, c, had, base);
        }
        granted := granted + [yes];
        i := i + 1;
      }
      assert requests[..i] == requests;
      HeldApart(held);
      forall c | 0 <= c < CLASSES
        ensures |ClassBlocks(blocks, c)|
             == Max(|ClassBlocks(had, c)|, |LiveBlocks(had, base, c)| + Peak(requests, granted, c))
      {
        assert Tally(blocks, live, requests, granted, c, had, base);
      }
    }

    /** One request, and what becomes of the account. */
    method ServeOne(r: Request, held: seq<Holding>, ghost ledger: seq<Entry>)
      returns (held': seq<Holding>, granted: bool)
      requires Valid() && Held(held, blocks, live) && (r.Get? ==> Proper(r.l)) && Reads(mem[..], held, ledger)
      modifies this, heads, bump, mem
      ensures Valid() && Held(held', blocks, live) && bump.end == old(bump.end)
      ensures Reads(mem[..], held', After(ledger, r, granted))
      ensures AllCounted(old(blocks), old(live), ledger, blocks, live, After(ledger, r, granted))
      ensures r.Get? && !granted ==> forall c :: 0 <= c < CLASSES && OfClass(r.l, c) ==>
        old(|LiveBlocks(blocks, live, c)|) == old(|ClassBlocks(blocks, c)|)
      ensures old(blocks.Keys) <= blocks.Keys && (blocks.Keys == old(blocks.Keys) ==> bump.next == old(bump.next))
    {
      hide Valid, Held, ReadsOne, Proper, AllCounted, ClassBlocks, LiveBlocks, OfClass;
      CountedSame(blocks, live, ledger);
      held', granted := held, true;
      match r
      case Get(l) => held', granted := ServeGet(l, held, ledger);
      case Put(k) => if k < |held| { held' := ServePut(k, held, ledger); }
      case Set(k, at, v) =>
        assert k < |held| ==> held[k].l == ledger[k].l by { SameLayouts(mem[..], held, ledger); }
        if k < |held| && at < held[k].l.size {
          ServeSet(k, at, v, held, ledger);
          CountedSet(blocks, live, ledger, k, ledger[k].(bytes := ledger[k].bytes[at := v]));
        }
    }

    method ServeGet(l: Layout, held: seq<Holding>, ghost ledger: seq<Entry>)
      returns (held': seq<Holding>, granted: bool)
      requires Valid() && Held(held, blocks, live) && Proper(l) && Reads(mem[..], held, ledger)
      modifies this, heads, bump
      ensures Valid() && Held(held', blocks, live) && bump.end == old(bump.end)
      ensures Reads(mem[..], held', if granted then ledger + [Entry(l, map[])] else ledger)
      ensures AllCounted(old(blocks), old(live), ledger, blocks, live,
                         if granted then ledger + [Entry(l, map[])] else ledger)
      ensures !granted ==> forall c :: 0 <= c < CLASSES && OfClass(l, c) ==>
        old(|LiveBlocks(blocks, live, c)|) == old(|ClassBlocks(blocks, c)|)
      ensures old(blocks.Keys) <= blocks.Keys && (blocks.Keys == old(blocks.Keys) ==> bump.next == old(bump.next))
    {
      hide Valid, KindFor, AlignUp, Counted, ClassBlocks, LiveBlocks;
      held' := held;
      ghost var mem0, heads0, next0, end0 := mem[..], heads[..], bump.next, bump.end;
      ghost var lists0, blocks0, live0, k := lists, blocks, live, KindFor(l);
      assert HeapOk(mem0, start, next0, end0, heads0, lists0, blocks0, live0) by { IsValid(); }
      ListCount();
      CountedSame(blocks, live, ledger);
      var p := Alloc(l);
      Fits(l);
      granted := p != 0;
      if granted {
        held' := held + [Holding(p, l)];
        hide HeapOk;
        ghost var ledger' := ledger + [Entry(l, map[])];
        forall c | 0 <= c < CLASSES ensures Counted(blocks0, live0, ledger, blocks, live, ledger', c) {
          GrantCounts(mem0, start, next0, end0, heads0, lists0, blocks0, live0, p, k, c);
          CountedGet(blocks0, live0, blocks, live, ledger, Entry(l, map[]), c);
        }
      } else if k.Small? {
        NoneFree(mem0, start, next0, end0, heads0, lists0, blocks0, live0, k.index);
      }
    }

    lemma IsValid()
      requires Valid()
      ensures HeapOk(mem[..], start, bump.next, bump.end, heads[..], lists, blocks, live)
    {
    }

    method ServePut(k: nat, held: seq<Holding>, ghost ledger: seq<Entry>) returns (held': seq<Holding>)
      requires Valid() && Held(held, blocks, live) && Reads(mem[..], held, ledger) && k < |held|
      modifies this, heads, mem
      ensures Valid() && Held(held', blocks, live) && bump.end == old(bump.end)
      ensures Reads(mem[..], held', ledger[..k] + ledger[k + 1..])
      ensures blocks == old(blocks)
      ensures AllCounted(old(blocks), old(live), ledger, blocks, live, ledger[..k] + ledger[k + 1..])
    {
      hide Valid, KindFor, BytesOf, Proper, ReadsOne, Counted, ClassBlocks, LiveBlocks;
      ghost var before, live0 := mem[..], live;
      assert held[k].l == ledger[k].l by { SameLayouts(mem[..], held, ledger); }
      assert Proper(ledger[k].l) && blocks[held[k].p] == KindFor(ledger[k].l);
      HeldRoom(held);
      Dealloc(held[k].p, held[k].l);
      held' := held[..k] + held[k + 1..];
      forall i | 0 <= i < |held| && i != k ensures ReadsOne(mem[..], held[i], ledger[i]) {
        SameReads(before, mem[..], held[i], ledger[i]);
      }
      hide Held;
      ghost var ledger' := ledger[..k] + ledger[k + 1..];
      forall c | 0 <= c < CLASSES ensures Counted(blocks, live0, ledger, blocks, live, ledger', c) {
        CountedPut(blocks, live0, live, held[k].p, ledger, k, c);
      }
    }

    method ServeSet(k: nat, at: nat, v: byte, held: seq<Holding>, ghost ledger: seq<Entry>)
      requires Valid() && Held(held, blocks, live) && Reads(mem[..], held, ledger)
      requires k < |held| && at < held[k].l.size
      modifies mem
      ensures Valid()
      ensures k < |ledger| && Reads(mem[..], held, ledger[k := ledger[k].(bytes := ledger[k].bytes[at := v])])
    {
      hide Valid, KindFor;
      ghost var before := mem[..];
      Fits(held[k].l);
      HeldApart(held);
      HeldRoom(held);
      Poke(held[k].p, at, v);
      hide Held, Proper;
      forall i | 0 <= i < |held| && i != k ensures ReadsOne(mem[..], held[i], ledger[i]) {
        assert ReadsOne(before, held[i], ledger[i]);
        assert if i < k then held[i].p + held[i].l.size <= held[k].p || held[k].p + held[k].l.size <= held[i].p
               else held[k].p + held[k].l.size <= held[i].p || held[i].p + held[i].l.size <= held[k].p;
      }
      assert ReadsOne(before, held[k], ledger[k]);
    }

    /** Every block held fits the memory. */
    lemma HeldRoom(held: seq<Holding>)
      requires Valid() && Held(held, blocks, live)
      ensures forall i :: 0 <= i < |held| ==>
        Proper(held[i].l) && KindOk(KindFor(held[i].l)) && held[i].p + SizeOf(KindFor(held[i].l)) <= mem.Length
    {
      hide ListOk, Carved, KindFor, Proper;
      forall i | 0 <= i < |held|
        ensures KindOk(KindFor(held[i].l)) && held[i].p + SizeOf(KindFor(held[i].l)) <= mem.Length
      {
        InHeap(mem[..], start, bump.next, bump.end, heads[..], lists, blocks, live, held[i].p);
      }
    }

    lemma HeldApart(held: seq<Holding>)
      requires Valid() && Held(held, blocks, live)
      ensures forall h :: h in held ==>
        h.l.align > 0 && h.p % h.l.align == 0 && start <= h.p && h.p + h.l.size <= bump.end <= mem.Length
      ensures forall i, j :: 0 <= i < j < |held| ==>
        held[i].p + held[i].l.size <= held[j].p || held[j].p + held[j].l.size <= held[i].p
    {
      hide ListOk, Carved;
      forall i | 0 <= i < |held| ensures start <= held[i].p && held[i].p + held[i].l.size <= bump.end {
        InHeap(mem[..], start, bump.next, bump.end, heads[..], lists, blocks, live, held[i].p);
        Fits(held[i].l);
      }
      forall i, j | 0 <= i < j < |held|
        ensures held[i].p + held[i].l.size <= held[j].p || held[j].p + held[j].l.size <= held[i].p
      {
        Fits(held[i].l);
        Fits(held[j].l);
        LiveApart(mem[..], start, bump.next, bump.end, heads[..], lists, blocks, live, held[i].p, held[j].p);
      }
    }
  }

  /** Ask for a block, give the k-th block held back, or write a byte of it. */
  datatype Request = Get(l: Layout) | Put(k: nat) | Set(k: nat, at: nat, v: byte)

  /** A block that a client holds, and what it asked for. */
  datatype Holding = Holding(p: nat, l: Layout)

  /** What a client has asked for, and the bytes it has written. */
  datatype Entry = Entry(l: Layout, bytes: map<nat, byte>)

  /** The clients' account after one more request. */
  function After(ledger: seq<Entry>, r: Request, granted: bool): seq<Entry> {
    match r
    case Get(l) => if granted then ledger + [Entry(l, map[])] else ledger
    case Put(k) => if k < |ledger| then ledger[..k] + ledger[k + 1..] else ledger
    case Set(k, at, v) =>
      if k < |ledger| && at < ledger[k].l.size then ledger[k := ledger[k].(bytes := ledger[k].bytes[at := v])]
      else ledger
  }

  /** The account after all requests, of which some were granted. */
  function Ledger(requests: seq<Request>, granted: seq<bool>): seq<Entry>
    requires |requests| == |granted|
  {
    if requests == [] then []
    else
      var n := |requests| - 1;
      After(Ledger(requests[..n], granted[..n]), requests[n], granted[n])
  }

  lemma LedgerStep(requests: seq<Request>, granted: seq<bool>, i: nat, yes: bool)
    requires i < |requests| && |granted| == i
    ensures Ledger(requests[..i + 1], granted + [yes]) == After(Ledger(requests[..i], granted), requests[i], yes)
  {
    hide After;
    assert requests[..i + 1][..i] == requests[..i] && (granted + [yes])[..i] == granted;
  }

  // ---- How the account bounds the heap ----

  predicate OfClass(l: Layout, c: nat) { Proper(l) && KindFor(l) == Small(c) }

  /** The blocks of class c in the account. */
  function CountOf(ledger: seq<Entry>, c: nat): nat {
    if ledger == [] then 0
    else CountOf(ledger[..|ledger| - 1], c) + if OfClass(ledger[|ledger| - 1].l, c) then 1 else 0
  }

  /** The most blocks of class c that the account has held at once. */
  function Peak(requests: seq<Request>, granted: seq<bool>, c: nat): nat
    requires |requests| == |granted|
  {
    if requests == [] then 0
    else
      var n := |requests| - 1;
      Max(Peak(requests[..n], granted[..n], c), CountOf(Ledger(requests, granted), c))
  }

  lemma {:induction false} CountSplit(a: seq<Entry>, b: seq<Entry>, c: nat)
    ensures CountOf(a + b, c) == CountOf(a, c) + CountOf(b, c)
  {
    if b == [] {
      assert a + b == a;
    } else {
      var n := |b| - 1;
      CountSplit(a, b[..n], c);
      assert (a + b)[..|a + b| - 1] == a + b[..n];
    }
  }

  /** What one request does to a class: it has more blocks only if more are live than it had, and as many
      more are live as the account has more. */
  ghost predicate Counted(blocks: map<nat, Kind>, live: set<nat>, ledger: seq<Entry>,
                          blocks': map<nat, Kind>, live': set<nat>, ledger': seq<Entry>, c: nat) {
    && |ClassBlocks(blocks', c)| == Max(|ClassBlocks(blocks, c)|, |LiveBlocks(blocks', live', c)|)
    && |LiveBlocks(blocks', live', c)| + CountOf(ledger, c) == |LiveBlocks(blocks, live, c)| + CountOf(ledger', c)
  }

  ghost predicate AllCounted(blocks: map<nat, Kind>, live: set<nat>, ledger: seq<Entry>,
                             blocks': map<nat, Kind>, live': set<nat>, ledger': seq<Entry>) {
    forall c :: 0 <= c < CLASSES ==> Counted(blocks, live, ledger, blocks', live', ledger', c)
  }

  lemma CountedSame(blocks: map<nat, Kind>, live: set<nat>, ledger: seq<Entry>)
    ensures AllCounted(blocks, live, ledger, blocks, live, ledger)
  {
    hide ClassBlocks, LiveBlocks;
    forall c | 0 <= c < CLASSES ensures Counted(blocks, live, ledger, blocks, live, ledger, c) {
      LiveAreBlocks(blocks, live, c);
    }
  }

  lemma CountedSet(blocks: map<nat, Kind>, live: set<nat>, ledger: seq<Entry>, k: nat, e: Entry)
    requires k < |ledger| && e.l == ledger[k].l
    ensures AllCounted(blocks, live, ledger, blocks, live, ledger[k := e])
  {
    hide ClassBlocks, LiveBlocks, CountOf;
    var ledger' := ledger[k := e];
    forall c | 0 <= c < CLASSES ensures Counted(blocks, live, ledger, blocks, live, ledger', c) {
      LiveAreBlocks(blocks, live, c);
      CountOut(ledger, k, c);
      CountOut(ledger', k, c);
      assert ledger'[..k] == ledger[..k] && ledger'[k + 1..] == ledger[k + 1..];
    }
  }

  lemma CountedGet(blocks: map<nat, Kind>, live: set<nat>, blocks': map<nat, Kind>, live': set<nat>,
                   ledger: seq<Entry>, e: Entry, c: nat)
    requires Proper(e.l)
    requires |ClassBlocks(blocks', c)| == Max(|ClassBlocks(blocks, c)|, |LiveBlocks(blocks', live', c)|)
    requires |LiveBlocks(blocks', live', c)|
          == |LiveBlocks(blocks, live, c)| + (if KindFor(e.l) == Small(c) then 1 else 0)
    ensures Counted(blocks, live, ledger, blocks', live', ledger + [e], c)
  {
    hide ClassBlocks, LiveBlocks, KindFor;
    assert (ledger + [e])[..|ledger|] == ledger;
  }

  lemma CountedPut(blocks: map<nat, Kind>, live: set<nat>, live': set<nat>, p: nat, ledger: seq<Entry>, k: nat, c: nat)
    requires p in live && p in blocks && live' == live - {p} && k < |ledger| && Proper(ledger[k].l)
    requires blocks[p] == KindFor(ledger[k].l)
    ensures Counted(blocks, live, ledger, blocks, live', ledger[..k] + ledger[k + 1..], c)
  {
    hide ClassBlocks, LiveBlocks, CountOf, KindFor;
    ReturnCounts(blocks, live, p, c);
    CountOut(ledger, k, c);
  }

  lemma CountOut(ledger: seq<Entry>, k: nat, c: nat)
    requires k < |ledger|
    ensures CountOf(ledger, c)
         == CountOf(ledger[..k] + ledger[k + 1..], c) + if OfClass(ledger[k].l, c) then 1 else 0
  {
    CountSplit(ledger[..k], ledger[k + 1..], c);
    CountSplit(ledger[..k], [ledger[k]], c);
    CountSplit(ledger[..k] + [ledger[k]], ledger[k + 1..], c);
    assert ledger == ledger[..k] + [ledger[k]] + ledger[k + 1..];
    assert [ledger[k]][..0] == [];
  }

  /** The blocks of class c after some requests: as many as before, or as many as were live at once. */
  ghost predicate Tally(blocks: map<nat, Kind>, live: set<nat>, requests: seq<Request>, granted: seq<bool>, c: nat,
                        had: map<nat, Kind>, base: set<nat>) {
    && |requests| == |granted|
    && |ClassBlocks(blocks, c)| == Max(|ClassBlocks(had, c)|, |LiveBlocks(had, base, c)| + Peak(requests, granted, c))
    && |LiveBlocks(blocks, live, c)| == |LiveBlocks(had, base, c)| + CountOf(Ledger(requests, granted), c)
  }

  ghost predicate AllTally(blocks: map<nat, Kind>, live: set<nat>, requests: seq<Request>, granted: seq<bool>,
                           had: map<nat, Kind>, base: set<nat>) {
    forall c :: 0 <= c < CLASSES ==> Tally(blocks, live, requests, granted, c, had, base)
  }

  lemma TallyStart(blocks: map<nat, Kind>, live: set<nat>, requests: seq<Request>)
    ensures AllTally(blocks, live, requests[..0], [], blocks, live)
  {
    hide ClassBlocks, LiveBlocks;
    forall c | 0 <= c < CLASSES ensures Tally(blocks, live, requests[..0], [], c, blocks, live) {
      LiveAreBlocks(blocks, live, c);
    }
  }

  /** A refused request found every block of its class live. */
  ghost predicate RefusedRightly(requests: seq<Request>, granted: seq<bool>, j: nat, c: nat,
                 had: map<nat, Kind>, base: set<nat>)
    requires j < |requests| && j < |granted|
  {
    requests[j].Get? && OfClass(requests[j].l, c) && !granted[j] ==>
      |LiveBlocks(had, base, c)| + CountOf(Ledger(requests[..j], granted[..j]), c)
      == Max(|ClassBlocks(had, c)|, |LiveBlocks(had, base, c)| + Peak(requests[..j], granted[..j], c))
  }

  lemma RefusedBefore(requests: seq<Request>, granted: seq<bool>, yes: bool, j: nat, c: nat,
                 had: map<nat, Kind>, base: set<nat>)
    requires j < |requests| && j < |granted| && RefusedRightly(requests, granted, j, c, had, base)
    ensures RefusedRightly(requests, granted + [yes], j, c, had, base)
  {
    assert (granted + [yes])[..j] == granted[..j];
  }

  lemma TallyStep(blocks: map<nat, Kind>, live: set<nat>, blocks': map<nat, Kind>, live': set<nat>,
                  requests: seq<Request>, granted: seq<bool>, i: nat, yes: bool, c: nat,
                 had: map<nat, Kind>, base: set<nat>)
    requires i < |requests| && |granted| == i && Tally(blocks, live, requests[..i], granted, c, had, base)
    requires var ledger := Ledger(requests[..i], granted);
             && Counted(blocks, live, ledger, blocks', live', After(ledger, requests[i], yes), c)
             && (requests[i].Get? && !yes && OfClass(requests[i].l, c) ==>
                   |LiveBlocks(blocks, live, c)| == |ClassBlocks(blocks, c)|)
    ensures Tally(blocks', live', requests[..i + 1], granted + [yes], c, had, base)
    ensures RefusedRightly(requests, granted + [yes], i, c, had, base)
  {
    hide ClassBlocks, LiveBlocks, Ledger, After, CountOf, OfClass;
    LedgerStep(requests, granted, i, yes);
    assert requests[..i + 1][..i] == requests[..i] && (granted + [yes])[..i] == granted;
  }

  /** Every holder reads what the account says it has written. */
  ghost predicate Reads(mem: seq<byte>, held: seq<Holding>, ledger: seq<Entry>) {
    && |held| == |ledger|
    && forall i :: 0 <= i < |held| ==> ReadsOne(mem, held[i], ledger[i])
  }

  ghost predicate ReadsOne(mem: seq<byte>, h: Holding, e: Entry) {
    && h.l == e.l
    && forall at :: at in e.bytes ==> at < h.l.size && h.p + at < |mem| && mem[h.p + at] == e.bytes[at]
  }

  lemma NothingHeld(mem: seq<byte>, requests: seq<Request>)
    ensures Reads(mem, [], Ledger(requests[..0], [])) && forall blocks, live :: Held([], blocks, live)
  {
  }

  lemma SameLayouts(mem: seq<byte>, held: seq<Holding>, ledger: seq<Entry>)
    requires Reads(mem, held, ledger)
    ensures |held| == |ledger| && forall i :: 0 <= i < |held| ==> held[i].l == ledger[i].l
  {
    forall i | 0 <= i < |held| ensures held[i].l == ledger[i].l {
      assert ReadsOne(mem, held[i], ledger[i]);
    }
  }

  /** A holder whose block has not changed reads the same. */
  lemma SameReads(mem: seq<byte>, mem': seq<byte>, h: Holding, e: Entry)
    requires ReadsOne(mem, h, e) && |mem'| == |mem| && Proper(h.l)
    requires KindOk(KindFor(h.l)) && h.p + SizeOf(KindFor(h.l)) <= |mem|
    requires BytesOf(mem', h.p, KindFor(h.l)) == BytesOf(mem, h.p, KindFor(h.l))
    ensures ReadsOne(mem', h, e)
  {
    Fits(h.l);
    hide KindFor, Proper;
    var n := SizeOf(KindFor(h.l));
    forall at | at in e.bytes ensures mem'[h.p + at] == mem[h.p + at] {
      assert mem'[h.p..h.p + n][at] == mem[h.p..h.p + n][at];
    }
  }

  /** Holdings are live blocks of the right class, each held once. */
  ghost predicate Held(held: seq<Holding>, blocks: map<nat, Kind>, live: set<nat>) {
    && (forall i :: 0 <= i < |held| ==>
          var h := held[i];
          && Proper(h.l) && h.p in live && h.p in blocks && blocks[h.p] == KindFor(h.l) && h.l.align > 0
          && h.p % h.l.align == 0)
    && (forall i, j :: 0 <= i < j < |held| ==> held[i].p != held[j].p)
  }

  lemma Fits(l: Layout)
    requires Proper(l)
    ensures l.align > 0 && l.size <= SizeOf(KindFor(l))
  {
  }

  /** A block of a class is aligned for every layout of that class. */
  lemma Divides(l: Layout, p: nat)
    requires Proper(l) && KindFor(l).Small? && p % BLOCK_SIZES[KindFor(l).index] == 0
    ensures l.align > 0 && p % l.align == 0
  {
    var size := BLOCK_SIZES[KindFor(l).index];
    SizesArePow2(KindFor(l).index);
    Pow2Divides(l.align, size);
    ModTrans(p, size, l.align);
  }

  lemma SizesArePow2(i: nat)
    requires i < CLASSES
    ensures IsPow2(BLOCK_SIZES[i])
  {
    assert IsPow2(8) && IsPow2(16) && IsPow2(32);
    assert IsPow2(64) && IsPow2(128) && IsPow2(256);
    assert IsPow2(512) && IsPow2(1024) && IsPow2(2048);
  }

  lemma ModTrans(p: nat, b: nat, a: nat)
    requires a > 0 && b > 0 && p % b == 0 && b % a == 0
    ensures p % a == 0
  {
    var k, m := p / b, b / a;
    assert p == k * b && b == m * a;
    assert p == (k * m) * a;
    MulMod(k * m, a);
  }

  lemma ListHead(mem: seq<byte>, start: nat, next: nat, end: nat, heads: seq<nat>, lists: seq<seq<nat>>,
                 blocks: map<nat, Kind>, live: set<nat>, i: nat)
    requires HeapOk(mem, start, next, end, heads, lists, blocks, live) && i < CLASSES
    ensures heads[i] == 0 <==> lists[i] == []
  {
    assert ListOk(mem, heads[i], lists[i], blocks, live, i);
  }

  lemma InHeap(mem: seq<byte>, start: nat, next: nat, end: nat, heads: seq<nat>, lists: seq<seq<nat>>,
               blocks: map<nat, Kind>, live: set<nat>, a: nat)
    requires HeapOk(mem, start, next, end, heads, lists, blocks, live) && a in blocks
    ensures KindOk(blocks[a]) && 0 < start <= a && a + SizeOf(blocks[a]) <= end <= |mem|
    ensures blocks[a].Small? ==> a % BLOCK_SIZES[blocks[a].index] == 0
  {
  }
}
