// Physical frame allocator: src/frame.rs.

/** A 64-bit word seen as its bits, least significant bit first. */
module Words {
  type Word = w: seq<bool> | |w| == 64 witness seq(64, _ => false)

  const ZERO: Word := seq(64, _ => false)

  const FULL: Word := seq(64, _ => true)

  function Invert(w: Word): Word {
    seq(64, k requires 0 <= k < 64 => !w[k])
  }

  /** The word and the mask (1 << n) - 1. */
  function MaskLow(w: Word, n: nat): Word {
    seq(64, k requires 0 <= k < 64 => k < n && w[k])
  }

  function CountOnes(bits: seq<bool>): nat {
    if bits == [] then 0
    else CountOnes(bits[..|bits| - 1]) + if bits[|bits| - 1] then 1 else 0
  }

  /** The number of set bits below the first clear one (64 when there is none). */
  function TrailingOnes(w: seq<bool>): (n: nat)
    ensures n <= |w|
    ensures forall k :: 0 <= k < n ==> w[k]
    ensures n < |w| ==> !w[n]
  {
    if w == [] || !w[0] then 0 else 1 + TrailingOnes(w[1..])
  }

  predicate Between(lo: nat, f: nat, hi: nat) {
    lo <= f < hi
  }

  /** The numbers from lo up to, not including, hi. */
  ghost function Range(lo: nat, hi: nat): set<nat> {
    set f | lo <= f < hi && Between(lo, f, hi)
  }

  lemma {:induction false} RangeSize(lo: nat, hi: nat)
    requires lo <= hi
    ensures |Range(lo, hi)| == hi - lo
    decreases hi - lo
  {
    if lo == hi {
      assert Range(lo, hi) == {};
    } else {
      RangeSize(lo, hi - 1);
      assert Range(lo, hi) == Range(lo, hi - 1) + {hi - 1};
    }
  }

  /** The set bits of a word, moved up to lo .. hi: bit k becomes lo + k. */
  ghost function OnesIn(bits: seq<bool>, lo: nat, hi: nat): set<nat>
    requires hi == lo + |bits|
  {
    set f | lo <= f < hi && Between(lo, f, hi) && bits[f - lo]
  }

  lemma {:induction false} CountOnesIsCardinality(bits: seq<bool>, lo: nat, hi: nat)
    requires hi == lo + |bits|
    ensures CountOnes(bits) == |OnesIn(bits, lo, hi)|
  {
    if bits == [] {
      assert OnesIn(bits, lo, hi) == {};
    } else {
      var n := |bits| - 1;
      CountOnesIsCardinality(bits[..n], lo, hi - 1);
      var last: set<nat> := if bits[n] then {lo + n} else {};
      assert OnesIn(bits, lo, hi) == OnesIn(bits[..n], lo, hi - 1) + last;
      assert OnesIn(bits[..n], lo, hi - 1) !! last;
    }
  }
}

module Frames {
  import opened Words
  import opened Wrappers

  const FRAME_SIZE := 4096
  const MAX_WORDS := 32768
  const MAX_FRAME_COUNT := MAX_WORDS * 64

  predicate IsSet(bitmap: seq<Word>, f: nat)
    requires f < 64 * |bitmap|
  {
    bitmap[f / 64][f % 64]
  }

  ghost predicate AllSet(bitmap: seq<Word>, lo: nat, hi: nat)
    requires hi <= 64 * |bitmap|
  {
    forall f :: lo <= f < hi ==> IsSet(bitmap, f)
  }

  /** The frames below `count` whose bit is set. */
  ghost function UsedIn(bitmap: seq<Word>, count: nat): set<nat>
    requires count <= 64 * |bitmap|
  {
    set f | 0 <= f < count && IsSet(bitmap, f)
  }

  /** The frames below `count` whose bit is clear. */
  ghost function ClearIn(bitmap: seq<Word>, count: nat): set<nat>
    requires count <= 64 * |bitmap|
  {
    set f | 0 <= f < count && !IsSet(bitmap, f)
  }

  /** The set bits from `count` on, which belong to no frame that the allocator counts. */
  ghost function StaleIn(bitmap: seq<Word>, count: nat): set<nat>
    requires count <= 64 * |bitmap|
  {
    set f | count <= f < 64 * |bitmap| && IsSet(bitmap, f)
  }

  /** A bit set below one frame count or above it is set below or above any other. */
  lemma Recount(bitmap: seq<Word>, count: nat, count': nat)
    requires count <= 64 * |bitmap| && count' <= 64 * |bitmap|
    ensures UsedIn(bitmap, count') == (UsedIn(bitmap, count) + StaleIn(bitmap, count)) * Range(0, count')
    ensures StaleIn(bitmap, count') == UsedIn(bitmap, count) + StaleIn(bitmap, count) - Range(0, count')
  {
    forall f ensures f in UsedIn(bitmap, count') <==>
                     f in (UsedIn(bitmap, count) + StaleIn(bitmap, count)) * Range(0, count') {
    }
    forall f ensures f in StaleIn(bitmap, count') <==>
                     f in UsedIn(bitmap, count) + StaleIn(bitmap, count) - Range(0, count') {
    }
  }

  /** Used and clear frames split the frames below `count`. */
  lemma UsedPlusClear(bitmap: seq<Word>, count: nat)
    requires count <= 64 * |bitmap|
    ensures UsedIn(bitmap, count) !! ClearIn(bitmap, count)
    ensures UsedIn(bitmap, count) + ClearIn(bitmap, count) == Range(0, count)
    ensures |UsedIn(bitmap, count)| + |ClearIn(bitmap, count)| == count
  {
    RangeSize(0, count);
    assert UsedIn(bitmap, count) + ClearIn(bitmap, count) == Range(0, count);
  }

  lemma SetBitUsed(bitmap: seq<Word>, count: nat, frame: nat, b: bool)
    requires frame < count <= 64 * |bitmap|
    ensures var after := bitmap[frame / 64 := bitmap[frame / 64][frame % 64 := b]];
            && UsedIn(after, count) == (if b then UsedIn(bitmap, count) + {frame} else UsedIn(bitmap, count) - {frame})
            && StaleIn(after, count) == StaleIn(bitmap, count)
  {
    var after := bitmap[frame / 64 := bitmap[frame / 64][frame % 64 := b]];
    forall f | 0 <= f < 64 * |bitmap|
      ensures IsSet(after, f) == if f == frame then b else IsSet(bitmap, f)
    {
      assert f == 64 * (f / 64) + f % 64 && frame == 64 * (frame / 64) + frame % 64;
    }
  }

  /** One word's contribution to the clear frames, as the source counts it. */
  lemma ClearStep(bitmap: seq<Word>, w: nat, count: nat)
    requires w < |bitmap| && 64 * w < count <= 64 * |bitmap|
    ensures var valid := if 64 * w + 64 > count then count - 64 * w else 64;
            |ClearIn(bitmap, Min(64 * w + 64, count))|
            == |ClearIn(bitmap, 64 * w)| + CountOnes(MaskLow(Invert(bitmap[w]), valid))
  {
    var lo, hi := 64 * w, 64 * w + 64;
    var valid := if hi > count then count - lo else 64;
    var m := MaskLow(Invert(bitmap[w]), valid);
    CountOnesIsCardinality(m, lo, hi);
    forall f | lo <= f < hi
      ensures f in OnesIn(m, lo, hi) <==> f < lo + valid && !IsSet(bitmap, f)
    {
      assert f / 64 == w && f % 64 == f - lo;
      assert m[f - lo] == (f - lo < valid && !bitmap[w][f - lo]);
    }
    ClearSplit(bitmap, lo, lo + valid, OnesIn(m, lo, hi));
  }

  lemma ClearSplit(bitmap: seq<Word>, lo: nat, hi: nat, added: set<nat>)
    requires lo <= hi <= 64 * |bitmap|
    requires forall f :: f in added <==> lo <= f < hi && !IsSet(bitmap, f)
    ensures |ClearIn(bitmap, hi)| == |ClearIn(bitmap, lo)| + |added|
  {
    assert ClearIn(bitmap, hi) == ClearIn(bitmap, lo) + added;
    assert ClearIn(bitmap, lo) !! added;
  }

  /** A word with no clear bit below `count` contributes no clear frame. */
  lemma FullWord(bitmap: seq<Word>, w: nat, count: nat)
    requires w < |bitmap| && count <= 64 * |bitmap|
    requires 64 * w + TrailingOnes(bitmap[w]) >= count || bitmap[w] == FULL
    ensures AllSet(bitmap, 64 * w, Min(64 * w + 64, count))
  {
    forall f | 64 * w <= f < Min(64 * w + 64, count)
      ensures IsSet(bitmap, f)
    {
      assert f / 64 == w && f % 64 == f - 64 * w;
    }
  }

  /** When allocate_frame looks at a frame: from the word of the hint on, and then from frame 0. */
  function Turn(start: nat, count: nat, f: nat): nat { if f < start then count + f else f - start }

  /** f is the first of the frames below `count` that is not in use. */
  ghost predicate FirstClear(used: set<nat>, start: nat, count: nat, f: nat) {
    && f < count && f !in used
    && forall g: nat :: g < count && g !in used ==> Turn(start, count, f) <= Turn(start, count, g)
  }

  lemma OnlyFirst(used: set<nat>, start: nat, count: nat, f: nat, g: nat)
    requires FirstClear(used, start, count, f) && FirstClear(used, start, count, g)
    ensures f == g
  {
  }

  lemma FoundFirst(bitmap: seq<Word>, start: nat, count: nat, f: nat)
    requires count <= 64 * |bitmap| && f < count && !IsSet(bitmap, f)
    requires f >= start ==> AllSet(bitmap, start, f)
    requires f < start ==> AllSet(bitmap, 0, f) && forall g :: start <= g < count ==> IsSet(bitmap, g)
    ensures FirstClear(UsedIn(bitmap, count), start, count, f)
  {
  }

  function FrameOf(addr: nat): nat {
    addr / FRAME_SIZE
  }

  /** The number of frames that the bitmap words for n frames have room for. */
  function WholeWords(n: nat): nat { (n + 63) / 64 * 64 }

  /** With 0x7FFE_0000 bytes of memory, which are 32 frames short of whole words, reinit counts
      32 frames that do not exist. */
  lemma ReinitTooFar()
    ensures WholeWords(0x7FFE_0000 / FRAME_SIZE) == 0x7FFE_0000 / FRAME_SIZE + 32
  {
  }

  class FrameAllocator {
    const bitmap: array<Word>
    var totalRam: nat
    var words: nat
    var count: nat
    var hint: nat
    ghost var stale: set<nat>

    /** `stale` are the bits set past the frame count, which only a new count can bring back. */
    ghost predicate Valid()
      reads this, bitmap
    {
      && bitmap.Length == MAX_WORDS
      && words <= MAX_WORDS
      && words == (count + 63) / 64
      && stale == StaleIn(bitmap[..], count)
    }

    ghost function Used(): set<nat>
      reads this, bitmap
      requires Valid()
    {
      UsedIn(bitmap[..], count)
    }

    ghost function Clear(): set<nat>
      reads this, bitmap
      requires Valid()
    {
      ClearIn(bitmap[..], count)
    }

    constructor ()
      ensures Valid() && fresh(bitmap) && count == 0 && totalRam == 0 && hint == 0 && Used() == stale == {}
    {
      bitmap := new Word[MAX_WORDS](_ => ZERO);
      totalRam, words, count, hint, stale := 0, 0, 0, 0, {};
    }

    method SetTotalRam(size: nat)
      requires Valid()
      modifies this`totalRam, this`words, this`count, this`stale
      ensures Valid()
      ensures Used() == old(Used() + stale) * Range(0, count) && stale == old(Used() + stale) - Range(0, count)
      ensures totalRam == if size <= MAX_FRAME_COUNT * FRAME_SIZE then size else MAX_FRAME_COUNT * FRAME_SIZE
      ensures count == totalRam / FRAME_SIZE
    {
      totalRam := if size <= MAX_FRAME_COUNT * FRAME_SIZE then size else MAX_FRAME_COUNT * FRAME_SIZE;
      count := totalRam / FRAME_SIZE;
      words := (count + 63) / 64;
      Recount(bitmap[..], old(count), count);
      stale := StaleIn(bitmap[..], count);
    }

    /** frame::reinit rounds the frame count up to whole words, so it covers frames
        past the end of RAM exactly when RAM is not a whole number of words. No mark is wiped:
        the used frames stay used as far as they are counted. */
    method Reinit(newRamSize: nat)
      requires Valid()
      modifies this`totalRam, this`words, this`count, this`stale
      ensures Valid()
      ensures totalRam == if newRamSize <= MAX_FRAME_COUNT * FRAME_SIZE then newRamSize
        else MAX_FRAME_COUNT * FRAME_SIZE
      ensures Used() == old(Used() + stale) * Range(0, count) && stale == old(Used() + stale) - Range(0, count)
      ensures count == WholeWords(totalRam / FRAME_SIZE)
      ensures totalRam / FRAME_SIZE <= count < totalRam / FRAME_SIZE + 64
      ensures count == totalRam / FRAME_SIZE <==> (totalRam / FRAME_SIZE) % 64 == 0
    {
      SetTotalRam(newRamSize);
      words := (totalRam / 4096 + 63) / 64;
      count := words * 64;
      Recount(bitmap[..], old(count), count);
      stale := StaleIn(bitmap[..], count);
    }

    method SetUsed(frame: nat)
      requires Valid()
      modifies bitmap
      ensures Valid()
      ensures Used() == old(Used()) + (if frame < count then {frame} else {})
    {
      if frame >= count { return; }
      SetBitUsed(bitmap[..], count, frame, true);
      ghost var after := bitmap[..][frame / 64 := bitmap[frame / 64][frame % 64 := true]];
      bitmap[frame / 64] := bitmap[frame / 64][frame % 64 := true];
      assert bitmap[..] == after;
    }

    method SetFree(frame: nat)
      requires Valid()
      modifies bitmap
      ensures Valid()
      ensures Used() == old(Used()) - {frame}
    {
      if frame >= count { return; }
      SetBitUsed(bitmap[..], count, frame, false);
      ghost var after := bitmap[..][frame / 64 := bitmap[frame / 64][frame % 64 := false]];
      bitmap[frame / 64] := bitmap[frame / 64][frame % 64 := false];
      assert bitmap[..] == after;
    }

    /** Every frame that [start, end) touches becomes used. */
    method MarkUsed(start: nat, end: nat)
      requires Valid() && (totalRam == 0 || count > 0)
      modifies bitmap
      ensures Valid()
      ensures Used() == old(Used())
                        + if end <= start || start >= totalRam then {}
                          else Range(FrameOf(start), FrameOf(end - 1) + 1) * Range(0, count)
    {
      if end <= start || start >= totalRam { return; }
      var first := FrameOf(start);
      var last := Min(FrameOf(end - 1), count - 1);
      var frame := first;
      while frame <= last
        invariant first <= frame && Valid()
        invariant frame <= last + 1 || frame == first
        invariant Used() == old(Used()) + Range(first, frame)
      {
        SetUsed(frame);
        frame := frame + 1;
      }
    }

    /** After init the used frames are exactly the low megabyte and the kernel image. */
    method Init(kernelEnd: nat)
      requires Valid() && count == totalRam / FRAME_SIZE
      requires totalRam == 0 || count > 0
      modifies this, bitmap
      ensures Valid() && totalRam == if old(totalRam) == 0 then 0x4000_0000 else old(totalRam)
      ensures count == totalRam / FRAME_SIZE && stale <= old(Used() + stale)
      ensures forall f: nat :: f in Used() <==> f < count && (f * FRAME_SIZE < kernelEnd || f * FRAME_SIZE < 0x10_0000)
      ensures hint == kernelEnd / 0x4_0000
    {
      if totalRam == 0 {
        SetTotalRam(0x4000_0000);
      }
      ghost var before := bitmap[..];
      var i := 0;
      while i < words
        invariant 0 <= i <= words && bitmap.Length == MAX_WORDS && words == (count + 63) / 64
        invariant forall w :: 0 <= w < MAX_WORDS ==> bitmap[w] == if w < i then ZERO else before[w]
        modifies bitmap
      {
        bitmap[i] := ZERO;
        i := i + 1;
      }
      forall f | 0 <= f < 64 * MAX_WORDS ensures IsSet(bitmap[..], f) == (f / 64 >= words && IsSet(before, f)) { }
      assert StaleIn(bitmap[..], count) <= StaleIn(before, count);
      stale := StaleIn(bitmap[..], count);
      assert Used() == {};
      MarkUsed(0, kernelEnd);
      MarkUsed(0, 0x10_0000);
      hint := FrameOf(kernelEnd) / 64;
    }

    /** The first clear frame at or after the hint, wrapping round: memory is never hidden. */
    method AllocateFrame() returns (r: Option<nat>)
      requires Valid()
      modifies bitmap, this`hint
      ensures Valid()
      ensures r.None? <==> old(Used()) == Range(0, count)
      ensures r.None? ==> Used() == old(Used())
      ensures r.Some? ==> FirstClear(old(Used()), 64 * Min(old(hint), words), count, r.value) && hint == r.value / 64
      ensures r.Some? ==> Used() == old(Used()) + {r.value}
      ensures r.Some? ==> |Clear()| == old(|Clear()|) - 1
    {
      ghost var before := bitmap[..];
      var start := Min(hint, words);
      var w := start;
      while w < words
        invariant start <= w <= words && bitmap[..] == before
        invariant AllSet(before, 64 * start, Min(64 * w, count))
      {
        r := TakeFrom(w);
        if r.Some? {
          FoundFirst(before, 64 * start, count, r.value);
          return;
        }
        w := w + 1;
      }
      w := 0;
      while w < start
        invariant 0 <= w <= start && bitmap[..] == before
        invariant AllSet(before, 64 * start, count)
        invariant AllSet(before, 0, Min(64 * w, count))
      {
        r := TakeFrom(w);
        if r.Some? {
          FoundFirst(before, 64 * start, count, r.value);
          return;
        }
        w := w + 1;
      }
      assert AllSet(before, 0, count);
      assert Used() == Range(0, count);
      r := None;
    }

    /** One turn of either scan loop of allocate_frame. */
    method TakeFrom(w: nat) returns (r: Option<nat>)
      requires Valid() && w < words
      modifies bitmap, this`hint
      ensures Valid()
      ensures r.None? ==> bitmap[..] == old(bitmap[..]) && hint == old(hint)
      ensures r.None? ==> AllSet(bitmap[..], 64 * w, Min(64 * w + 64, count))
      ensures r.Some? ==> r.value < count && r.value / 64 == w == hint && !IsSet(old(bitmap[..]), r.value)
      ensures r.Some? ==> AllSet(old(bitmap[..]), 64 * w, r.value)
      ensures r.Some? ==> Used() == old(Used()) + {r.value}
      ensures r.Some? ==> |Clear()| == old(|Clear()|) - 1
    {
      var bits := bitmap[w];
      if bits != FULL {
        var frame := w * 64 + TrailingOnes(bits);
        assert TrailingOnes(bits) == 64 ==> bits == FULL;
        if frame < count {
          assert frame / 64 == w && frame % 64 == frame - 64 * w;
          assert !IsSet(bitmap[..], frame);
          forall f | 64 * w <= f < frame ensures IsSet(bitmap[..], f) {
            assert f / 64 == w && f % 64 == f - 64 * w;
          }
          UsedPlusClear(bitmap[..], count);
          SetUsed(frame);
          UsedPlusClear(bitmap[..], count);
          hint := w;
          return Some(frame);
        }
      }
      FullWord(bitmap[..], w, count);
      r := None;
    }

    method DeallocateFrame(frame: nat)
      requires Valid()
      modifies bitmap
      ensures Valid()
      ensures Used() == old(Used()) - {frame}
      ensures |Clear()| == old(|Clear()|) + if frame in old(Used()) then 1 else 0
    {
      UsedPlusClear(bitmap[..], count);
      if frame >= count { return; }
      SetFree(frame);
      UsedPlusClear(bitmap[..], count);
    }

    method FreeFrameCount() returns (free: nat)
      requires Valid()
      ensures free == |Clear()| == count - |Used()|
    {
      UsedPlusClear(bitmap[..], count);
      free := 0;
      var w := 0;
      while w < words
        invariant 0 <= w <= words
        invariant free == |ClearIn(bitmap[..], Min(64 * w, count))|
      {
        var inverted := Invert(bitmap[w]);
        ClearStep(bitmap[..], w, count);
        if w * 64 + 64 > count {
          inverted := MaskLow(inverted, count - w * 64);
        } else {
          assert MaskLow(inverted, 64) == inverted;
        }
        free := free + CountOnes(inverted);
        w := w + 1;
      }
    }
  }
}
