// Disks as arrays of sectors, and files as the bytes of the clusters or blocks they are made of.

/** A disk of 512-byte sectors that fails only out of range. */
module Disks {
  import opened Wrappers
  import opened Bytes

  const SECTOR_SIZE := 512

  type Sectors = seq<seq<byte>>

  ghost predicate Sized(sectors: Sectors) { forall i :: 0 <= i < |sectors| ==> |sectors[i]| == 512 }

  /** The bytes of n sectors in a row. */
  function Join(sectors: Sectors, first: nat, n: nat): seq<byte>
    requires first + n <= |sectors|
  {
    if n == 0 then [] else Join(sectors, first, n - 1) + sectors[first + n - 1]
  }

  lemma {:induction false} JoinLength(sectors: Sectors, first: nat, n: nat)
    requires first + n <= |sectors| && Sized(sectors)
    ensures |Join(sectors, first, n)| == n * 512
  {
    if n > 0 {
      JoinLength(sectors, first, n - 1);
    }
  }

  lemma {:induction false} JoinKept(sectors: Sectors, sectors': Sectors, first: nat, n: nat)
    requires first + n <= |sectors| == |sectors'|
    requires forall i :: first <= i < first + n ==> sectors'[i] == sectors[i]
    ensures Join(sectors', first, n) == Join(sectors, first, n)
  {
    if n > 0 {
      JoinKept(sectors, sectors', first, n - 1);
    }
  }

  /** Sector by sector. */
  lemma {:induction false} JoinParts(sectors: Sectors, first: nat, n: nat)
    requires first + n <= |sectors| && Sized(sectors)
    ensures |Join(sectors, first, n)| == n * 512
    ensures forall s: nat :: s < n ==> Join(sectors, first, n)[512 * s..512 * s + 512] == sectors[first + s]
  {
    if n > 0 {
      var before, all := Join(sectors, first, n - 1), Join(sectors, first, n);
      JoinParts(sectors, first, n - 1);
      JoinNext(sectors, first, n - 1);
      forall s: nat | s < n ensures all[512 * s..512 * s + 512] == sectors[first + s] {
        if s < n - 1 {
          assert all[512 * s..512 * s + 512] == before[512 * s..512 * s + 512];
        }
      }
    }
  }

  lemma JoinFirst(sectors: Sectors, first: nat)
    requires first <= |sectors|
    ensures Join(sectors, first, 0) == []
  {
  }

  lemma JoinNext(sectors: Sectors, first: nat, n: nat)
    requires first + n < |sectors|
    ensures Join(sectors, first, n + 1) == Join(sectors, first, n) + sectors[first + n]
  {
  }

  class Disk {
    var sectors: Sectors

    ghost predicate Valid()
      reads this
    {
      Sized(sectors)
    }

    constructor (sectors: Sectors)
      requires Sized(sectors)
      ensures Valid() && this.sectors == sectors
    {
      this.sectors := sectors;
    }

    method ReadSector(lba: nat) returns (r: Result<seq<byte>, string>)
      ensures r == if lba < |sectors| then Ok(sectors[lba]) else Err("LBA out of range")
    {
      if lba >= |sectors| { return Err("LBA out of range"); }
      return Ok(sectors[lba]);
    }

    method WriteSector(lba: nat, data: seq<byte>) returns (ok: bool)
      requires Valid() && |data| == SECTOR_SIZE
      modifies this
      ensures Valid() && ok == (lba < |old(sectors)|)
      ensures sectors == if ok then old(sectors)[lba := data] else old(sectors)
    {
      if lba >= |sectors| { return false; }
      sectors := sectors[lba := data];
      return true;
    }
  }
}

/** The contents of a file that is made of pieces of a fixed size. */
module Files {
  import opened Bytes

  /** The bytes of the pieces numbered by `chain`, one after the other. */
  function Content(data: seq<seq<byte>>, chain: seq<nat>): seq<byte>
    requires forall i :: 0 <= i < |chain| ==> chain[i] < |data|
  {
    if chain == [] then [] else Content(data, chain[..|chain| - 1]) + data[chain[|chain| - 1]]
  }

  ghost predicate NoDups(s: seq<nat>) { forall i, j :: 0 <= i < j < |s| ==> s[i] != s[j] }

  ghost predicate Apart(a: seq<nat>, b: seq<nat>) { forall i, j :: 0 <= i < |a| && 0 <= j < |b| ==> a[i] != b[j] }

  /** All pieces have the same size. */
  ghost predicate Pieces(data: seq<seq<byte>>, cs: nat, chain: seq<nat>) {
    forall i :: 0 <= i < |chain| ==> chain[i] < |data| && |data[chain[i]]| == cs
  }

  lemma {:induction false} ContentLength(data: seq<seq<byte>>, cs: nat, chain: seq<nat>)
    requires Pieces(data, cs, chain)
    ensures |Content(data, chain)| == |chain| * cs
  {
    if chain != [] {
      ContentLength(data, cs, chain[..|chain| - 1]);
      assert |chain| * cs == (|chain| - 1) * cs + cs;
    }
  }

  lemma {:induction false} ContentKept(data: seq<seq<byte>>, data': seq<seq<byte>>, chain: seq<nat>)
    requires forall i :: 0 <= i < |chain| ==>
      chain[i] < |data| && chain[i] < |data'| && data'[chain[i]] == data[chain[i]]
    ensures Content(data', chain) == Content(data, chain)
  {
    if chain != [] {
      ContentKept(data, data', chain[..|chain| - 1]);
    }
  }

  /** The j-th piece's bytes lie at j * cs. */
  lemma {:induction false} ContentAt(data: seq<seq<byte>>, cs: nat, chain: seq<nat>, j: nat)
    requires Pieces(data, cs, chain) && j < |chain|
    ensures 0 <= j * cs && (j + 1) * cs <= |Content(data, chain)|
    ensures Content(data, chain)[j * cs..(j + 1) * cs] == data[chain[j]]
  {
    var n := |chain| - 1;
    ContentLength(data, cs, chain);
    ContentLength(data, cs, chain[..n]);
    if j < n {
      ContentAt(data, cs, chain[..n], j);
    }
    assert (n + 1) * cs == n * cs + cs && (j + 1) * cs == j * cs + cs;
  }

  lemma {:induction false} ContentAppend(data: seq<seq<byte>>, a: seq<nat>, b: seq<nat>)
    requires forall i :: 0 <= i < |a| ==> a[i] < |data|
    requires forall i :: 0 <= i < |b| ==> b[i] < |data|
    ensures Content(data, a + b) == Content(data, a) + Content(data, b)
  {
    if b == [] {
      assert a + b == a;
    } else {
      var front, c := b[..|b| - 1], b[|b| - 1];
      ContentAppend(data, a, front);
      assert (a + b)[..|a + b| - 1] == a + front;
      assert Content(data, a) + (Content(data, front) + data[c]) == (Content(data, a) + Content(data, front)) + data[c];
    }
  }

  /** A file as what comes before a piece, the piece, and what comes after. */
  lemma ContentSplit(data: seq<seq<byte>>, chain: seq<nat>, j: nat)
    requires (forall i :: 0 <= i < |chain| ==> chain[i] < |data|) && j < |chain|
    ensures Content(data, chain) == Content(data, chain[..j]) + data[chain[j]] + Content(data, chain[j + 1..])
  {
    assert chain == chain[..j + 1] + chain[j + 1..];
    ContentAppend(data, chain[..j + 1], chain[j + 1..]);
    assert chain[..j + 1][..j] == chain[..j];
  }

  /** Writing within one piece of a file writes at that place of the file. */
  lemma ContentWrite(data: seq<seq<byte>>, chain: seq<nat>, j: nat, pos: nat, d: seq<byte>)
    requires forall i :: 0 <= i < |chain| ==> chain[i] < |data|
    requires j < |chain| && pos + |d| <= |data[chain[j]]|
    requires forall i, k :: 0 <= i < k < |chain| ==> chain[i] != chain[k]
    ensures |Content(data, chain[..j])| + pos + |d| <= |Content(data, chain)|
    ensures Content(data[chain[j] := Splice(data[chain[j]], pos, d)], chain)
         == Splice(Content(data, chain), |Content(data, chain[..j])| + pos, d)
  {
    hide Content, Splice;
    var data' := data[chain[j] := Splice(data[chain[j]], pos, d)];
    ContentSplit(data, chain, j);
    ContentSplit(data', chain, j);
    ContentKept(data, data', chain[..j]);
    ContentKept(data, data', chain[j + 1..]);
    SpliceMiddle(Content(data, chain[..j]), data[chain[j]], Content(data, chain[j + 1..]), pos, d);
  }

  lemma SpliceMiddle(a: seq<byte>, s: seq<byte>, b: seq<byte>, at: nat, d: seq<byte>)
    requires at + |d| <= |s|
    ensures a + Splice(s, at, d) + b == Splice(a + s + b, |a| + at, d)
  {
  }

  /** Two adjoining pieces written one after the other. */
  lemma SpliceTwice(s: seq<byte>, at: nat, d: seq<byte>, k: nat, n: nat)
    requires k + n <= |d| && at + k + n <= |s|
    ensures Splice(Splice(s, at, d[..k]), at + k, d[k..k + n]) == Splice(s, at, d[..k + n])
  {
  }

  lemma SpliceAppend(s: seq<byte>, at: nat, d: seq<byte>, t: seq<byte>)
    requires at + |d| <= |s|
    ensures Splice(s, at, d) + t == Splice(s + t, at, d)
  {
  }
}
