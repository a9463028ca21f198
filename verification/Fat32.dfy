// The FAT32 driver: src/fs/fat32.rs.

/** Where a FAT32 volume keeps its table and its clusters among the sectors of a disk. */
module FatLayout {
  import opened Wrappers
  import opened Numbers
  import opened Bytes
  import opened Disks
  import opened Files
  import opened FatChains

  datatype Geometry = Geometry(reserved: nat, numFats: nat, fatSize: nat, spc: nat, total: nat)

  function DataStart(g: Geometry): nat { g.reserved + g.numFats * g.fatSize }

  /** The first sector of cluster c. */
  function First(g: Geometry, c: nat): nat
    requires c >= 2
  {
    DataStart(g) + (c - 2) * g.spc
  }

  /** The k-th sector of the f-th copy of the table. */
  function Copy(g: Geometry, f: nat, k: nat): nat { g.reserved + k + f * g.fatSize }

  /** The table and the clusters are on the disk, and the table has an entry for every cluster. */
  predicate Fits(g: Geometry, sectors: nat) {
    && g.numFats >= 1 && g.spc >= 1 && g.total <= g.fatSize * 128 && g.total <= BAD
    && DataStart(g) <= sectors && (g.total >= 2 ==> First(g, g.total) <= sectors)
  }

  function EntryOf(sector: seq<byte>, i: nat): nat
    requires |sector| == 512 && i < 128
  {
    FromLe(sector[4 * i..4 * i + 4])
  }

  /** The f-th copy of the table agrees with the first in its k-th sector. */
  ghost predicate SameCopy(g: Geometry, sectors: Sectors, f: nat, k: nat) {
    g.reserved + k < |sectors| && Copy(g, f, k) < |sectors| && sectors[Copy(g, f, k)] == sectors[g.reserved + k]
  }

  /** All copies of the table are equal. */
  ghost predicate Mirrored(g: Geometry, sectors: Sectors) {
    && DataStart(g) <= |sectors|
    && forall f: nat, k: nat :: f < g.numFats && k < g.fatSize ==> SameCopy(g, sectors, f, k)
  }

  lemma TableOnDisk(g: Geometry, n: nat)
    requires Fits(g, n)
    ensures g.reserved + g.fatSize <= DataStart(g) <= n
  {
    assert g.numFats * g.fatSize >= g.fatSize by { MulMono(1, g.numFats, g.fatSize); }
  }

  lemma ClusterOnDisk(g: Geometry, n: nat, c: nat)
    requires Fits(g, n) && 2 <= c < g.total
    ensures DataStart(g) <= First(g, c) && First(g, c) + g.spc <= n
  {
    MulStep(c - 2, g.total - 2, g.spc);
  }

  /** Different clusters share no sector. */
  lemma ClustersApart(g: Geometry, c: nat, d: nat)
    requires 2 <= c && 2 <= d && c != d
    ensures First(g, c) + g.spc <= First(g, d) || First(g, d) + g.spc <= First(g, c)
  {
    if c < d {
      MulStep(c - 2, d - 2, g.spc);
    } else {
      MulStep(d - 2, c - 2, g.spc);
    }
  }

  lemma CopyBelow(g: Geometry, f: nat, k: nat)
    requires f < g.numFats && k < g.fatSize
    ensures Copy(g, f, k) < DataStart(g)
  {
    MulStep(f, g.numFats, g.fatSize);
  }

  /** A sector of the table belongs to one copy, at one place. */
  lemma CopyInjective(g: Geometry, f: nat, k: nat, f': nat, k': nat)
    requires k < g.fatSize && k' < g.fatSize && Copy(g, f, k) == Copy(g, f', k')
    ensures f == f' && k == k'
  {
    if f < f' {
      MulStep(f, f', g.fatSize);
    } else if f' < f {
      MulStep(f', f, g.fatSize);
    }
  }

  // ---- The volume on a disk ----

  ghost function FatOf(g: Geometry, sectors: Sectors): seq<nat>
    requires Fits(g, |sectors|) && Sized(sectors)
  {
    TableOnDisk(g, |sectors|);
    seq(g.fatSize * 128, i requires 0 <= i < g.fatSize * 128 => EntryOf(sectors[g.reserved + i / 128], i % 128))
  }

  ghost function ClusterOf(g: Geometry, sectors: Sectors, c: nat): seq<byte>
    requires Fits(g, |sectors|) && c < g.total
  {
    if c < 2 then [] else ClusterOnDisk(g, |sectors|, c); Join(sectors, First(g, c), g.spc)
  }

  ghost function VolumeOf(g: Geometry, sectors: Sectors): Volume
    requires Fits(g, |sectors|) && Sized(sectors)
  {
    Volume(FatOf(g, sectors), seq(g.total, c requires 0 <= c < g.total => ClusterOf(g, sectors, c)))
  }

  /** What the four bytes of an entry, 4 * c bytes behind the reserved sectors, say about the next cluster. */
  ghost predicate EntryRead(sectors: Sectors, reserved: nat, c: nat, r: Result<nat, string>) {
    var lba, off := (reserved * 512 + 4 * c) / 512, (reserved * 512 + 4 * c) % 512;
    if lba >= |sectors| then r.Err?
    else
      && off + 4 <= |sectors[lba]|
      && var e := FromLe(sectors[lba][off..off + 4]);
         if e == 0x0FFF_FFF7 then r.Err? else r == Ok(if e >= 0x0FFF_FFF8 then 0 else e)
  }

  lemma EntryIsRead(g: Geometry, sectors: Sectors, c: nat)
    requires Sized(sectors)
    ensures EntryRead(sectors, g.reserved, c, NextOf(g, sectors, c))
  {
    hide FromLe;
    EntryPlace(g.reserved, c);
  }

  lemma EntryPlace(reserved: nat, c: nat)
    ensures (reserved * 512 + 4 * c) / 512 == reserved + c / 128 && (reserved * 512 + 4 * c) % 512 == 4 * (c % 128)
  {
    assert 4 * c == 512 * (c / 128) + 4 * (c % 128);
  }

  /** The bytes are those of n sectors from `first` on. */
  ghost predicate SectorsRead(sectors: Sectors, first: nat, n: nat, bytes: seq<byte>) {
    && first + n <= |sectors| && |bytes| == n * 512
    && forall s: nat :: s < n ==> bytes[512 * s..512 * s + 512] == sectors[first + s]
  }

  /** A way from `start` along the table's entries to a cluster marked bad. */
  ghost predicate BadPath(v: Volume, start: nat, path: seq<nat>) {
    && path != [] && path[0] == start && |v.data| <= |v.fat|
    && (forall i :: 0 <= i < |path| ==> 2 <= path[i] < |v.data|)
    && (forall i :: 0 <= i < |path| - 1 ==> Next(v.fat[path[i]]) == Ok(path[i + 1]))
    && v.fat[path[|path| - 1]] == 0x0FFF_FFF7
  }

  /** The first `limit` bytes from `start` on, in clusters of cs bytes, run into a cluster marked bad. */
  ghost predicate MeetsBad(v: Volume, cs: nat, start: nat, limit: nat) {
    exists path :: BadPath(v, start, path) && (|path| - 1) * cs < limit
  }

  // ---- Any cluster number, on the volume or not ----

  /** The successor that the table gives for c; past the table it is whatever lies there. */
  ghost function NextOf(g: Geometry, sectors: Sectors, c: nat): Result<nat, string>
    requires Sized(sectors)
  {
    if g.reserved + c / 128 < |sectors| then Next(EntryOf(sectors[g.reserved + c / 128], c % 128))
    else Err("LBA out of range")
  }

  ghost function BytesAt(g: Geometry, sectors: Sectors, c: nat): (r: Result<seq<byte>, string>)
    requires Sized(sectors)
    ensures r.Ok? ==> |r.value| == g.spc * 512
  {
    if c < 2 then Err("invalid cluster")
    else if First(g, c) + g.spc <= |sectors| then
      JoinLength(sectors, First(g, c), g.spc); Ok(Join(sectors, First(g, c), g.spc))
    else Err("LBA out of range")
  }

  /** The bytes found from cluster c on, at most `limit`: up to the end of a chain, round and round
      a cycle, and an error at a cluster that cannot be read or is marked bad. */
  ghost function BytesFrom(g: Geometry, sectors: Sectors, c: nat, limit: nat): Result<seq<byte>, string>
    requires Sized(sectors) && g.spc >= 1
    decreases limit
  {
    if limit == 0 then Ok([])
    else
      var bytes := BytesAt(g, sectors, c);
      if bytes.Err? then bytes
      else
        var next, n := NextOf(g, sectors, c), Min(g.spc * 512, limit);
        if next.Err? then Err(next.error)
        else if next.value == 0 then Ok(bytes.value[..n])
        else
          var rest := BytesFrom(g, sectors, next.value, limit - n);
          if rest.Err? then rest else Ok(bytes.value[..n] + rest.value)
  }

  lemma FromStep(g: Geometry, sectors: Sectors, c: nat, limit: nat)
    requires Sized(sectors) && g.spc >= 1
    ensures limit == 0 ==> BytesFrom(g, sectors, c, limit) == Ok([])
    ensures limit > 0 ==>
      var bytes, next, n := BytesAt(g, sectors, c), NextOf(g, sectors, c), Min(g.spc * 512, limit);
      && (bytes.Err? ==> BytesFrom(g, sectors, c, limit) == bytes)
      && (bytes.Ok? ==>
            && n <= |bytes.value| && (next.Err? ==> BytesFrom(g, sectors, c, limit) == Err(next.error))
            && (next.Ok? && next.value == 0 ==> BytesFrom(g, sectors, c, limit) == Ok(bytes.value[..n]))
            && (next.Ok? && next.value != 0 ==>
                  var rest := BytesFrom(g, sectors, next.value, limit - n);
                  BytesFrom(g, sectors, c, limit) == if rest.Err? then rest else Ok(bytes.value[..n] + rest.value)))
  {
  }

  /** On the volume those are the table's entry and the cluster's bytes. */
  lemma OnVolume(g: Geometry, sectors: Sectors, c: nat)
    requires Fits(g, |sectors|) && Sized(sectors)
    ensures c < g.fatSize * 128 ==> NextOf(g, sectors, c) == Next(FatOf(g, sectors)[c])
    ensures 2 <= c < g.total ==> BytesAt(g, sectors, c) == Ok(VolumeOf(g, sectors).data[c])
  {
    hide Join, Next, EntryOf;
    TableOnDisk(g, |sectors|);
    if 2 <= c < g.total {
      ClusterOnDisk(g, |sectors|, c);
    }
  }

  /** From the start of a chain it is the file. */
  lemma {:induction false} ReadsChain(g: Geometry, sectors: Sectors, chain: seq<nat>, limit: nat)
    requires Fits(g, |sectors|) && Sized(sectors) && IsChain(VolumeOf(g, sectors), chain)
    ensures var data := VolumeOf(g, sectors).data;
            && Pieces(data, g.spc * 512, chain)
            && BytesFrom(g, sectors, chain[0], limit)
               == Ok(Content(data, chain)[..Min(limit, |Content(data, chain)|)])
    decreases |chain|
  {
    hide NextOf, BytesAt, Fits, VolumeOf, FatOf;
    var v, cs := VolumeOf(g, sectors), g.spc * 512;
    VolumeFacts(g, sectors);
    assert Pieces(v.data, cs, chain);
    OnVolume(g, sectors, chain[0]);
    ContentSplit(v.data, chain, 0);
    var rest := chain[1..];
    assert Content(v.data, chain) == v.data[chain[0]] + Content(v.data, rest);
    if rest == [] {
      assert Content(v.data, chain) == v.data[chain[0]];
      assert Next(v.fat[chain[0]]) == Ok(0);
    } else if limit > 0 {
      assert Next(v.fat[chain[0]]) == Ok(rest[0]) && rest[0] != 0;
      RestIsChain(v, chain);
      ReadsChain(g, sectors, rest, limit - Min(cs, limit));
      Prefixes(v.data[chain[0]], Content(v.data, rest), limit);
    }
  }

  lemma VolumeFacts(g: Geometry, sectors: Sectors)
    requires Fits(g, |sectors|) && Sized(sectors)
    ensures var v := VolumeOf(g, sectors);
            && |v.data| == g.total <= |v.fat| == g.fatSize * 128 && v.fat == FatOf(g, sectors) && g.spc >= 1
            && forall c :: 2 <= c < g.total ==> |v.data[c]| == g.spc * 512
  {
    VolumeShape(g, sectors);
  }

  lemma RestIsChain(v: Volume, chain: seq<nat>)
    requires IsChain(v, chain) && |chain| > 1
    ensures IsChain(v, chain[1..])
  {
    hide Next;
    var rest := chain[1..];
    forall i | 0 <= i < |rest| - 1 ensures Next(v.fat[rest[i]]) == Ok(rest[i + 1]) {
      assert Next(v.fat[chain[i + 1]]) == Ok(chain[i + 2]);
    }
  }

  lemma Prefixes(a: seq<byte>, b: seq<byte>, limit: nat)
    ensures a[..Min(|a|, limit)] + b[..Min(limit - Min(|a|, limit), |b|)] == (a + b)[..Min(limit, |a + b|)]
  {
  }

  lemma VolumeShape(g: Geometry, sectors: Sectors)
    requires Fits(g, |sectors|) && Sized(sectors)
    ensures Shape(VolumeOf(g, sectors), g.spc * 512)
    ensures |VolumeOf(g, sectors).data| == g.total && |VolumeOf(g, sectors).fat| == g.fatSize * 128
  {
    forall c: nat | 2 <= c < g.total ensures |ClusterOf(g, sectors, c)| == g.spc * 512 {
      ClusterOnDisk(g, |sectors|, c);
      JoinLength(sectors, First(g, c), g.spc);
    }
  }

  /** Writing one cluster's sectors changes that cluster only. */
  lemma ClusterWritten(g: Geometry, sectors: Sectors, sectors': Sectors, c: nat)
    requires Fits(g, |sectors|) && Sized(sectors) && Sized(sectors') && |sectors'| == |sectors| && Mirrored(g, sectors)
    requires 2 <= c < g.total
    requires forall i :: 0 <= i < |sectors| && !(First(g, c) <= i < First(g, c) + g.spc) ==> sectors'[i] == sectors[i]
    ensures Mirrored(g, sectors')
    ensures var v := VolumeOf(g, sectors);
            c < |v.data| && VolumeOf(g, sectors') == v.(data := v.data[c := ClusterOf(g, sectors', c)])
  {
    hide First, Join;
    TableOnDisk(g, |sectors|);
    ClusterOnDisk(g, |sectors|, c);
    assert FatOf(g, sectors') == FatOf(g, sectors);
    forall d: nat | d < g.total && d != c ensures ClusterOf(g, sectors', d) == ClusterOf(g, sectors, d) {
      if d >= 2 {
        ClusterOnDisk(g, |sectors|, d);
        ClustersApart(g, c, d);
        JoinKept(sectors, sectors', First(g, d), g.spc);
      }
    }
    MirrorKept(g, sectors, sectors');
  }

  lemma MirrorKept(g: Geometry, sectors: Sectors, sectors': Sectors)
    requires Mirrored(g, sectors) && |sectors'| == |sectors|
    requires forall i :: 0 <= i < DataStart(g) ==> sectors'[i] == sectors[i]
    ensures Mirrored(g, sectors')
  {
    hide DataStart, Copy;
    forall f: nat, k: nat | f < g.numFats && k < g.fatSize ensures SameCopy(g, sectors', f, k) {
      CopyBelow(g, f, k);
      CopyBelow(g, 0, k);
      FirstCopy(g, k);
      assert SameCopy(g, sectors, f, k);
    }
  }

  lemma FirstCopy(g: Geometry, k: nat)
    ensures Copy(g, 0, k) == g.reserved + k
  {
  }

  // ---- Writing an entry ----

  /** The sector is the k-th of one of the first m copies of the table. */
  ghost predicate IsCopy(g: Geometry, k: nat, m: nat, lba: nat) { exists f: nat :: f < m && lba == Copy(g, f, k) }

  /** The k-th sector of the first m copies is `buf`, and nothing else has changed. */
  ghost predicate Copied(g: Geometry, sectors: Sectors, sectors': Sectors, k: nat, m: nat, buf: seq<byte>) {
    && |sectors'| == |sectors|
    && forall lba: nat :: lba < |sectors| ==> sectors'[lba] == if IsCopy(g, k, m, lba) then buf else sectors[lba]
  }

  lemma CopyOne(g: Geometry, sectors: Sectors, sectors': Sectors, k: nat, m: nat, buf: seq<byte>)
    requires Copied(g, sectors, sectors', k, m, buf) && Copy(g, m, k) < |sectors|
    ensures Copied(g, sectors, sectors'[Copy(g, m, k) := buf], k, m + 1, buf)
  {
    hide Copy;
    forall lba: nat | lba < |sectors|
      ensures IsCopy(g, k, m + 1, lba) <==> IsCopy(g, k, m, lba) || lba == Copy(g, m, k)
    {
    }
  }

  lemma EntryWritten(sector: seq<byte>, i: nat, v: nat, j: nat)
    requires |sector| == 512 && i < 128 && j < 128 && v < 0x1_0000_0000
    ensures EntryOf(Splice(sector, 4 * i, ToLe(v, 4)), j) == if j == i then v else EntryOf(sector, j)
  {
    var buf := Splice(sector, 4 * i, ToLe(v, 4));
    if j == i {
      Pow256Values();
      FromToLe(v, 4);
      assert buf[4 * i..4 * i + 4] == ToLe(v, 4);
    } else {
      assert buf[4 * j..4 * j + 4] == sector[4 * j..4 * j + 4];
    }
  }

  /** Writing one entry to every copy changes that entry only, and keeps the copies equal. */
  lemma EntryStored(g: Geometry, sectors: Sectors, sectors': Sectors, c: nat, v: nat)
    requires Fits(g, |sectors|) && Sized(sectors) && Sized(sectors') && Mirrored(g, sectors)
    requires c < g.fatSize * 128 && v < 0x1_0000_0000 && g.reserved + c / 128 < |sectors|
    requires Copied(g, sectors, sectors', c / 128, g.numFats,
                    Splice(sectors[g.reserved + c / 128], 4 * (c % 128), ToLe(v, 4)))
    ensures Mirrored(g, sectors')
    ensures var vol := VolumeOf(g, sectors);
            c < |vol.fat| && VolumeOf(g, sectors') == vol.(fat := vol.fat[c := v])
  {
    hide Copy, DataStart, EntryOf, Splice, Join;
    TableOnDisk(g, |sectors|);
    var k, buf := c / 128, Splice(sectors[g.reserved + c / 128], 4 * (c % 128), ToLe(v, 4));
    forall i: nat | i < g.fatSize * 128
      ensures EntryOf(sectors'[g.reserved + i / 128], i % 128) == if i == c then v
        else EntryOf(sectors[g.reserved + i / 128], i % 128)
    {
      OneEntry(g, sectors, sectors', c, v, i);
    }
    assert FatOf(g, sectors') == FatOf(g, sectors)[c := v];
    forall d: nat | d < g.total ensures ClusterOf(g, sectors', d) == ClusterOf(g, sectors, d) {
      ClusterSpared(g, sectors, sectors', k, buf, d);
    }
    CopiesEqual(g, sectors, sectors', k, buf);
  }

  lemma OneEntry(g: Geometry, sectors: Sectors, sectors': Sectors, c: nat, v: nat, i: nat)
    requires Fits(g, |sectors|) && Sized(sectors) && c < g.fatSize * 128 && i < g.fatSize * 128 && v < 0x1_0000_0000
    requires g.reserved + g.fatSize <= |sectors| == |sectors'|
    requires Copied(g, sectors, sectors', c / 128, g.numFats,
                    Splice(sectors[g.reserved + c / 128], 4 * (c % 128), ToLe(v, 4)))
    ensures EntryOf(sectors'[g.reserved + i / 128], i % 128)
         == if i == c then v else EntryOf(sectors[g.reserved + i / 128], i % 128)
  {
    hide Copy, DataStart, EntryOf, Splice;
    var k, buf := c / 128, Splice(sectors[g.reserved + c / 128], 4 * (c % 128), ToLe(v, 4));
    TableSector(g, sectors, sectors', k, buf, i / 128);
    EntryWritten(sectors[g.reserved + k], c % 128, v, i % 128);
  }

  lemma TableSector(g: Geometry, sectors: Sectors, sectors': Sectors, k: nat, buf: seq<byte>, j: nat)
    requires Fits(g, |sectors|) && k < g.fatSize && j < g.fatSize && g.reserved + g.fatSize <= |sectors|
    requires Copied(g, sectors, sectors', k, g.numFats, buf)
    ensures sectors'[g.reserved + j] == if j == k then buf else sectors[g.reserved + j]
  {
    hide Copy;
    FirstCopy(g, j);
    if j == k {
      assert IsCopy(g, k, g.numFats, Copy(g, 0, k));
    } else if IsCopy(g, k, g.numFats, g.reserved + j) {
      var f: nat :| f < g.numFats && g.reserved + j == Copy(g, f, k);
      CopyInjective(g, f, k, 0, j);
    }
  }

  lemma ClusterSpared(g: Geometry, sectors: Sectors, sectors': Sectors, k: nat, buf: seq<byte>, d: nat)
    requires Fits(g, |sectors|) && k < g.fatSize && d < g.total && Copied(g, sectors, sectors', k, g.numFats, buf)
    ensures ClusterOf(g, sectors', d) == ClusterOf(g, sectors, d)
  {
    hide Copy, DataStart, First, Join;
    if d >= 2 {
      ClusterOnDisk(g, |sectors|, d);
      forall i: nat | DataStart(g) <= i < |sectors| ensures sectors'[i] == sectors[i] {
        if IsCopy(g, k, g.numFats, i) {
          var f: nat :| f < g.numFats && i == Copy(g, f, k);
          CopyBelow(g, f, k);
        }
      }
      JoinKept(sectors, sectors', First(g, d), g.spc);
    }
  }

  lemma CopiesEqual(g: Geometry, sectors: Sectors, sectors': Sectors, k: nat, buf: seq<byte>)
    requires Fits(g, |sectors|) && k < g.fatSize && Mirrored(g, sectors)
    requires Copied(g, sectors, sectors', k, g.numFats, buf)
    requires g.reserved + g.fatSize <= |sectors|
    ensures Mirrored(g, sectors')
  {
    hide Copy, DataStart;
    forall f: nat, j: nat | f < g.numFats && j < g.fatSize ensures SameCopy(g, sectors', f, j) {
      assert SameCopy(g, sectors, f, j);
      TableSector(g, sectors, sectors', k, buf, j);
      if j == k {
        assert IsCopy(g, k, g.numFats, Copy(g, f, k));
      } else if IsCopy(g, k, g.numFats, Copy(g, f, j)) {
        var e: nat :| e < g.numFats && Copy(g, f, j) == Copy(g, e, k);
        CopyInjective(g, f, j, e, k);
      }
    }
  }

  /** Reading fails whenever it meets a cluster marked bad before it has what was asked for. */
  lemma {:induction false} BadMarkFails(g: Geometry, sectors: Sectors, start: nat, path: seq<nat>, limit: nat)
    requires Fits(g, |sectors|) && Sized(sectors) && BadPath(VolumeOf(g, sectors), start, path)
    requires (|path| - 1) * (g.spc * 512) < limit
    ensures BytesFrom(g, sectors, start, limit).Err?
    decreases |path|
  {
    var v, cs := VolumeOf(g, sectors), g.spc * 512;
    assert |v.data| == g.total && |v.fat| == g.fatSize * 128 && v.fat == FatOf(g, sectors) && g.spc >= 1;
    hide VolumeOf, FatOf, BytesAt, BytesFrom, NextOf, Fits, BadPath;
    PathHead(v, start, path);
    OnVolume(g, sectors, start);
    FromStep(g, sectors, start, limit);
    if |path| > 1 {
      OneLess(|path|, cs, limit);
      BadMarkFails(g, sectors, path[1], path[1..], limit - cs);
    }
  }

  lemma OneLess(n: nat, cs: nat, limit: nat)
    requires n > 1 && (n - 1) * cs < limit
    ensures cs < limit && (n - 1 - 1) * cs < limit - cs
  {
    MulStep(n - 2, n - 1, cs);
  }

  lemma PathHead(v: Volume, start: nat, path: seq<nat>)
    requires BadPath(v, start, path)
    ensures 2 <= start < |v.data| <= |v.fat| && path != []
    ensures |path| == 1 ==> Next(v.fat[start]).Err?
    ensures |path| > 1 ==> Next(v.fat[start]) == Ok(path[1]) && path[1] != 0 && BadPath(v, path[1], path[1..])
  {
    if |path| > 1 {
      var rest := path[1..];
      forall i | 0 <= i < |rest| - 1 ensures Next(v.fat[rest[i]]) == Ok(rest[i + 1]) {
        assert Next(v.fat[path[i + 1]]) == Ok(path[i + 2]);
      }
    }
  }
}

module FatFiles {
  import opened Wrappers
  import opened Numbers
  import opened Bytes
  import opened Files
  import opened FatChains
  import opened FatLayout

  ghost predicate InRange(v: Volume, chain: seq<nat>) { forall i :: 0 <= i < |chain| ==> 2 <= chain[i] < |v.data| }

  /** The first `written` bytes of `data` are in the file that began as `chain` and now is `cur`,
      from `offset` on. Other bytes and the chains apart from it are as they were. */
  ghost predicate Stored(v0: Volume, cs: nat, chain: seq<nat>, offset: nat, data: seq<byte>, written: nat, v: Volume,
                         cur: seq<nat>) {
    && Shape(v0, cs) && Shape(v, cs) && |v.data| == |v0.data| && |v.fat| == |v0.fat|
    && IsChain(v0, chain) && IsChain(v, cur) && chain <= cur
    && written <= |data| && offset + written <= |Content(v0.data, cur)|
    && Content(v.data, cur) == Splice(Content(v0.data, cur), offset, data[..written])
    && (forall c :: 0 <= c < |v.data| && c !in cur ==> v.data[c] == v0.data[c])
    && (forall other :: IsChain(v0, other) && Apart(other, chain) ==> IsChain(v, other) && Apart(other, cur))
    && |FreeSet(v)| + |cur| == |FreeSet(v0)| + |chain|
  }

  lemma StoreStart(v: Volume, cs: nat, chain: seq<nat>, offset: nat, data: seq<byte>)
    requires Shape(v, cs) && IsChain(v, chain) && offset <= |chain| * cs
    ensures Stored(v, cs, chain, offset, data, 0, v, chain)
  {
    ContentLength(v.data, cs, chain);
    assert data[..0] == [];
  }

  /** The next n bytes, within the j-th cluster. */
  lemma StoreStep(v0: Volume, cs: nat, chain: seq<nat>, offset: nat, data: seq<byte>, written: nat, v: Volume,
                  cur: seq<nat>, j: nat, pos: nat, n: nat)
    requires Stored(v0, cs, chain, offset, data, written, v, cur)
    requires j < |cur| && pos + n <= cs && j * cs + pos == offset + written && written + n <= |data|
    ensures cur[j] < |v.data| && |v.data[cur[j]]| == cs
    ensures var v' := v.(data := v.data[cur[j] := Splice(v.data[cur[j]], pos, data[written..written + n])]);
            Stored(v0, cs, chain, offset, data, written + n, v', cur)
  {
    hide Content, Splice, IsChain, FreeSet;
    ChainFacts(v, cur);
    var d := data[written..written + n];
    var v' := v.(data := v.data[cur[j] := Splice(v.data[cur[j]], pos, d)]);
    ContentPlace(v, cs, cur, j);
    ContentWrite(v.data, cur, j, pos, d);
    ContentLength(v0.data, cs, cur);
    ContentLength(v.data, cs, cur);
    SpliceTwice(Content(v0.data, cur), offset, data, written, n);
    SameFat(v, v', cs, cur);
    forall other | IsChain(v0, other) && Apart(other, chain) ensures IsChain(v', other) && Apart(other, cur) {
      SameFat(v, v', cs, other);
    }
  }

  lemma ChainFacts(v: Volume, chain: seq<nat>)
    requires IsChain(v, chain)
    ensures InRange(v, chain) && forall i, j :: 0 <= i < j < |chain| ==> chain[i] != chain[j]
  {
  }

  lemma ContentPlace(v: Volume, cs: nat, chain: seq<nat>, j: nat)
    requires Shape(v, cs) && InRange(v, chain) && j < |chain|
    ensures |Content(v.data, chain[..j])| == j * cs
  {
    ContentLength(v.data, cs, chain[..j]);
  }

  /** Writing data leaves chains and free clusters alone. */
  lemma SameFat(v: Volume, v': Volume, cs: nat, chain: seq<nat>)
    requires IsChain(v, chain) && v'.fat == v.fat && |v'.data| == |v.data|
    ensures IsChain(v', chain) && FreeSet(v') == FreeSet(v)
  {
    assert forall c: nat :: IsFree(v', c) <==> IsFree(v, c);
  }

  /** One more cluster at the end of the file. */
  lemma StoreLink(v0: Volume, cs: nat, chain: seq<nat>, offset: nat, data: seq<byte>, written: nat, v: Volume,
                  cur: seq<nat>, c: nat)
    requires Stored(v0, cs, chain, offset, data, written, v, cur) && IsFree(v, c)
    ensures Stored(v0, cs, chain, offset, data, written, Linked(v, cur[|cur| - 1], c), cur + [c])
  {
    var v', cur' := Linked(v, cur[|cur| - 1], c), cur + [c];
    LinkExtends(v, cs, cur, c);
    assert c in FreeSet(v);
    if c in cur {
      var i :| 0 <= i < |cur| && cur[i] == c;
      ChainNotFree(v, cur, i);
    }
    ContentGrows(v0, v, cur, c);
    SpliceAppend(Content(v0.data, cur), offset, data[..written], v0.data[c]);
    hide Content, Splice, IsChain, FreeSet, Linked, Shape;
    forall other | IsChain(v0, other) && Apart(other, chain) ensures IsChain(v', other) && Apart(other, cur') {
      LinkSpares(v, cs, cur, c, other);
    }
  }

  lemma ContentGrows(v0: Volume, v: Volume, cur: seq<nat>, c: nat)
    requires |v.data| == |v0.data| && InRange(v, cur) && c < |v.data| && v.data[c] == v0.data[c]
    ensures Content(v.data, cur + [c]) == Content(v.data, cur) + v0.data[c]
    ensures Content(v0.data, cur + [c]) == Content(v0.data, cur) + v0.data[c]
  {
    assert (cur + [c])[..|cur|] == cur;
  }

  /** The file that was `chain` and now is `cur` is a chain that the old one begins; every chain
      apart from it is untouched and still apart. */
  ghost predicate FileKept(v0: Volume, chain: seq<nat>, v: Volume, cur: seq<nat>) {
    && IsChain(v, cur) && chain <= cur && |v.data| == |v0.data|
    && forall other :: IsChain(v0, other) && Apart(other, chain) ==>
         && IsChain(v, other) && Apart(other, cur) && InRange(v0, other)
         && Content(v.data, other) == Content(v0.data, other)
  }

  /** The file's bytes are the old ones with `data` over them at `offset`, where clusters that
      joined the file count with the bytes they had; no more of them joined than needed. */
  ghost predicate FileWritten(v0: Volume, cs: nat, chain: seq<nat>, offset: nat, data: seq<byte>, v: Volume,
                              cur: seq<nat>) {
    && InRange(v0, chain) && InRange(v0, cur) && InRange(v, cur)
    && Content(v0.data, chain) <= Content(v0.data, cur) && offset + |data| <= |Content(v0.data, cur)|
    && Content(v.data, cur) == Splice(Content(v0.data, cur), offset, data)
    && (cur == chain || (|cur| - 1) * cs < offset + |data|)
  }

  /** The offset lies in the file, and the file's clusters and the free ones can hold the data. */
  ghost predicate HasRoom(v0: Volume, cs: nat, chain: seq<nat>, offset: nat, n: nat) {
    offset < |chain| * cs && offset + n <= (|chain| + |FreeSet(v0)|) * cs
  }

  /** Reading the file back gives the data at the offset, and the old bytes around it. */
  lemma WrittenIsRead(v0: Volume, cs: nat, chain: seq<nat>, offset: nat, data: seq<byte>, v: Volume, cur: seq<nat>)
    requires FileWritten(v0, cs, chain, offset, data, v, cur)
    ensures var now, was := Content(v.data, cur), Content(v0.data, chain);
            && |was| <= |now| && offset + |data| <= |now| && now[offset..offset + |data|] == data
            && forall i :: 0 <= i < |was| && !(offset <= i < offset + |data|) ==> now[i] == was[i]
  {
    hide Content;
  }

  lemma StoreKept(v0: Volume, cs: nat, chain: seq<nat>, offset: nat, data: seq<byte>, written: nat, v: Volume,
                  cur: seq<nat>)
    requires Stored(v0, cs, chain, offset, data, written, v, cur)
    ensures FileKept(v0, chain, v, cur)
  {
    hide Splice;
    forall other | IsChain(v0, other) && Apart(other, chain)
      ensures InRange(v0, other) && Content(v.data, other) == Content(v0.data, other)
    {
      assert Apart(other, cur);
      ContentKept(v0.data, v.data, other);
    }
  }

  lemma StoreCount(v0: Volume, cs: nat, chain: seq<nat>, offset: nat, data: seq<byte>, written: nat, v: Volume,
                   cur: seq<nat>)
    requires Stored(v0, cs, chain, offset, data, written, v, cur)
    ensures |cur| <= |chain| + |FreeSet(v0)| && Shape(v0, cs) && InRange(v0, chain)
  {
    hide Splice, Content;
  }

  lemma ContentPrefix(data: seq<seq<byte>>, chain: seq<nat>, cur: seq<nat>)
    requires chain <= cur && forall i :: 0 <= i < |cur| ==> cur[i] < |data|
    ensures (forall i :: 0 <= i < |chain| ==> chain[i] < |data|) && Content(data, chain) <= Content(data, cur)
  {
    assert cur == chain + cur[|chain|..];
    ContentAppend(data, chain, cur[|chain|..]);
  }

  lemma Refused(v0: Volume, cs: nat, chain: seq<nat>, offset: nat, data: seq<byte>)
    requires Shape(v0, cs) && IsChain(v0, chain) && offset >= |chain| * cs
    ensures FileKept(v0, chain, v0, chain) && !HasRoom(v0, cs, chain, offset, |data|)
  {
    StoreStart(v0, cs, chain, 0, data);
    StoreKept(v0, cs, chain, 0, data, 0, v0, chain);
  }

  lemma Complete(v0: Volume, cs: nat, chain: seq<nat>, offset: nat, data: seq<byte>, v: Volume, cur: seq<nat>)
    requires Stored(v0, cs, chain, offset, data, |data|, v, cur) && offset < |chain| * cs
    requires Needed(chain, cur, cs, offset + |data|)
    ensures FileKept(v0, chain, v, cur) && FileWritten(v0, cs, chain, offset, data, v, cur)
    ensures HasRoom(v0, cs, chain, offset, |data|)
  {
    hide FileKept, FreeSet, Splice, Content, IsChain, Stored, Shape;
    StoreKept(v0, cs, chain, offset, data, |data|, v, cur);
    StoreRoom(v0, cs, chain, offset, data, v, cur);
    StoreChain(v0, cs, chain, offset, data, |data|, v, cur);
    assert data[..|data|] == data;
    ContentPrefix(v0.data, chain, cur);
  }

  lemma StoreRoom(v0: Volume, cs: nat, chain: seq<nat>, offset: nat, data: seq<byte>, v: Volume, cur: seq<nat>)
    requires Stored(v0, cs, chain, offset, data, |data|, v, cur) && offset < |chain| * cs
    ensures HasRoom(v0, cs, chain, offset, |data|)
  {
    StoreCount(v0, cs, chain, offset, data, |data|, v, cur);
    hide FreeSet, Splice, Content, IsChain, Stored;
    StoreChain(v0, cs, chain, offset, data, |data|, v, cur);
    ContentLength(v0.data, cs, cur);
    MulMono(|cur|, |chain| + |FreeSet(v0)|, cs);
  }

  lemma StoreChain(v0: Volume, cs: nat, chain: seq<nat>, offset: nat, data: seq<byte>, written: nat, v: Volume,
                   cur: seq<nat>)
    requires Stored(v0, cs, chain, offset, data, written, v, cur)
    ensures Shape(v, cs) && IsChain(v, cur) && InRange(v, cur) && chain <= cur && |v.data| == |v0.data|
    ensures InRange(v0, cur) && offset + written <= |Content(v0.data, cur)| && written <= |data|
    ensures Content(v.data, cur) == Splice(Content(v0.data, cur), offset, data[..written])
  {
  }

  lemma StoreRange(v0: Volume, cs: nat, chain: seq<nat>, offset: nat, data: seq<byte>, written: nat, v: Volume,
                   cur: seq<nat>, j: nat)
    requires Stored(v0, cs, chain, offset, data, written, v, cur) && j < |cur|
    ensures 2 <= cur[j] < |v.data|
  {
  }

  /** Byte `at` of the file is byte `pos` of its j-th cluster. */
  ghost predicate Place(cur: seq<nat>, j: nat, cs: nat, pos: nat, at: nat, cluster: nat) {
    j < |cur| && cluster == cur[j] && pos < cs && j * cs + pos == at
  }

  lemma PlaceIs(cur: seq<nat>, j: nat, cs: nat, pos: nat, at: nat, cluster: nat)
    requires Place(cur, j, cs, pos, at, cluster)
    ensures j < |cur| && cluster == cur[j] && pos < cs
  {
  }

  /** The next cluster begins where this one ends. */
  lemma PlaceNext(cur: seq<nat>, j: nat, cs: nat, pos: nat, at: nat, cluster: nat, end: nat)
    requires Place(cur, j, cs, pos, at, cluster) && end == at + (cs - pos)
    ensures (j + 1) * cs == end
    ensures forall next: seq<nat> :: j + 1 < |next| ==> Place(next, j + 1, cs, 0, end, next[j + 1])
  {
    assert (j + 1) * cs == j * cs + cs;
  }

  /** The file has not grown, or its last cluster is needed for what ends at `end`. */
  ghost predicate Needed(chain: seq<nat>, cur: seq<nat>, cs: nat, end: nat) {
    cur == chain || (cur != [] && (|cur| - 1) * cs < end)
  }

  lemma Unneeded(chain: seq<nat>, cs: nat, end: nat)
    ensures Needed(chain, chain, cs, end)
  {
  }

  lemma NeededNext(chain: seq<nat>, cur: seq<nat>, cur': seq<nat>, j: nat, cs: nat, at: nat, end: nat)
    requires Needed(chain, cur, cs, end) && (cur' == cur || |cur'| == j + 2)
    requires (j + 1) * cs == at < end
    ensures Needed(chain, cur', cs, end)
  {
  }

  /** The file has taken every free cluster, is full, and some data is left. */
  lemma NoRoom(v0: Volume, cs: nat, chain: seq<nat>, offset: nat, data: seq<byte>, written: nat, v: Volume,
               cur: seq<nat>)
    requires Stored(v0, cs, chain, offset, data, written, v, cur) && FreeSet(v) == {}
    requires offset + written == |cur| * cs && written < |data|
    ensures FileKept(v0, chain, v, cur) && !HasRoom(v0, cs, chain, offset, |data|)
    ensures FileFilled(v0, cs, chain, offset, data, v, cur)
  {
    hide FreeSet, FileKept, Stored, FileWritten;
    StoreKept(v0, cs, chain, offset, data, written, v, cur);
    StoreFree(v0, cs, chain, offset, data, written, v, cur);
    assert |cur| * cs == (|chain| + |FreeSet(v0)|) * cs;
    FilledUp(v0, cs, chain, offset, data, written, v, cur);
  }

  lemma FilledUp(v0: Volume, cs: nat, chain: seq<nat>, offset: nat, data: seq<byte>, written: nat, v: Volume,
                 cur: seq<nat>)
    requires Stored(v0, cs, chain, offset, data, written, v, cur)
    requires offset + written == |cur| * cs && written <= |data| && cur != [] && cs > 0
    ensures FileWritten(v0, cs, chain, offset, data[..written], v, cur)
  {
    hide FreeSet, Content, Splice, IsChain, Stored, Shape;
    StoreChain(v0, cs, chain, offset, data, written, v, cur);
    ContentPrefix(v0.data, chain, cur);
    MulStep(|cur| - 1, |cur|, cs);
  }

  lemma StoreFree(v0: Volume, cs: nat, chain: seq<nat>, offset: nat, data: seq<byte>, written: nat, v: Volume,
                  cur: seq<nat>)
    requires Stored(v0, cs, chain, offset, data, written, v, cur)
    ensures |FreeSet(v)| + |cur| == |FreeSet(v0)| + |chain| && cs > 0 && cur != []
  {
    hide FreeSet, Content, Splice;
  }

  /** All free clusters have joined the file, and its bytes are the old ones with as much of `data` over
      them as reaches the end of the last cluster. */
  ghost predicate FileFilled(v0: Volume, cs: nat, chain: seq<nat>, offset: nat, data: seq<byte>, v: Volume,
                             cur: seq<nat>) {
    && |cur| == |chain| + |FreeSet(v0)| && offset <= |cur| * cs < offset + |data|
    && FileWritten(v0, cs, chain, offset, data[..|cur| * cs - offset], v, cur)
  }

  /** What a write to the file `chain` comes to, by whether it succeeds. */
  ghost predicate WriteDone(v0: Volume, cs: nat, chain: seq<nat>, offset: nat, data: seq<byte>, ok: bool, v: Volume,
                            cur: seq<nat>) {
    && FileKept(v0, chain, v, cur)
    && (ok <==> HasRoom(v0, cs, chain, offset, |data|))
    && (ok ==> FileWritten(v0, cs, chain, offset, data, v, cur))
    && (!ok ==> if offset >= |chain| * cs then v == v0 else FileFilled(v0, cs, chain, offset, data, v, cur))
  }

  // ---- Writing where the table may be malformed ----

  /** From the clusters `reach`, all in the volume, the table leads to no others. */
  ghost predicate Confined(v: Volume, reach: set<nat>) {
    && |v.data| <= |v.fat|
    && forall c :: c in reach ==>
         2 <= c < |v.data| && var n := Next(v.fat[c]); n.Ok? && n.value != 0 ==> n.value in reach
  }

  lemma ChainConfined(v: Volume, chain: seq<nat>)
    requires IsChain(v, chain)
    ensures Confined(v, set c | c in chain)
  {
    forall c | c in chain ensures var n := Next(v.fat[c]); n.Ok? && n.value != 0 ==> n.value in chain {
      var i :| 0 <= i < |chain| && chain[i] == c;
      assert i < |chain| - 1 ==> Next(v.fat[chain[i]]) == Ok(chain[i + 1]);
    }
  }

  lemma ConfinedNext(v: Volume, reach: set<nat>, c: nat)
    requires Confined(v, reach) && c in reach
    ensures 2 <= c < |v.data| <= |v.fat| && var n := Next(v.fat[c]); n.Ok? && n.value != 0 ==> n.value in reach
  {
  }

  lemma SeekStep(j: nat, cs: nat, pos: nat)
    requires pos >= cs
    ensures (j + 1) * cs + (pos - cs) == j * cs + pos
  {
  }

  /** The last cluster ends before the offset. */
  lemma SeekEnd(n: nat, j: nat, cs: nat, pos: nat, offset: nat)
    requires j + 1 == n && j * cs + pos == offset && pos >= cs
    ensures offset >= n * cs
  {
    SeekStep(j, cs, pos);
  }

  /** Only the clusters `now` have changed: those of `from`, and some that were free. */
  ghost predicate Strayed(v0: Volume, from: set<nat>, v: Volume, now: set<nat>) {
    && |v.data| == |v0.data| && |v.fat| == |v0.fat| && Confined(v, now)
    && from <= now && (forall c :: c in now ==> c in from || IsFree(v0, c))
    && (forall c :: 0 <= c < |v.data| && c !in now ==> v.data[c] == v0.data[c])
    && (forall c :: 0 <= c < |v.fat| && c !in now ==> v.fat[c] == v0.fat[c])
  }

  lemma StrayStart(v: Volume, from: set<nat>)
    requires Confined(v, from)
    ensures Strayed(v, from, v, from)
  {
  }

  lemma StrayWrite(v0: Volume, from: set<nat>, v: Volume, now: set<nat>, c: nat, bytes: seq<byte>)
    requires Strayed(v0, from, v, now) && c in now
    ensures 2 <= c < |v.data| && Strayed(v0, from, v.(data := v.data[c := bytes]), now)
  {
  }

  lemma StrayNext(v0: Volume, from: set<nat>, v: Volume, now: set<nat>, c: nat)
    requires Strayed(v0, from, v, now) && c in now
    ensures 2 <= c < |v.data| <= |v.fat| && var n := Next(v.fat[c]); n.Ok? && n.value != 0 ==> n.value in now
  {
  }

  lemma StrayLink(v0: Volume, from: set<nat>, v: Volume, now: set<nat>, last: nat, c: nat)
    requires Strayed(v0, from, v, now) && last in now && IsFree(v, c) && |v.data| <= BAD
    ensures last < |v.fat| && Strayed(v0, from, Linked(v, last, c), now + {c})
  {
  }

  /** Every chain that has no cluster among `from` keeps its clusters and bytes. */
  ghost predicate SparesOthers(v0: Volume, from: set<nat>, v: Volume) {
    forall other :: IsChain(v0, other) && (forall c :: c in other ==> c !in from) ==>
      IsChain(v, other) && InRange(v0, other) && Content(v.data, other) == Content(v0.data, other)
  }

  lemma StraySpares(v0: Volume, from: set<nat>, v: Volume, now: set<nat>)
    requires Strayed(v0, from, v, now)
    ensures SparesOthers(v0, from, v)
  {
    hide Content;
    forall other | IsChain(v0, other) && forall c :: c in other ==> c !in from
      ensures IsChain(v, other) && InRange(v0, other) && Content(v.data, other) == Content(v0.data, other)
    {
      forall i | 0 <= i < |other| ensures other[i] !in now {
        ChainNotFree(v0, other, i);
        assert other[i] in other;
      }
      ChainKept(v0, v, other);
      ContentKept(v0.data, v.data, other);
    }
  }

  // ---- The walk of free_cluster_chain ----

  lemma FreeNone(v: Volume, start: nat)
    requires |v.data| <= |v.fat|
    ensures Walked(v, start, []) && Target(v, start, []) == Ok(start) && Cleared(v.fat, []) == v.fat
  {
  }

  /** One turn: a cluster seen before is free by now; a new one joins the walk. */
  lemma FreeStep(v: Volume, start: nat, path: seq<nat>, c: nat)
    requires Walked(v, start, path) && Target(v, start, path) == Ok(c) && 2 <= c < |v.data|
    ensures var fat := Cleared(v.fat, path);
            && |fat| == |v.fat|
            && (c in path ==> fat[c] == 0 && fat[c := 0] == fat && Next(fat[c]) == Ok(0))
            && (c !in path ==> && fat[c] == v.fat[c] && fat[c := 0] == Cleared(v.fat, path + [c])
                               && Walked(v, start, path + [c]) && Target(v, start, path + [c]) == Next(v.fat[c]))
            && (Next(fat[c]).Ok? && Next(fat[c]).value != 0 ==> Busy(fat[c := 0]) < Busy(fat))
            && (Next(fat[c]).Err? ==> fat[c] == BAD)
  {
    var fat := Cleared(v.fat, path);
    if c !in path {
      WalkOn(v, start, path, c);
    }
    if fat[c] != 0 {
      BusyFalls(fat, c);
    }
  }

  lemma FreeEnd(v: Volume, start: nat, path: seq<nat>, ok: bool)
    requires Walked(v, start, path) && Stops(v, start, path, ok)
    ensures forall chain :: IsChain(v, chain) && chain[0] == start ==> ok && path == chain
  {
    hide Walked, Stops;
    forall chain | IsChain(v, chain) && chain[0] == start ensures ok && path == chain {
      WalkIsChain(v, chain, path, ok);
    }
  }

  /** Distinct clusters in range, each the next of the one before, from `start` on. */
  ghost predicate Walked(v: Volume, start: nat, path: seq<nat>) {
    && |v.data| <= |v.fat| && InRange(v, path)
    && (forall i, j :: 0 <= i < j < |path| ==> path[i] != path[j])
    && (path != [] ==> path[0] == start)
    && (forall i :: 0 <= i < |path| - 1 ==> Next(v.fat[path[i]]) == Ok(path[i + 1]))
  }

  /** Where the walk goes next. */
  ghost function Target(v: Volume, start: nat, path: seq<nat>): Result<nat, string>
    requires Walked(v, start, path)
  {
    if path == [] then Ok(start) else Next(v.fat[path[|path| - 1]])
  }

  /** It ends outside the volume or where it has been; it fails at a cluster marked bad. */
  ghost predicate Stops(v: Volume, start: nat, path: seq<nat>, ok: bool)
    requires Walked(v, start, path)
  {
    var t := Target(v, start, path);
    t.Ok? && if ok then t.value < 2 || t.value >= |v.data| || t.value in path
             else 2 <= t.value < |v.data| && v.fat[t.value] == BAD
  }

  lemma WalkOn(v: Volume, start: nat, path: seq<nat>, c: nat)
    requires Walked(v, start, path) && Target(v, start, path) == Ok(c) && 2 <= c < |v.data| && c !in path
    ensures Walked(v, start, path + [c]) && Target(v, start, path + [c]) == Next(v.fat[c])
  {
    var path' := path + [c];
    forall i | 0 <= i < |path'| - 1 ensures Next(v.fat[path'[i]]) == Ok(path'[i + 1]) {
      if i < |path| - 1 {
        assert path'[i + 1] == path[i + 1];
      }
    }
  }

  /** From the start of a chain, the walk visits exactly that chain. */
  lemma {:induction false} WalkIsChain(v: Volume, chain: seq<nat>, path: seq<nat>, ok: bool)
    requires IsChain(v, chain) && Walked(v, chain[0], path) && Stops(v, chain[0], path, ok)
    ensures ok && path == chain
  {
    WalkFollowsChain(v, chain, path, |path|);
    if |path| < |chain| {
      assert Target(v, chain[0], path) == Ok(chain[|path|]);
    }
    ChainNext(v, chain);
  }

  lemma ChainNext(v: Volume, chain: seq<nat>)
    requires IsChain(v, chain)
    ensures forall i :: 0 <= i < |chain| ==> v.fat[chain[i]] != BAD
    ensures Next(v.fat[chain[|chain| - 1]]) == Ok(0)
  {
    forall i | 0 <= i < |chain| ensures v.fat[chain[i]] != BAD {
      if i < |chain| - 1 {
        assert Next(v.fat[chain[i]]) == Ok(chain[i + 1]);
      }
    }
  }

  lemma {:induction false} WalkFollowsChain(v: Volume, chain: seq<nat>, path: seq<nat>, n: nat)
    requires IsChain(v, chain) && Walked(v, chain[0], path) && n <= |path|
    ensures n <= |chain| && path[..n] == chain[..n]
  {
    if n > 0 {
      WalkFollowsChain(v, chain, path, n - 1);
      if n > 1 {
        assert Next(v.fat[path[n - 2]]) == Ok(path[n - 1]);
        assert path[n - 2] == path[..n - 1][n - 2] == chain[..n - 1][n - 2] == chain[n - 2];
        ChainNext(v, chain);
      }
      assert n - 1 < |chain|;
      assert path[n - 1] == chain[n - 1];
      assert path[..n] == path[..n - 1] + [path[n - 1]] && chain[..n] == chain[..n - 1] + [chain[n - 1]];
    }
  }

  /** The number of entries in use. */
  function Busy(fat: seq<nat>): nat {
    if fat == [] then 0 else Busy(fat[..|fat| - 1]) + if fat[|fat| - 1] == 0 then 0 else 1
  }

  lemma {:induction false} BusyFalls(fat: seq<nat>, c: nat)
    requires c < |fat| && fat[c] != 0
    ensures Busy(fat[c := 0]) == Busy(fat) - 1
  {
    var n := |fat| - 1;
    if c == n {
      assert fat[c := 0][..n] == fat[..n];
    } else {
      assert fat[c := 0][..n] == fat[..n][c := 0];
      BusyFalls(fat[..n], c);
    }
  }
}

module Fat32 {
  import opened Wrappers
  import opened Numbers
  import opened Bytes
  import opened Files
  import opened Disks
  import opened FatChains
  import opened FatLayout
  import opened FatFiles

  class Fat32Fs {
    const disk: Disk
    const bytesPerSector: nat
    const sectorsPerCluster: nat
    const reservedSectors: nat
    const numFats: nat
    const fatSize: nat
    const dataStart: nat
    const totalClusters: nat

    ghost function Geo(): Geometry { Geometry(reservedSectors, numFats, fatSize, sectorsPerCluster, totalClusters) }

    ghost function ClusterSize(): nat { sectorsPerCluster * 512 }

    /** 512-byte sectors, everything on the disk, and equal copies of the table. */
    ghost predicate Valid()
      reads disk
    {
      && bytesPerSector == SECTOR_SIZE && dataStart == DataStart(Geo())
      && Sized(disk.sectors) && Fits(Geo(), |disk.sectors|) && Mirrored(Geo(), disk.sectors)
    }

    ghost function View(): Volume
      reads disk
      requires Valid()
    {
      VolumeOf(Geo(), disk.sectors)
    }

    constructor (disk: Disk, g: Geometry)
      requires Sized(disk.sectors) && Fits(g, |disk.sectors|) && Mirrored(g, disk.sectors)
      ensures Valid() && this.disk == disk && Geo() == g
    {
      this.disk := disk;
      bytesPerSector, sectorsPerCluster, reservedSectors, numFats, fatSize := SECTOR_SIZE, g.spc, g.reserved, g.numFats,
        g.fatSize;
      dataStart, totalClusters := g.reserved + g.numFats * g.fatSize, g.total;
    }

    ghost predicate HasEntry(cluster: nat) { cluster < fatSize * 128 }

    method NextCluster(cluster: nat) returns (r: Result<nat, string>)
      requires Valid()
      ensures HasEntry(cluster) ==> |View().fat| == fatSize * 128 && r == Next(View().fat[cluster])
      ensures HasEntry(cluster) ==> (r.Err? <==> View().fat[cluster] == 0x0FFF_FFF7)
      ensures r == NextOf(Geo(), disk.sectors, cluster)
      ensures EntryRead(disk.sectors, reservedSectors, cluster, r)
    {
      EntryIsRead(Geo(), disk.sectors, cluster);
      hide Mirrored, EntryRead;
      TableOnDisk(Geo(), |disk.sectors|);
      var fatOffset := reservedSectors * bytesPerSector + cluster * 4;
      var fatSector := fatOffset / bytesPerSector;
      var byteInSector := fatOffset % bytesPerSector;
      assert fatSector == reservedSectors + cluster / 128 && byteInSector == 4 * (cluster % 128);
      var sector := disk.ReadSector(fatSector);
      if sector.Err? { return Err(sector.error); }
      var entry := FromLe(sector.value[byteInSector..byteInSector + 4]);
      if entry >= EOC {
        return Ok(0);
      } else if entry == BAD {
        return Err("bad cluster");
      } else {
        return Ok(entry % MASK);
      }
    }

    /** The entry is stored in every copy of the table, and nothing else changes. */
    method SetFatEntry(cluster: nat, value: nat) returns (ok: bool)
      requires Valid() && HasEntry(cluster)
      modifies disk
      ensures ok && Valid()
      ensures View() == old(View()).(fat := old(View()).fat[cluster := value % MASK])
    {
      hide Mirrored, Copy, VolumeOf, FatLayout.Copied, Splice;
      ghost var g, sectors := Geo(), disk.sectors;
      TableOnDisk(g, |sectors|);
      var fatOffset := cluster * 4;
      var sector := reservedSectors + fatOffset / bytesPerSector;
      var byteInSector := fatOffset % bytesPerSector;
      assert sector == reservedSectors + cluster / 128 && byteInSector == 4 * (cluster % 128);
      var read := disk.ReadSector(sector);
      var buf := Splice(read.value, byteInSector, ToLe(value % MASK, 4));
      CopyNone(g, sectors, cluster / 128, buf);
      var f := 0;
      while f < numFats
        invariant 0 <= f <= numFats && Sized(disk.sectors)
        invariant FatLayout.Copied(g, sectors, disk.sectors, cluster / 128, f, buf) && |disk.sectors| == |sectors|
      {
        CopyBelow(g, f, cluster / 128);
        CopyIs(g, f, cluster / 128);
        CopyOne(g, sectors, disk.sectors, cluster / 128, f, buf);
        ok := disk.WriteSector(sector + f * fatSize, buf);
        if !ok { return; }
        f := f + 1;
      }
      EntryStored(g, sectors, disk.sectors, cluster, value % MASK);
      return true;
    }

    method MarkEoc(cluster: nat) returns (ok: bool)
      requires Valid() && HasEntry(cluster)
      modifies disk
      ensures ok && Valid()
      ensures View() == old(View()).(fat := old(View()).fat[cluster := EOC])
    {
      ok := SetFatEntry(cluster, EOC);
    }

    /** The first free cluster in [2, total_clusters), if there is one. */
    method AllocCluster() returns (r: Result<nat, string>)
      requires Valid()
      ensures r.Ok? ==> IsFree(View(), r.value) && forall c: nat :: c < r.value ==> !IsFree(View(), c)
      ensures r.Err? ==> FreeSet(View()) == {}
    {
      hide Mirrored, FromLe;
      TableOnDisk(Geo(), |disk.sectors|);
      var entriesPerSector := bytesPerSector / 4;
      var sec := 0;
      while sec < fatSize
        invariant 0 <= sec <= fatSize
        invariant forall c: nat :: c < sec * 128 ==> !IsFree(View(), c)
      {
        var sector := disk.ReadSector(reservedSectors + sec);
        var i := 0;
        while i < entriesPerSector
          invariant 0 <= i <= 128
          invariant forall c: nat :: c < sec * 128 + i ==> !IsFree(View(), c)
        {
          var entry := FromLe(sector.value[i * 4..i * 4 + 4]) % MASK;
          var cluster := sec * entriesPerSector + i;
          EntryAt(Geo(), disk.sectors, sec, i);
          if entry == 0 && cluster >= 2 && cluster < totalClusters {
            return Ok(cluster);
          }
          i := i + 1;
        }
        sec := sec + 1;
      }
      return Err("no free clusters");
    }

    method ReadCluster(cluster: nat) returns (r: Result<seq<byte>, string>)
      requires Valid()
      ensures r == BytesAt(Geo(), disk.sectors, cluster)
      ensures 2 <= cluster < totalClusters ==> |View().data| == totalClusters && r == Ok(View().data[cluster])
      ensures r.Ok? ==> cluster >= 2
      ensures r.Ok? ==>
        SectorsRead(disk.sectors, reservedSectors + numFats * fatSize + (cluster - 2) * sectorsPerCluster,
                    sectorsPerCluster, r.value)
    {
      hide Mirrored, FatOf, First;
      if cluster < 2 { return Err("invalid cluster"); }
      var first := dataStart + (cluster - 2) * sectorsPerCluster;
      FirstIs(Geo(), cluster);
      if cluster < totalClusters { ClusterOnDisk(Geo(), |disk.sectors|, cluster); }
      var buf := [];
      var s := 0;
      while s < sectorsPerCluster
        invariant 0 <= s <= sectorsPerCluster
        invariant first + s <= |disk.sectors| || s == 0
        invariant s > 0 ==> buf == Join(disk.sectors, first, s)
        invariant s == 0 ==> buf == []
      {
        var sector := disk.ReadSector(first + s);
        if sector.Err? { return Err(sector.error); }
        buf := buf + sector.value;
        s := s + 1;
      }
      JoinParts(disk.sectors, first, s);
      return Ok(buf);
    }

    /** The 512 bytes of a cluster's new contents from `offset` on. */
    method SectorAt(data: seq<byte>, toWrite: nat, offset: nat, n: nat) returns (sector: seq<byte>)
      requires toWrite == Min(|data|, n) && offset + 512 <= n
      ensures |sector| == 512 && sector == Padded(data, n)[offset..offset + 512]
    {
      sector := Zeros(512);
      if offset < toWrite {
        var end := Min(offset + 512, toWrite);
        sector := Splice(sector, 0, data[offset..end]);
      }
    }

    /** The cluster holds the data, cut or filled with zeros to its size; nothing else changes. */
    method WriteCluster(cluster: nat, data: seq<byte>) returns (ok: bool)
      requires Valid() && 2 <= cluster < totalClusters
      modifies disk
      ensures ok && Valid() && |old(View()).data| == totalClusters
      ensures View() == old(View()).(data := old(View()).data[cluster := Padded(data, ClusterSize())])
      ensures var first := reservedSectors + numFats * fatSize + (cluster - 2) * sectorsPerCluster;
              && SectorsRead(disk.sectors, first, sectorsPerCluster, Padded(data, sectorsPerCluster * 512))
              && |disk.sectors| == |old(disk.sectors)|
              && forall i :: 0 <= i < |disk.sectors| && !(first <= i < first + sectorsPerCluster) ==>
                   disk.sectors[i] == old(disk.sectors)[i]
    {
      hide Mirrored, VolumeOf, First, Join, Padded, FatOf, SectorsRead;
      ghost var g, sectors := Geo(), disk.sectors;
      ClusterOnDisk(g, |sectors|, cluster);
      FirstIs(g, cluster);
      VolumeShape(g, sectors);
      var first := dataStart + (cluster - 2) * sectorsPerCluster;
      ok := WriteSectors(first, data);
      ClusterWritten(g, sectors, disk.sectors, cluster);
    }

    /** The sectors of one cluster, one after the other. */
    method WriteSectors(first: nat, data: seq<byte>) returns (ok: bool)
      requires Sized(disk.sectors) && first + sectorsPerCluster <= |disk.sectors| && bytesPerSector == 512
      modifies disk
      ensures ok && Sized(disk.sectors) && |disk.sectors| == |old(disk.sectors)|
      ensures Join(disk.sectors, first, sectorsPerCluster) == Padded(data, sectorsPerCluster * 512)
      ensures SectorsRead(disk.sectors, first, sectorsPerCluster, Padded(data, sectorsPerCluster * 512))
      ensures forall i :: 0 <= i < |disk.sectors| && !(first <= i < first + sectorsPerCluster) ==>
        disk.sectors[i] == old(disk.sectors)[i]
    {
      hide Join, Padded;
      JoinFirst(disk.sectors, first);
      ghost var sectors := disk.sectors;
      var clusterBytes := sectorsPerCluster * bytesPerSector;
      assert clusterBytes == sectorsPerCluster * 512;
      var toWrite := Min(|data|, clusterBytes);
      ghost var padded := Padded(data, clusterBytes);
      var s := 0;
      while s < sectorsPerCluster
        invariant 0 <= s <= sectorsPerCluster && |disk.sectors| == |sectors| && Sized(disk.sectors)
        invariant forall i :: 0 <= i < |sectors| && !(first <= i < first + sectorsPerCluster) ==>
          disk.sectors[i] == sectors[i]
        invariant Join(disk.sectors, first, s) == padded[..s * 512]
      {
        var sector := SectorAt(data, toWrite, s * 512, clusterBytes);
        JoinStep(disk.sectors, first, s, sector, padded);
        ok := disk.WriteSector(first + s, sector);
        if !ok { return; }
        s := s + 1;
      }
      assert padded[..s * 512] == padded;
      JoinParts(disk.sectors, first, s);
      return true;
    }

    /** On any table, cyclic or not, the call ends, having freed exactly the clusters on the way from
        `start`; from the start of a chain that is the chain. */
    method FreeClusterChain(start: nat) returns (ok: bool, ghost path: seq<nat>)
      requires Valid()
      modifies disk
      ensures Valid() && Walked(old(View()), start, path) && Stops(old(View()), start, path, ok)
      ensures View() == old(View()).(fat := Cleared(old(View()).fat, path))
      ensures forall chain :: IsChain(old(View()), chain) && chain[0] == start ==> ok && path == chain
      ensures forall c :: c in path ==> c < |old(View()).fat| && old(View()).fat[c] != 0x0FFF_FFF7
    {
      hide Valid, View, Next, Cleared, Walked, Target, IsChain, EntryRead;
      ghost var v := View();
      ViewShape();
      path := [];
      FreeNone(v, start);
      var cluster := start;
      while true
        invariant Valid() && Walked(v, start, path) && View() == v.(fat := Cleared(v.fat, path))
        invariant Target(v, start, path) == Ok(cluster)
        invariant forall c :: c in path ==> c < |v.fat| && v.fat[c] != 0x0FFF_FFF7
        decreases Busy(View().fat)
      {
        if cluster < 2 || cluster >= totalClusters { break; }
        var next := NextCluster(cluster);
        FreeStep(v, start, path, cluster);
        if next.Err? {
          ok := false;
          FreeEnd(v, start, path, ok);
          return;
        }
        ok := SetFatEntry(cluster, 0);
        if !ok { return; }
        if cluster !in path {
          path := path + [cluster];
        }
        if next.value == 0 || next.value >= EOC { break; }
        cluster := next.value;
      }
      ok := true;
      FreeEnd(v, start, path, ok);
    }

    /** The bytes from the cluster on, as many as there are, are asked for and fit the buffer,
        whatever the table says; an error if they run into a cluster marked bad. */
    method ReadFileData(start: nat, size: nat, buf: array<byte>) returns (r: Result<nat, string>)
      requires Valid()
      modifies buf
      ensures Sized(disk.sectors) && sectorsPerCluster >= 1
      ensures var bytes := BytesFrom(Geo(), disk.sectors, start, Min(size, buf.Length));
              && (r.Ok? <==> bytes.Ok?) && (r.Err? ==> r.error == bytes.error)
              && (r.Ok? ==> r.value == |bytes.value| <= buf.Length && buf[..r.value] == bytes.value)
      ensures forall k :: (if r.Ok? then r.value else size) <= k < buf.Length ==> buf[k] == old(buf[k])
      ensures MeetsBad(old(View()), sectorsPerCluster * 512, start, Min(size, buf.Length)) ==> r.Err?
    {
      BadPathsFail(start, Min(size, buf.Length));
      hide Valid, View, BytesFrom, MeetsBad;
      r := ReadClusters(start, size, buf);
    }

    method ReadClusters(start: nat, size: nat, buf: array<byte>) returns (r: Result<nat, string>)
      requires Valid()
      modifies buf
      ensures Sized(disk.sectors) && sectorsPerCluster >= 1
      ensures var bytes := BytesFrom(Geo(), disk.sectors, start, Min(size, buf.Length));
              && (r.Ok? <==> bytes.Ok?) && (r.Err? ==> r.error == bytes.error)
              && (r.Ok? ==> r.value == |bytes.value| <= buf.Length && buf[..r.value] == bytes.value)
      ensures forall k :: (if r.Ok? then r.value else size) <= k < buf.Length ==> buf[k] == old(buf[k])
    {
      hide View, NextOf, BytesAt, Mirrored, Fits, BytesFrom, EntryRead, SectorsRead, HasEntry;
      Spacious();
      ghost var g, limit := Geo(), Min(size, buf.Length);
      ghost var all := BytesFrom(g, disk.sectors, start, limit);
      var clusterSize := sectorsPerCluster * 512;
      var cluster := start;
      var offset := 0;
      NoneYet(buf[..0], all);
      while offset < buf.Length && offset < size
        invariant 0 <= offset <= limit
        invariant all == Followed(buf[..offset], BytesFrom(g, disk.sectors, cluster, limit - offset))
        invariant forall k :: offset <= k < buf.Length ==> buf[k] == old(buf[k])
        decreases limit - offset
      {
        FromStep(g, disk.sectors, cluster, limit - offset);
        var bytes := ReadCluster(cluster);
        if bytes.Err? { return Err(bytes.error); }
        var remaining := Min(size - offset, clusterSize);
        var toCopy := Min(remaining, buf.Length - offset);
        ghost var done := buf[..offset];
        CopyIn(buf, offset, bytes.value[..toCopy]);
        offset := offset + toCopy;
        var next := NextCluster(cluster);
        if next.Err? { return Err(next.error); }
        cluster := next.value;
        if cluster == 0 { break; }
        FollowedTwice(done, bytes.value[..toCopy], BytesFrom(g, disk.sectors, cluster, limit - offset));
      }
      FromStep(g, disk.sectors, cluster, limit - offset);
      return Ok(offset);
    }

    lemma BadPathsFail(start: nat, limit: nat)
      requires Valid()
      ensures Sized(disk.sectors) && sectorsPerCluster >= 1
      ensures MeetsBad(View(), sectorsPerCluster * 512, start, limit) ==>
        BytesFrom(Geo(), disk.sectors, start, limit).Err?
    {
      hide BytesFrom, VolumeOf, BadPath, Mirrored;
      if MeetsBad(View(), sectorsPerCluster * 512, start, limit) {
        var path :| BadPath(View(), start, path) && (|path| - 1) * (sectorsPerCluster * 512) < limit;
        BadMarkFails(Geo(), disk.sectors, start, path, limit);
      }
    }

    lemma Spacious()
      requires Valid()
      ensures sectorsPerCluster >= 1 && Sized(disk.sectors)
    {
    }

    /** The cluster that holds `offset`, and the place in it. */
    method Seek(start: nat, offset: nat, ghost chain: seq<nat>, ghost reach: set<nat>)
      returns (r: Result<(nat, nat), string>, ghost j: nat)
      requires Valid() && Confined(View(), reach) && start in reach
      ensures r.Ok? ==> r.value.0 in reach && r.value.1 < ClusterSize()
      ensures IsChain(View(), chain) && chain[0] == start ==>
        && (r.Ok? <==> offset < |chain| * ClusterSize())
        && (r.Ok? ==> Place(chain, j, ClusterSize(), r.value.1, offset, r.value.0))
    {
      hide Valid, View, Next, IsChain, Confined, EntryRead;
      ViewShape();
      var cs := sectorsPerCluster * bytesPerSector;
      ClusterBytes();
      if IsChain(View(), chain) { ReadStart(View(), chain); }
      ghost var good := IsChain(View(), chain) && chain[0] == start;
      var cluster: nat, pos: nat := start, offset;
      j := 0;
      while pos >= cs
        invariant cluster in reach && j * cs + pos == offset
        invariant good ==> j < |chain| && cluster == chain[j]
        decreases pos
      {
        if good { ChainStep(View(), chain, j); }
        ConfinedNext(View(), reach, cluster);
        SeekStep(j, cs, pos);
        var next := NextCluster(cluster);
        if next.Err? { return Err(next.error), j; }
        if next.value == 0 {
          if good { SeekEnd(|chain|, j, cs, pos, offset); }
          return Err("offset beyond file"), j;
        }
        cluster := next.value;
        pos := pos - cs;
        j := j + 1;
      }
      if good { MulStep(j, |chain|, cs); }
      return Ok((cluster, pos)), j;
    }

    /** Read, modify and write back one cluster. */
    method Modify(cluster: nat, pos: nat, piece: seq<byte>)
      requires Valid() && 2 <= cluster < totalClusters && pos + |piece| <= ClusterSize()
      modifies disk
      ensures Valid() && cluster < |old(View()).data| && |old(View()).data[cluster]| == ClusterSize()
      ensures View() == old(View()).(data := old(View()).data[cluster := Splice(old(View()).data[cluster], pos, piece)])
    {
      hide Valid, View, SectorsRead;
      ViewShape();
      var buf := ReadCluster(cluster);
      var changed := Splice(buf.value, pos, piece);
      var ok := WriteCluster(cluster, changed);
      assert Padded(changed, ClusterSize()) == changed;
    }

    /** A free cluster becomes the end of the chain that ended in `last`. */
    method Extend(last: nat) returns (r: Result<nat, string>)
      requires Valid() && 2 <= last < totalClusters
      modifies disk
      ensures Valid() && |old(View()).fat| == fatSize * 128 && HasEntry(last)
      ensures r.Ok? ==> IsFree(old(View()), r.value) && View() == Linked(old(View()), last, r.value)
      ensures r.Err? ==> FreeSet(old(View())) == {} && View() == old(View())
    {
      hide Valid, View;
      ViewShape();
      r := AllocCluster();
      if r.Err? { return; }
      var ok := SetFatEntry(last, r.value);
      if !ok { return; }
      ok := MarkEoc(r.value);
    }

    /** The cluster after this one, which is added when the walk ends here. From a chain (`good`) it is
        the cluster after the j-th. */
    method Advance(cluster: nat, ghost good: bool, ghost v0: Volume, ghost chain: seq<nat>, ghost offset: nat,
                   ghost data: seq<byte>, ghost written: nat, ghost cur: seq<nat>, ghost j: nat, ghost from: set<nat>,
                   ghost now: set<nat>)
      returns (r: Result<nat, string>, ghost cur': seq<nat>, ghost now': set<nat>)
      requires Valid() && Strayed(v0, from, View(), now) && cluster in now
      requires good ==> Stored(v0, ClusterSize(), chain, offset, data, written, View(), cur)
      requires good ==> j < |cur| && cluster == cur[j]
      modifies disk
      ensures Valid() && Strayed(v0, from, View(), now') && (r.Ok? ==> r.value in now')
      ensures good ==> Stored(v0, ClusterSize(), chain, offset, data, written, View(), cur')
      ensures good && r.Ok? ==> j + 1 < |cur'| && r.value == cur'[j + 1] && (cur' == cur || |cur'| == j + 2)
      ensures good && r.Err? ==> cur' == cur && FreeSet(View()) == {} && j + 1 == |cur|
    {
      hide Valid, View, Next, IsChain, Content, Splice, FreeSet, Stored, Linked, InRange, Strayed, EntryRead;
      ViewShape();
      cur', now' := cur, now;
      StrayNext(v0, from, View(), now, cluster);
      if good {
        StoreChain(v0, ClusterSize(), chain, offset, data, written, View(), cur);
        ChainStep(View(), cur, j);
      }
      var next := NextCluster(cluster);
      if next.Err? { return Err(next.error), cur, now; }
      if next.value != 0 {
        return Ok(next.value), cur, now;
      }
      ghost var v := View();
      r := Extend(cluster);
      if r.Ok? {
        StrayLink(v0, from, v, now, cluster, r.value);
        now' := now + {r.value};
        if good {
          StoreLink(v0, ClusterSize(), chain, offset, data, written, v, cur, r.value);
          cur' := cur + [r.value];
        }
      }
    }

    /** write_file_data, from any cluster whose way lies in the volume (`reach`). Chains that have no
        cluster there are untouched, whatever it returns. If the cluster starts a chain, the file
        is still a chain afterwards, which the old one begins, and every chain apart from it is
        still apart. The write succeeds exactly when the offset lies in the file and the free
        clusters suffice; then the file is what it was, with the data written over it at the
        offset. If they do not suffice, it is so with the part of the data that they hold. */
    method WriteFileData(start: nat, offset: nat, data: seq<byte>, ghost chain: seq<nat>, ghost reach: set<nat>)
      returns (r: Result<nat, string>, ghost cur: seq<nat>)
      requires Valid() && Confined(View(), reach) && start in reach
      modifies disk
      ensures Valid() && (r.Ok? ==> r.value == |data|)
      ensures SparesOthers(old(View()), reach, View())
      ensures IsChain(old(View()), chain) && chain[0] == start ==>
        WriteDone(old(View()), ClusterSize(), chain, offset, data, r.Ok?, View(), cur)
    {
      hide Valid, View, IsChain, FreeSet, Stored, FileKept, FileWritten, HasRoom, Place, Needed, Shape, FileFilled,
        Strayed, SparesOthers, Confined;
      ViewShape();
      ClusterBytes();
      ghost var v0, cs, now := View(), ClusterSize(), reach;
      if IsChain(v0, chain) { ReadStart(v0, chain); }
      ghost var good := IsChain(v0, chain) && chain[0] == start;
      cur := chain;
      StrayStart(v0, reach);
      var at; ghost var j: nat;
      at, j := Seek(start, offset, chain, reach);
      if at.Err? {
        StraySpares(v0, reach, v0, reach);
        if good { Refused(v0, cs, chain, offset, data); }
        return Err(at.error), cur;
      }
      if good {
        Unneeded(chain, cs, offset + |data|);
        StoreStart(v0, cs, chain, offset, data);
      }
      var cluster: nat, pos: nat := at.value.0, at.value.1;
      var written := 0;
      while written < |data|
        invariant Valid() && Strayed(v0, reach, View(), now) && cluster in now && pos < cs && written <= |data|
        invariant good ==> Stored(v0, cs, chain, offset, data, written, View(), cur)
        invariant good ==> written < |data| ==> Place(cur, j, cs, pos, offset + written, cluster)
        invariant good ==> Needed(chain, cur, cs, offset + |data|)
        decreases |data| - written
      {
        ghost var pos0, at0, cur0 := pos, offset + written, cur;
        if good { PlaceIs(cur, j, cs, pos, at0, cluster); }
        var n := Min(|data| - written, sectorsPerCluster * bytesPerSector - pos);
        WritePiece(cluster, pos, n, data, written, good, v0, chain, offset, cur, j, reach, now);
        written := written + n;
        pos := 0;
        if written < |data| {
          var next;
          next, cur, now := Advance(cluster, good, v0, chain, offset, data, written, cur, j, reach, now);
          if good { PlaceNext(cur0, j, cs, pos0, at0, cluster, offset + written); }
          if next.Err? {
            StraySpares(v0, reach, View(), now);
            if good { NoRoom(v0, cs, chain, offset, data, written, View(), cur); }
            return Err(next.error), cur;
          }
          if good { NeededNext(chain, cur0, cur, j, cs, offset + written, offset + |data|); }
          cluster := next.value;
          j := j + 1;
        }
      }
      StraySpares(v0, reach, View(), now);
      if good { Complete(v0, cs, chain, offset, data, View(), cur); }
      return Ok(written), cur;
    }

    /** The part of one turn: n bytes go into the cluster at pos. */
    method WritePiece(cluster: nat, pos: nat, n: nat, data: seq<byte>, written: nat, ghost good: bool, ghost v0: Volume,
                      ghost chain: seq<nat>, ghost offset: nat, ghost cur: seq<nat>, ghost j: nat, ghost from: set<nat>,
                      ghost now: set<nat>)
      requires Valid() && Strayed(v0, from, View(), now) && cluster in now
      requires good ==> Stored(v0, ClusterSize(), chain, offset, data, written, View(), cur)
      requires good ==> Place(cur, j, ClusterSize(), pos, offset + written, cluster)
      requires pos + n <= ClusterSize() && written + n <= |data|
      modifies disk
      ensures Valid() && Strayed(v0, from, View(), now)
      ensures good ==> Stored(v0, ClusterSize(), chain, offset, data, written + n, View(), cur)
    {
      hide Valid, View, Stored, Shape, Strayed;
      ViewShape();
      StrayNext(v0, from, View(), now, cluster);
      ghost var v := View();
      if good {
        StoreStep(v0, ClusterSize(), chain, offset, data, written, v, cur, j, pos, n);
        StoreRange(v0, ClusterSize(), chain, offset, data, written, v, cur, j);
      }
      Modify(cluster, pos, data[written..written + n]);
      StrayWrite(v0, from, v, now, cluster, View().data[cluster]);
    }

    lemma ClusterBytes()
      requires Valid()
      ensures sectorsPerCluster * bytesPerSector == ClusterSize() && ClusterSize() > 0
    {
    }

    lemma ViewShape()
      requires Valid()
      ensures Shape(View(), ClusterSize()) && |View().data| == totalClusters && |View().fat| == fatSize * 128
      ensures totalClusters <= fatSize * 128
    {
      VolumeShape(Geo(), disk.sectors);
    }
  }

  /** A cluster of a file, and the cluster after. */
  lemma ChainStep(v: Volume, chain: seq<nat>, j: nat)
    requires IsChain(v, chain) && j < |chain|
    ensures 2 <= chain[j] < |v.data| <= |v.fat|
    ensures Next(v.fat[chain[j]]) == Ok(if j + 1 < |chain| then chain[j + 1] else 0)
    ensures j + 1 < |chain| ==> chain[j + 1] != 0
  {
  }

  /** Some bytes and then the rest, unless that is an error. */
  ghost function Followed(done: seq<byte>, rest: Result<seq<byte>, string>): Result<seq<byte>, string> {
    if rest.Err? then rest else Ok(done + rest.value)
  }

  lemma NoneYet(none: seq<byte>, rest: Result<seq<byte>, string>)
    requires none == []
    ensures Followed(none, rest) == rest
  {
    if rest.Ok? {
      assert none + rest.value == rest.value;
    }
  }

  lemma FollowedTwice(a: seq<byte>, b: seq<byte>, rest: Result<seq<byte>, string>)
    ensures Followed(a, Followed(b, rest)) == Followed(a + b, rest)
  {
    if rest.Ok? {
      assert a + (b + rest.value) == (a + b) + rest.value;
    }
  }

  lemma ReadStart(v: Volume, chain: seq<nat>)
    requires IsChain(v, chain)
    ensures chain != [] && InRange(v, chain)
  {
  }

  /** data cut or filled with zeros to n bytes. */
  function Padded(data: seq<byte>, n: nat): (r: seq<byte>)
    ensures |r| == n
    ensures forall k :: 0 <= k < n ==> r[k] == if k < |data| then data[k] else 0
  {
    if |data| >= n then data[..n] else data + Zeros(n - |data|)
  }

  lemma JoinStep(sectors: Sectors, first: nat, s: nat, sector: seq<byte>, padded: seq<byte>)
    requires first + s < |sectors| && s * 512 + 512 <= |padded|
    requires Join(sectors, first, s) == padded[..s * 512] && sector == padded[s * 512..s * 512 + 512]
    ensures Join(sectors[first + s := sector], first, s + 1) == padded[..(s + 1) * 512]
  {
    JoinKept(sectors, sectors[first + s := sector], first, s);
    assert padded[..(s + 1) * 512] == padded[..s * 512] + padded[s * 512..s * 512 + 512];
  }

  /** The i-th entry of the sec-th sector of the table is that of cluster sec * 128 + i. */
  lemma EntryAt(g: Geometry, sectors: Sectors, sec: nat, i: nat)
    requires Fits(g, |sectors|) && Sized(sectors) && sec < g.fatSize && i < 128
    ensures g.reserved + sec < |sectors| && sec * 128 + i < |FatOf(g, sectors)|
    ensures FatOf(g, sectors)[sec * 128 + i] == EntryOf(sectors[g.reserved + sec], i)
  {
    hide EntryOf;
    TableOnDisk(g, |sectors|);
    assert (sec * 128 + i) / 128 == sec && (sec * 128 + i) % 128 == i;
  }

  lemma FirstIs(g: Geometry, c: nat)
    requires c >= 2
    ensures First(g, c) == DataStart(g) + (c - 2) * g.spc
  {
  }

  lemma CopyNone(g: Geometry, sectors: Sectors, k: nat, buf: seq<byte>)
    ensures FatLayout.Copied(g, sectors, sectors, k, 0, buf)
  {
  }

  lemma CopyIs(g: Geometry, f: nat, k: nat)
    ensures Copy(g, f, k) == g.reserved + k + f * g.fatSize
  {
  }
}
