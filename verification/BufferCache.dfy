// The sector cache: src/fs/bcache.rs.

module BufferCache {
  import opened Wrappers
  import opened Bytes
  import opened Disks

  const CACHE_SIZE := 64

  datatype Slot = Slot(sector: nat, valid: bool, dirty: bool)

  const EMPTY_SLOT := Slot(0xFFFF_FFFF, false, false)

  function SlotOf(sector: nat): nat { sector % CACHE_SIZE }

  lemma SlotsDiffer(a: nat, b: nat)
    requires a < b < a + CACHE_SIZE
    ensures SlotOf(a) != SlotOf(b)
  {
  }

  /** The disk as it is seen through these slots. */
  ghost function Through(sectors: Sectors, data: seq<seq<byte>>, entries: seq<Slot>): (r: Sectors)
    requires |data| == |entries| == CACHE_SIZE
    ensures |r| == |sectors|
    ensures forall s :: 0 <= s < |sectors| ==>
      r[s] == if entries[SlotOf(s)].valid && entries[SlotOf(s)].sector == s then data[SlotOf(s)] else sectors[s]
  {
    seq(|sectors|, s requires 0 <= s < |sectors| =>
      if entries[SlotOf(s)].valid && entries[SlotOf(s)].sector == s then data[SlotOf(s)] else sectors[s])
  }

  /** The sectors from `start` on are `count` chunks of buf, and all others as before. */
  ghost predicate Replaced(v0: Sectors, v: Sectors, start: nat, count: nat, buf: seq<byte>) {
    && |v| == |v0| && count * SECTOR_SIZE <= |buf|
    && forall s :: 0 <= s < |v| ==> v[s] == if start <= s < start + count then Chunk(buf, s - start) else v0[s]
  }

  lemma ReplacedNone(v: Sectors, start: nat, buf: seq<byte>)
    ensures Replaced(v, v, start, 0, buf)
  {
  }

  lemma ReplacedNext(v0: Sectors, v: Sectors, start: nat, i: nat, buf: seq<byte>, v': Sectors)
    requires Replaced(v0, v, start, i, buf) && start + i < |v| && i * SECTOR_SIZE + SECTOR_SIZE <= |buf|
    requires v' == v[start + i := buf[i * SECTOR_SIZE..i * SECTOR_SIZE + SECTOR_SIZE]]
    ensures Replaced(v0, v', start, i + 1, buf)
  {
    assert Chunk(buf, i) == buf[i * SECTOR_SIZE..i * SECTOR_SIZE + SECTOR_SIZE];
    hide Chunk;
  }

  class Cache {
    const disk: Disk
    const data: array<seq<byte>>
    const entries: array<Slot>

    ghost predicate Holds(sector: nat)
      reads entries
    {
      entries.Length == CACHE_SIZE && entries[SlotOf(sector)].valid && entries[SlotOf(sector)].sector == sector
    }

    /** A valid slot is for a sector of its own, and equals it on the disk unless it is dirty. */
    ghost predicate Valid()
      reads disk, data, entries
    {
      && disk.Valid() && data.Length == CACHE_SIZE && entries.Length == CACHE_SIZE
      && forall i :: 0 <= i < CACHE_SIZE && entries[i].valid ==>
           && SlotOf(entries[i].sector) == i && entries[i].sector < |disk.sectors| && |data[i]| == SECTOR_SIZE
           && (!entries[i].dirty ==> data[i] == disk.sectors[entries[i].sector])
    }

    /** Nothing waits to be written back. */
    ghost predicate Clean()
      reads entries
    {
      forall i :: 0 <= i < entries.Length ==> !(entries[i].valid && entries[i].dirty)
    }

    /** The disk as it is seen through the cache. */
    ghost function View(): Sectors
      reads disk, data, entries
      requires Valid()
    {
      Through(disk.sectors, data[..], entries[..])
    }

    constructor (disk: Disk)
      requires disk.Valid()
      ensures Valid() && Clean() && this.disk == disk && View() == disk.sectors && fresh(data) && fresh(entries)
    {
      this.disk := disk;
      data := new seq<byte>[CACHE_SIZE](_ => Zeros(SECTOR_SIZE));
      entries := new Slot[CACHE_SIZE](_ => EMPTY_SLOT);
    }

    /** Transparency: with nothing dirty, what is seen through the cache is the disk. */
    lemma CleanView()
      requires Valid() && Clean()
      ensures View() == disk.sectors
    {
    }

    /** The sector as seen; reading changes nothing that can be seen, and a dirty sector that has
        to make room is written back. */
    method CachedRead(sector: nat) returns (r: Result<seq<byte>, string>)
      requires Valid()
      modifies disk, data, entries
      ensures Valid() && View() == old(View())
      ensures r == if sector < |View()| then Ok(View()[sector]) else Err("LBA out of range")
      ensures old(Clean()) ==> Clean() && disk.sectors == old(disk.sectors)
      ensures r.Ok? ==> Holds(sector)
      ensures forall s: nat :: old(Holds(s)) && (SlotOf(s) != SlotOf(sector) || r.Err?) ==> Holds(s)
    {
      var slot := SlotOf(sector);
      if entries[slot].valid && entries[slot].sector == sector {
        return Ok(data[slot]);
      }
      r := disk.ReadSector(sector);
      if r.Err? { return; }
      if entries[slot].dirty && entries[slot].valid {
        var ok := disk.WriteSector(entries[slot].sector, data[slot]);
        if !ok { return; }
      }
      data[slot] := r.value;
      entries[slot] := Slot(sector, true, false);
    }

    /** The sector is replaced, on the disk at once. Another sector keeps its contents, unless it
        was dirty and had the same slot. */
    method CachedWrite(sector: nat, buf: seq<byte>) returns (ok: bool)
      requires Valid() && |buf| == SECTOR_SIZE
      modifies disk, data, entries
      ensures Valid() && ok == (sector < |old(View())|)
      ensures !ok ==> View() == old(View()) && disk.sectors == old(disk.sectors)
      ensures ok ==> |View()| == |old(View())| && disk.sectors == old(disk.sectors)[sector := buf] && Holds(sector)
      ensures ok ==> forall s :: 0 <= s < |View()| ==>
        View()[s] == if s == sector then buf
                     else if old(Holds(s)) && SlotOf(s) == SlotOf(sector) then old(disk.sectors[s])
                     else old(View())[s]
      ensures old(Clean()) ==> Clean()
      ensures forall s: nat :: old(Holds(s)) && SlotOf(s) != SlotOf(sector) ==> Holds(s)
    {
      ok := disk.WriteSector(sector, buf);
      if !ok { return; }
      var slot := SlotOf(sector);
      data[slot] := buf;
      entries[slot] := Slot(sector, true, false);
    }

    /** Afterwards nothing is dirty, and the disk is what was seen. */
    method Flush() returns (ok: bool)
      requires Valid()
      modifies disk, entries
      ensures ok && Valid() && Clean() && View() == old(View()) && disk.sectors == View()
      ensures forall s: nat :: Holds(s) <==> old(Holds(s))
    {
      var i := 0;
      while i < CACHE_SIZE
        invariant 0 <= i <= CACHE_SIZE && Valid() && View() == old(View())
        invariant forall j :: 0 <= j < CACHE_SIZE ==>
          entries[j].valid == old(entries[j].valid) && entries[j].sector == old(entries[j].sector)
        invariant forall j :: 0 <= j < i ==> entries[j].valid ==> !entries[j].dirty
      {
        if entries[i].dirty && entries[i].valid {
          ok := disk.WriteSector(entries[i].sector, data[i]);
          if !ok { return; }
          entries[i] := entries[i].(dirty := false);
        }
        i := i + 1;
      }
      return true;
    }

    /** All slots are empty; what was dirty is lost. */
    method Invalidate()
      requires Valid()
      modifies entries
      ensures Valid() && Clean() && View() == disk.sectors
      ensures old(Clean()) ==> View() == old(View())
      ensures forall s: nat :: !Holds(s)
    {
      var i := 0;
      while i < CACHE_SIZE
        invariant 0 <= i <= CACHE_SIZE && forall j :: 0 <= j < i ==> entries[j] == EMPTY_SLOT
        invariant forall j :: i <= j < CACHE_SIZE ==> entries[j] == old(entries[j])
      {
        entries[i] := EMPTY_SLOT;
        i := i + 1;
      }
    }

    /** The bytes of `count` sectors in a row, as seen, if they exist and fit the buffer. */
    method CachedReadSectors(start: nat, count: nat, buf: array<byte>) returns (ok: bool)
      requires Valid()
      modifies disk, data, entries, buf
      ensures Valid() && View() == old(View()) && (old(Clean()) ==> Clean() && disk.sectors == old(disk.sectors))
      ensures ok <==> count == 0 || (start + count <= |View()| && count * SECTOR_SIZE <= buf.Length)
      ensures ok && count > 0 ==> buf[..count * SECTOR_SIZE] == Join(View(), start, count)
    {
      hide Valid, View, Clean;
      var i := 0;
      while i < count
        invariant 0 <= i <= count && Valid() && View() == old(View())
        invariant old(Clean()) ==> Clean() && disk.sectors == old(disk.sectors)
        invariant i > 0 ==>
          && start + i <= |View()| && i * SECTOR_SIZE <= buf.Length
          && buf[..i * SECTOR_SIZE] == Join(View(), start, i)
      {
        var offset := i * SECTOR_SIZE;
        if offset + SECTOR_SIZE > buf.Length { return false; }
        var sector := CachedRead(start + i);
        if sector.Err? { return false; }
        SeenSized();
        CopyIn(buf, offset, sector.value);
        i := i + 1;
      }
      return true;
    }

    lemma SeenSized()
      requires Valid()
      ensures Sized(View())
    {
    }

    /** `count` sectors in a row are replaced, and the last 64 of them occupy the cache. */
    method CachedWriteSectors(start: nat, count: nat, buf: seq<byte>) returns (ok: bool)
      requires Valid() && Clean()
      modifies disk, data, entries
      ensures Valid() && Clean() && |View()| == |old(View())|
      ensures ok <==> count == 0 || (start + count <= |old(View())| && count * SECTOR_SIZE <= |buf|)
      ensures ok ==> Replaced(old(View()), View(), start, count, buf)
      ensures ok ==> forall s: nat :: start <= s < start + count <= s + CACHE_SIZE ==> Holds(s)
    {
      hide Valid, View, SlotOf, Holds, Clean, Replaced;
      var i := 0;
      ReplacedNone(View(), start, buf);
      while i < count
        invariant 0 <= i <= count && Valid() && Clean() && |View()| == |old(View())|
        invariant i > 0 ==> start + i <= |View()| && i * SECTOR_SIZE <= |buf|
        invariant Replaced(old(View()), View(), start, i, buf)
        invariant forall s: nat :: start <= s < start + i <= s + CACHE_SIZE ==> Holds(s)
      {
        if i * SECTOR_SIZE + SECTOR_SIZE > |buf| { return false; }
        CleanView();
        ghost var before := View();
        forall s: nat | start <= s < start + i && start + i + 1 <= s + CACHE_SIZE
          ensures Holds(s) && SlotOf(s) != SlotOf(start + i)
        {
          SlotsDiffer(s, start + i);
        }
        ok := CachedWrite(start + i, buf[i * SECTOR_SIZE..i * SECTOR_SIZE + SECTOR_SIZE]);
        if !ok { return; }
        CleanView();
        ReplacedNext(old(View()), before, start, i, buf, View());
        i := i + 1;
      }
      return true;
    }

    /** The superblock, the bitmap and the inode table, in the order in which mkfs writes them. */
    method WriteMetadata(superblock: seq<byte>, bitmap: seq<byte>, inodes: seq<byte>) returns (ok: bool)
      requires Valid() && Clean() && |superblock| == SECTOR_SIZE && |bitmap| == 7 * SECTOR_SIZE
      requires |inodes| == 64 * SECTOR_SIZE
      modifies disk, data, entries
      ensures Valid() && Clean() && |View()| == |old(View())| && (ok <==> |View()| >= 72)
      ensures ok ==> forall s :: 0 <= s < |View()| ==>
        View()[s] == if s == 0 then superblock else if s < 8 then Chunk(bitmap, s - 1)
                     else if s < 72 then Chunk(inodes, s - 8) else old(View())[s]
      ensures ok ==> forall s: nat :: 8 <= s < 72 ==> Holds(s)
    {
      hide View, Valid, Chunk;
      CleanView();
      ok := CachedWrite(0, superblock);
      if !ok { return; }
      CleanView();
      ok := CachedWriteSectors(1, 7, bitmap);
      if !ok { return; }
      ok := CachedWriteSectors(8, 64, inodes);
    }

    /** The writes of mkfs. The root block's sector 72 is written past the cache, which stays right
        because the 64 sectors written before it have displaced whatever the cache held of it. */
    method Format(superblock: seq<byte>, bitmap: seq<byte>, inodes: seq<byte>) returns (ok: bool)
      requires Valid() && Clean() && |superblock| == SECTOR_SIZE && |bitmap| == 7 * SECTOR_SIZE
      requires |inodes| == 64 * SECTOR_SIZE
      modifies disk, data, entries
      ensures Valid() && Clean() && |View()| == |old(View())| && (ok <==> |View()| >= 73)
      ensures ok ==> forall s :: 0 <= s < |View()| ==>
        View()[s] == if s == 0 then superblock else if s < 8 then Chunk(bitmap, s - 1)
                     else if s < 72 then Chunk(inodes, s - 8) else if s == 72 then Zeros(SECTOR_SIZE)
                       else old(View())[s]
    {
      hide View, Chunk;
      ok := WriteMetadata(superblock, bitmap, inodes);
      if !ok { return; }
      CleanView();
      Displaced();
      ok := disk.WriteSector(72, Zeros(SECTOR_SIZE));
      CleanView();
    }

    /** When sectors 8 to 71 occupy the cache, it holds no other. */
    lemma Displaced()
      requires Valid() && forall s: nat :: 8 <= s < 72 ==> Holds(s)
      ensures forall i :: 0 <= i < CACHE_SIZE ==> 8 <= entries[i].sector < 72
    {
      forall i | 0 <= i < CACHE_SIZE ensures 8 <= entries[i].sector < 72 {
        assert Holds(if i >= 8 then i else i + 64);
      }
    }
  }

  /** The k-th 512 bytes of a buffer. */
  function Chunk(buf: seq<byte>, k: nat): seq<byte>
    requires (k + 1) * SECTOR_SIZE <= |buf|
  {
    buf[k * SECTOR_SIZE..k * SECTOR_SIZE + SECTOR_SIZE]
  }
}
