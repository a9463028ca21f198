// Checked copies from a task's address space into the kernel: src/usercopy.rs.

module UserCopy {
  import opened Wrappers
  import opened Bytes
  import opened PageTables
  import opened KernelTables
  import opened UserTables
  import opened Scheduler
  import opened Ownership
  import opened Programs
  import opened KernelLaws

  const EFAULT := -14
  const MAX_USER_COPY := 512

  /** A task's tables, and the data frames behind its user pages. */
  ghost predicate TaskMemory(mem: Memory, root: nat, labels: Labels, kroot: nat, kernel: Labels, used: set<nat>,
                             data: set<nat>) {
    && UserSpace(mem, root, labels, kernel, used) && NoGiants(mem, labels) && KernelOk(mem, kroot, kernel, used)
    && labels.Keys * kernel.Keys == SharedTables(kernel).Keys && Closed(mem, kernel) && UserReach(mem, root, data)
    && forall f :: f in data ==> f in mem && mem[f].Data? && |mem[f].bytes| == 4096
  }

  /** Every live task has such a memory, as long as no page of the kernel has been opened to users. */
  lemma LiveTaskMemory(mem: Memory, kroot: nat, kernel: Labels, used: set<nat>, s: Sched, owner: map<nat, Owner>,
                       spaces: map<nat, Labels>, i: nat)
    requires Conserved(mem, kernel, used, s, owner, spaces) && KernelOk(mem, kroot, kernel, used) && Live(s, i)
    requires Closed(mem, kernel)
    ensures i in spaces && TaskMemory(mem, s.tasks[i].root, spaces[i], kroot, kernel, used, DataOf(owner, i))
  {
    hide UserSpace, KernelOk, UserReach, NoGiants, Closed, SharedTables;
    assert TaskOk(mem, kernel, used, s.tasks[i], owner, spaces[i], i);
  }

  /** Within a page is_user_mapped gives one answer, the hardware's, and a user page can be read. */
  lemma PageMapped(mem: Memory, root: nat, labels: Labels, kroot: nat, kernel: Labels, used: set<nat>,
                   data: set<nat>, a: nat, va: nat)
    requires TaskMemory(mem, root, labels, kroot, kernel, used, data) && a / 4096 == va / 4096
    ensures IsUserMapped(mem, root, a) <==> UserPageAt(mem, root, va)
    ensures UserPageAt(mem, root, va) ==> ByteAt(mem, root, va).Some?
  {
    hide Walk, IsUserMapped, UserSpace, KernelSpace, Indices, Closed, SharedTables;
    IsUserMappedCorrect(mem, root, labels, kernel, used, a);
    SamePage(a, va);
  }

  const TOP := 0x1_0000_0000_0000_0000

  /** An address that the processor accepts; the others lie in the gap between the two halves. */
  predicate CanonicalAddress(va: nat) { va < 0x8000_0000_0000 || 0xFFFF_8000_0000_0000 <= va < TOP }

  /** What the call comes to: it returns, or a load traps. */
  datatype Outcome = Returns(result: Result<nat, int>) | Traps

  /** A page that is open to users lies below 512 GiB by its 48 low bits, so it is not the last one. */
  lemma UserPageLow(mem: Memory, root: nat, data: set<nat>, va: nat)
    requires UserReach(mem, root, data) && UserPageAt(mem, root, va)
    ensures va / 0x80_0000_0000 % 512 == 0
  {
    hide Walk;
    assert Canonical(Indices(va));
  }

  /** Both ends of the gap are page boundaries. */
  lemma PageInGap(a: nat, va: nat)
    requires a / 4096 == va / 4096
    ensures CanonicalAddress(a) <==> CanonicalAddress(va)
  {
  }

  /** The whole range is canonical and open to users. */
  ghost predicate Readable(mem: Memory, root: nat, ptr: nat, end: nat) {
    forall va: nat :: ptr <= va < end ==> CanonicalAddress(va) && UserPageAt(mem, root, va)
  }

  /** Some address of the range lies in the gap, and the check passes up to there, because
      is_user_mapped looks at the 48 low bits only. */
  ghost predicate Misread(mem: Memory, root: nat, ptr: nat, end: nat) {
    exists a: nat :: ptr <= a < end && !CanonicalAddress(a)
                     && forall va: nat :: ptr <= va <= a ==> UserPageAt(mem, root, va)
  }

  /** copy_from_user, for every pointer and length: Ok exactly when the whole range is canonical and
      open to users, and then the buffer holds the bytes that the task sees there. A trap is
      possible only in the gap; in every other case EFAULT is returned. */
  method CopyFromUser(mem: Memory, root: nat, ptr: nat, len: nat, buf: array<byte>, ghost labels: Labels,
                      ghost kroot: nat, ghost kernel: Labels, ghost used: set<nat>, ghost data: set<nat>)
    returns (r: Outcome)
    requires TaskMemory(mem, root, labels, kroot, kernel, used, data) && buf.Length == MAX_USER_COPY
    requires ptr < TOP && len < TOP
    modifies buf
    ensures var sound := len <= MAX_USER_COPY && ptr + len < TOP;
            && (r == Returns(Ok(len)) <==> len == 0 || (sound && Readable(mem, root, ptr, ptr + len)))
            && (r == Traps <==> sound && Misread(mem, root, ptr, ptr + len))
            && (r == Returns(Ok(len)) || r == Traps || r == Returns(Err(EFAULT)))
    ensures r == Returns(Ok(len)) ==>
      forall va: nat :: ptr <= va < ptr + len ==> ByteAt(mem, root, va) == Some(buf[va - ptr])
    ensures forall k :: len <= k < MAX_USER_COPY ==> buf[k] == old(buf[k])
  {
    hide ByteAt, UserPageAt, IsUserMapped, TaskMemory, CanonicalAddress, Readable, Misread;
    if len > MAX_USER_COPY {
      return Returns(Err(EFAULT));
    }
    NothingRead(mem, root, ptr);
    if len == 0 {
      return Returns(Ok(0));
    }
    var end := ptr + len;
    if end >= TOP {
      return Returns(Err(EFAULT));
    }
    var addr := ptr;
    while addr < end
      invariant ptr <= addr && (addr == ptr || addr % 4096 == 0)
      invariant Readable(mem, root, ptr, Min(addr, end))
      invariant forall va: nat :: ptr <= va < addr && va < end ==> ByteAt(mem, root, va) == Some(buf[va - ptr])
      invariant forall k :: len <= k < MAX_USER_COPY ==> buf[k] == old(buf[k])
    {
      var pageEnd := (addr - addr % 4096 + 4096) % TOP;
      var chunkEnd := Min(end, pageEnd);
      PageFacts(mem, root, labels, kroot, kernel, used, data, addr);
      if !IsUserMapped(mem, root, addr) {
        ReadStops(mem, root, ptr, addr, end);
        return Returns(Err(EFAULT));
      }
      if !CanonicalAddress(addr) {
        ReadStops(mem, root, ptr, addr, end);
        return Traps;
      }
      ReadMore(mem, root, ptr, addr, pageEnd, end);
      forall k | addr - ptr <= k < chunkEnd - ptr {
        buf[k] := ByteAt(mem, root, ptr + k).value;
      }
      addr := pageEnd;
    }
    return Returns(Ok(len));
  }

  /** The check of one address tells for its whole page, whose end does not wrap when it passes. */
  lemma PageFacts(mem: Memory, root: nat, labels: Labels, kroot: nat, kernel: Labels, used: set<nat>, data: set<nat>,
                  addr: nat)
    requires TaskMemory(mem, root, labels, kroot, kernel, used, data) && addr < TOP
    ensures IsUserMapped(mem, root, addr) <==> UserPageAt(mem, root, addr)
    ensures var next := addr - addr % 4096 + 4096;
            IsUserMapped(mem, root, addr) ==>
              next < TOP && PageOpen(mem, root, addr, next)
              && forall va: nat :: addr <= va < next ==> ByteAt(mem, root, va).Some?
  {
    hide UserPageAt, IsUserMapped, TaskMemory, CanonicalAddress, ByteAt;
    PageMapped(mem, root, labels, kroot, kernel, used, data, addr, addr);
    var next := addr - addr % 4096 + 4096;
    forall va: nat | addr <= va < next
      ensures IsUserMapped(mem, root, addr) <==> UserPageAt(mem, root, va)
      ensures UserPageAt(mem, root, va) ==> ByteAt(mem, root, va).Some?
      ensures CanonicalAddress(va) <==> CanonicalAddress(addr)
    {
      SamePlace(addr, va);
      PageMapped(mem, root, labels, kroot, kernel, used, data, addr, va);
      PageInGap(addr, va);
    }
    if IsUserMapped(mem, root, addr) {
      NoWrap(mem, root, labels, kroot, kernel, used, data, addr);
    }
  }

  lemma SamePlace(addr: nat, va: nat)
    requires addr <= va < addr - addr % 4096 + 4096
    ensures addr / 4096 == va / 4096
  {
  }

  /** From addr to next everything is open to users, and canonical if addr is. */
  ghost predicate PageOpen(mem: Memory, root: nat, addr: nat, next: nat) {
    forall va: nat :: addr <= va < next ==>
      UserPageAt(mem, root, va) && (CanonicalAddress(va) <==> CanonicalAddress(addr))
  }

  lemma NothingRead(mem: Memory, root: nat, ptr: nat)
    ensures Readable(mem, root, ptr, ptr) && !Misread(mem, root, ptr, ptr)
    ensures forall end: nat :: Readable(mem, root, ptr, end) ==> !Misread(mem, root, ptr, end)
  {
    hide UserPageAt, CanonicalAddress;
  }

  lemma ReadMore(mem: Memory, root: nat, ptr: nat, addr: nat, next: nat, end: nat)
    requires ptr <= addr < end && addr < next && Readable(mem, root, ptr, addr)
    requires PageOpen(mem, root, addr, next) && CanonicalAddress(addr)
    ensures Readable(mem, root, ptr, Min(next, end))
  {
    hide UserPageAt, CanonicalAddress;
  }

  /** Where a range stops being readable it faults if the check fails, and traps if it passes. */
  lemma ReadStops(mem: Memory, root: nat, ptr: nat, addr: nat, end: nat)
    requires ptr <= addr < end && Readable(mem, root, ptr, addr)
    requires !UserPageAt(mem, root, addr) || !CanonicalAddress(addr)
    ensures !Readable(mem, root, ptr, end)
    ensures Misread(mem, root, ptr, end) <==> UserPageAt(mem, root, addr)
  {
    hide UserPageAt, CanonicalAddress;
    if UserPageAt(mem, root, addr) {
      assert forall va: nat :: ptr <= va <= addr ==> UserPageAt(mem, root, va);
    }
  }

  /** The end of a page that is open to users does not wrap. */
  lemma NoWrap(mem: Memory, root: nat, labels: Labels, kroot: nat, kernel: Labels, used: set<nat>, data: set<nat>,
               addr: nat)
    requires TaskMemory(mem, root, labels, kroot, kernel, used, data) && addr < TOP && UserPageAt(mem, root, addr)
    ensures addr - addr % 4096 + 4096 < TOP
  {
    hide UserPageAt, UserReach, UserSpace, KernelOk, Closed, SharedTables;
    UserPageLow(mem, root, data, addr);
  }
}
