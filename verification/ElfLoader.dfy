/**
 The kernel image loader (apps/elf.c): finding the program headers, laying out the PT_LOAD segments in
 one block of memory, and the entry address (System V gABI, chapter 5).
 */
module ElfLoader {
  import opened Word64
  import opened Pages
  import opened MemoryOps

  const PT_LOAD: nat := 1
  const PN_XNUM: nat := 0xFFFF
  const SIZEOF_PHDR: nat := 56
  const SIZEOF_SHDR: nat := 64
  const KERNEL_MEM_ALIGN: u64 := 0x20_0000

  datatype Status = Success | InvalidParameter | OutOfResources

  datatype Phdr = Phdr(typ: nat, offset: u64, vaddr: u64, paddr: u64, filesz: u64, memsz: u64) {
    predicate Load() {
      typ == PT_LOAD
    }

    /** No address or file position of the segment wraps around. */
    predicate NoWrap() {
      paddr + memsz < TWO64 && offset + filesz < TWO64
    }

    /** The file part of the segment covers physical address `p`. */
    predicate Covers(p: nat) {
      Load() && paddr <= p < paddr + filesz
    }
  }

  // ----- the segments as a whole

  function MinPaddr(phs: seq<Phdr>): u64 {
    if phs == [] then UINT64_MAX
    else
      var rest, ph := MinPaddr(phs[..|phs| - 1]), phs[|phs| - 1];
      if ph.Load() && ph.paddr < rest then ph.paddr else rest
  }

  function MinVaddr(phs: seq<Phdr>): u64 {
    if phs == [] then UINT64_MAX
    else
      var rest, ph := MinVaddr(phs[..|phs| - 1]), phs[|phs| - 1];
      if ph.Load() && ph.vaddr < rest then ph.vaddr else rest
  }

  function MaxPaddr(phs: seq<Phdr>): u64 {
    if phs == [] then 0
    else
      var rest, ph := MaxPaddr(phs[..|phs| - 1]), phs[|phs| - 1];
      if ph.Load() && Wrap(ph.paddr + ph.memsz) > rest then Wrap(ph.paddr + ph.memsz) else rest
  }

  /** What the block holds for physical address `p`: the payload byte of the last segment that covers it. */
  function ImageByte(phs: seq<Phdr>, mem: u64 -> byte, payload: u64, p: nat): byte {
    if phs == [] then 0
    else if phs[|phs| - 1].Covers(p) then PayloadByte(phs[|phs| - 1], mem, payload, p)
    else ImageByte(phs[..|phs| - 1], mem, payload, p)
  }

  /** The byte of the file at `payload` that the segment puts at physical address `p`. */
  function PayloadByte(ph: Phdr, mem: u64 -> byte, payload: u64, p: nat): byte {
    mem(Wrap(payload + ph.offset + (p - ph.paddr)))
  }

  /** The file part of no PT_LOAD segment but those up to `j` covers physical address `p`. */
  predicate NoneAbove(phs: seq<Phdr>, p: nat, j: int) {
    forall i | j < i < |phs| && 0 <= i ::
      phs[i].typ != 1 || p < phs[i].paddr || phs[i].paddr + phs[i].filesz <= p
  }

  /** `ImageByte` looks at the last PT_LOAD segment whose file part covers `p`, and is 0 without one. */
  lemma {:induction false} ImageByteIs(phs: seq<Phdr>, mem: u64 -> byte, payload: u64, p: nat, j: int)
    requires -1 <= j < |phs| && NoneAbove(phs, p, j)
    requires j >= 0 ==> phs[j].typ == 1 && phs[j].paddr <= p < phs[j].paddr + phs[j].filesz
    ensures j < 0 ==> ImageByte(phs, mem, payload, p) == 0
    ensures j >= 0 ==>
      ImageByte(phs, mem, payload, p) == mem((payload + phs[j].offset + (p - phs[j].paddr)) % 0x1_0000_0000_0000_0000)
  {
    if j < |phs| - 1 {
      assert !phs[|phs| - 1].Covers(p);
      ImageByteIs(phs[..|phs| - 1], mem, payload, p, j);
    }
  }

  predicate LowestPaddr(phs: seq<Phdr>, i: nat, p: u64) {
    && i < |phs| && phs[i].typ == 1 && phs[i].paddr == p
    && forall k | 0 <= k < |phs| && phs[k].typ == 1 :: p <= phs[k].paddr
  }

  predicate LowestVaddr(phs: seq<Phdr>, i: nat, v: u64) {
    && i < |phs| && phs[i].typ == 1 && phs[i].vaddr == v
    && forall k | 0 <= k < |phs| && phs[k].typ == 1 :: v <= phs[k].vaddr
  }

  predicate HighestEnd(phs: seq<Phdr>, i: nat, end: u64) {
    && i < |phs| && phs[i].typ == 1 && phs[i].paddr + phs[i].memsz == end
    && forall k | 0 <= k < |phs| && phs[k].typ == 1 :: phs[k].paddr + phs[k].memsz <= end
  }

  lemma LastExtremes(phs: seq<Phdr>)
    requires phs != []
    ensures var front, ph := phs[..|phs| - 1], phs[|phs| - 1];
      && (!ph.Load() ==>
        MinPaddr(phs) == MinPaddr(front) && MinVaddr(phs) == MinVaddr(front) && MaxPaddr(phs) == MaxPaddr(front))
      && (ph.Load() ==>
        && MinPaddr(phs) == (if ph.paddr < MinPaddr(front) then ph.paddr else MinPaddr(front))
        && MinVaddr(phs) == (if ph.vaddr < MinVaddr(front) then ph.vaddr else MinVaddr(front))
        && (ph.paddr + ph.memsz < TWO64 ==>
          MaxPaddr(phs) == if ph.paddr + ph.memsz > MaxPaddr(front) then ph.paddr + ph.memsz else MaxPaddr(front)))
  {
  }

  /** The three extremes are attained by PT_LOAD segments and bound all of them. */
  lemma {:induction false} Extremes(phs: seq<Phdr>, l: nat) returns (i: nat, j: nat, k: nat)
    requires l < |phs| && phs[l].typ == 1
    requires forall ph | ph in phs && ph.typ == 1 :: ph.paddr + ph.memsz < 0x1_0000_0000_0000_0000
    ensures LowestPaddr(phs, i, MinPaddr(phs)) && LowestVaddr(phs, j, MinVaddr(phs))
    ensures HighestEnd(phs, k, MaxPaddr(phs))
  {
    hide MinPaddr, MinVaddr, MaxPaddr;
    var front, ph := phs[..|phs| - 1], phs[|phs| - 1];
    assert ph in phs && forall q | q in front :: q in phs;
    LastExtremes(phs);
    if m: nat :| m < |front| && front[m].typ == 1 {
      i, j, k := Extremes(front, m);
      if ph.typ == 1 {
        i := if ph.paddr < MinPaddr(front) then |front| else i;
        j := if ph.vaddr < MinVaddr(front) then |front| else j;
        k := if ph.paddr + ph.memsz > MaxPaddr(front) then |front| else k;
      }
    } else {
      assert l == |front|;
      NoSegments(front);
      i, j, k := l, l, l;
    }
  }

  lemma {:induction false} SegmentsWithin(phs: seq<Phdr>, i: nat)
    requires i < |phs| && phs[i].Load() && phs[i].paddr + phs[i].memsz < TWO64
    ensures MinPaddr(phs) <= phs[i].paddr && phs[i].paddr + phs[i].memsz <= MaxPaddr(phs)
    ensures MinVaddr(phs) <= phs[i].vaddr
  {
    if i < |phs| - 1 {
      SegmentsWithin(phs[..|phs| - 1], i);
    }
  }

  lemma {:induction false} NoSegments(phs: seq<Phdr>)
    requires forall k | 0 <= k < |phs| :: !phs[k].Load()
    ensures MinPaddr(phs) == UINT64_MAX && MinVaddr(phs) == UINT64_MAX && MaxPaddr(phs) == 0
  {
    if phs != [] {
      assert !phs[|phs| - 1].Load();
      assert forall k | 0 <= k < |phs| - 1 :: phs[..|phs| - 1][k] == phs[k];
      NoSegments(phs[..|phs| - 1]);
    }
  }

  // ----- loading

  /** The block of `size` bytes at `addr`, kept out of the free pages `before`. */
  predicate Allocated(m: Machine, before: set<nat>, addr: u64, size: u64)
    reads m`free
  {
    && addr % 0x1000 == 0 && addr + size <= TWO64
    && PagesFor(size) * 0x1000 == size
    && Kept(m.pages, before, m.free, addr, PagesFor(size))
  }

  /** The last request since there were `n` was refused. */
  ghost predicate JustRefused(m: Machine, n: nat)
    reads m`requests
  {
    |m.requests| > n && !m.requests[|m.requests| - 1].granted
  }

  /** The scan of efi_allocate_kernel_memory. (Its test `p_align & !EFI_PAGE_SIZE` is an and with 0.) */
  method ScanSegments(phs: seq<Phdr>) returns (minPaddr: u64, maxPaddr: u64, minVaddr: u64)
    ensures minPaddr == MinPaddr(phs) && maxPaddr == MaxPaddr(phs) && minVaddr == MinVaddr(phs)
  {
    minPaddr, minVaddr, maxPaddr := UINT64_MAX, UINT64_MAX, 0;
    for i := 0 to |phs|
      invariant minPaddr == MinPaddr(phs[..i]) && minVaddr == MinVaddr(phs[..i]) && maxPaddr == MaxPaddr(phs[..i])
    {
      assert phs[..i + 1][..i] == phs[..i];
      if phs[i].Load() {
        minPaddr := if minPaddr < phs[i].paddr then minPaddr else phs[i].paddr;
        minVaddr := if minVaddr < phs[i].vaddr then minVaddr else phs[i].vaddr;
        var end := Wrap(phs[i].paddr + phs[i].memsz);
        maxPaddr := if maxPaddr > end then maxPaddr else end;
      }
    }
    assert phs[..|phs|] == phs;
  }

  lemma SectionIsPow2()
    ensures IsPow2(KERNEL_MEM_ALIGN) && Effective(KERNEL_MEM_ALIGN) == KERNEL_MEM_ALIGN
  {
    Pow2Product(0x10, 0x10);
    Pow2Product(0x100, 0x10);
    Pow2Product(0x20, 0x10);
    Pow2Product(0x200, 0x1000);
  }

  lemma Sectioned(x: u64)
    requires x == AlignDown(x, KERNEL_MEM_ALIGN)
    ensures x % 0x20_0000 == 0 && x % 0x1000 == 0 && x <= TWO64 - KERNEL_MEM_ALIGN
  {
    var q := x / 0x20_0000;
    assert x == q * 0x20_0000;
    RemainderUnique(x, 0x1000, 0x200 * q, 0);
  }

  lemma PagesOfWholePages(size: u64)
    requires size % 0x20_0000 == 0 && size <= TWO64 - KERNEL_MEM_ALIGN
    ensures PagesFor(size) * 0x1000 == size
  {
    hide RoundUp, Ceiling;
    GranuleDivides();
    RoundUpIsCeiling(size, EFI_ALLOC_ALIGN);
    WholePages(size);
    CeilingUnique(size, EFI_ALLOC_ALIGN, size);
  }

  lemma WholePages(size: u64)
    requires size % 0x20_0000 == 0
    ensures size % EFI_ALLOC_ALIGN == 0 && size / 0x1000 * 0x1000 == size
  {
    RemainderUnique(size, 0x1000, 0x200 * (size / 0x20_0000), 0);
  }

  lemma BlockSize(x: u64)
    ensures var size := AlignUp(x, KERNEL_MEM_ALIGN);
      && size % 0x20_0000 == 0 && PagesFor(size) * 0x1000 == size && size <= TWO64 - KERNEL_MEM_ALIGN
      && (x <= TWO64 - KERNEL_MEM_ALIGN ==> x <= size)
  {
    hide RoundUp, Ceiling, AlignUp, AlignDown, PagesFor;
    var size := AlignUp(x, KERNEL_MEM_ALIGN);
    AlignUpAligned(x, KERNEL_MEM_ALIGN);
    Sectioned(size);
    PagesOfWholePages(size);
    if x <= TWO64 - KERNEL_MEM_ALIGN {
      AlignUpIsCeiling(x, KERNEL_MEM_ALIGN);
    }
  }

  /** efi_allocate_kernel_memory: a zeroed block, section-aligned and wide enough for all segments. */
  method EfiAllocateKernelMemory(m: Machine, phs: seq<Phdr>)
    returns (status: Status, addr: u64, size: u64, minPaddr: u64, minVaddr: u64)
    requires m.free <= m.pages
    modifies m
    ensures status != Success ==> m.free == old(m.free)
    ensures minPaddr == MinPaddr(phs) && minVaddr == MinVaddr(phs)
    ensures status == InvalidParameter <==> minPaddr % 0x20_0000 != 0
    ensures status == OutOfResources ==> JustRefused(m, |old(m.requests)|)
    ensures status == Success ==>
      && size == AlignUp(Wrap(MaxPaddr(phs) - minPaddr), KERNEL_MEM_ALIGN)
      && addr % 0x20_0000 == 0 && Allocated(m, old(m.free), addr, size)
    ensures status == Success ==> Outside(old(m.mem), m.mem, addr, size) && Filled(m.mem, addr, 0, size)
  {
    hide IsPow2, AlignUp, AlignDown, PagesFor, Wrap, Kept, Outside, Filled, MinPaddr, MaxPaddr, MinVaddr;
    SectionIsPow2();
    addr, size := 0, 0;
    var maxPaddr;
    minPaddr, maxPaddr, minVaddr := ScanSegments(phs);
    if minPaddr % KERNEL_MEM_ALIGN != 0 {
      status := InvalidParameter;
      return;
    }
    BlockSize(Wrap(maxPaddr - minPaddr));
    size := AlignUp(Wrap(maxPaddr - minPaddr), KERNEL_MEM_ALIGN);
    var ok;
    ok, addr := EfiAllocatePagesAligned(m, size, UINT64_MAX, KERNEL_MEM_ALIGN);
    if !ok {
      status := OutOfResources;
      return;
    }
    Sectioned(addr);
    Memset(m, addr, 0, size);
    status := Success;
  }

  /** The payload lies in pages that are not free. */
  ghost predicate PayloadInUse(free: set<nat>, payload: u64, payloadSize: u64) {
    && payload + payloadSize <= TWO64
    && forall a: u64 | payload <= a < payload + payloadSize :: PageNumber(a) !in free
  }

  function PageNumber(a: u64): nat {
    a / 0x1000
  }

  /** The checks load_program makes on a segment. */
  predicate Loadable(ph: Phdr, payloadSize: u64) {
    Wrap(ph.offset + ph.filesz) <= payloadSize && ph.filesz <= ph.memsz
  }

  /** Neither the segments nor, once rounded up, the size of their block wraps around. */
  ghost predicate NothingWraps(phs: seq<Phdr>) {
    (forall ph | ph in phs && ph.Load() :: ph.NoWrap())
    && MaxPaddr(phs) <= MinPaddr(phs) + (TWO64 - KERNEL_MEM_ALIGN)
  }

  /** The rounded size can only wrap around for segments from address 0 on. */
  lemma BlockFits(phs: seq<Phdr>)
    requires MinPaddr(phs) % 0x20_0000 == 0 && MinPaddr(phs) > 0
    ensures NothingWraps(phs) <==> forall ph | ph in phs && ph.Load() :: ph.NoWrap()
  {
    hide MinPaddr, MaxPaddr;
    assert MinPaddr(phs) >= KERNEL_MEM_ALIGN;
  }

  /** The loaded image: each byte of the block is what the last covering segment says. */
  ghost predicate HoldsImage(after: u64 -> byte, phs: seq<Phdr>, before: u64 -> byte, payload: u64,
                             addr: u64, size: u64, minPaddr: u64) {
    forall a: u64 | addr <= a < addr + size :: after(a) == ImageByte(phs, before, payload, minPaddr + (a - addr))
  }

  predicate Apart(a: nat, m: nat, b: nat, n: nat) {
    m == 0 || n == 0 || a + m <= b || b + n <= a
  }

  lemma PayloadOutside(m: Machine, before: set<nat>, payload: u64, payloadSize: u64, addr: u64, size: u64)
    requires Allocated(m, before, addr, size) && PayloadInUse(before, payload, payloadSize)
    ensures payload + payloadSize <= TWO64 && Apart(payload, payloadSize, addr, size)
  {
    hide Run, PagesFor;
    RunMembers(addr / 0x1000, PagesFor(size));
    var a: u64 := if payload < addr then addr else payload;
    if !Apart(payload, payloadSize, addr, size) {
      assert PageNumber(a) in Run(addr / 0x1000, PagesFor(size));
    }
  }

  /** One segment more: copying it over the image of the others makes the image of all. */
  lemma OneSegment(before: u64 -> byte, mem: u64 -> byte, after: u64 -> byte, phs: seq<Phdr>, ph: Phdr,
                   payload: u64, payloadSize: u64, addr: u64, size: u64, minPaddr: u64)
    requires HoldsImage(mem, phs, before, payload, addr, size, minPaddr) && Outside(before, mem, addr, size)
    requires ph.Load() && ph.NoWrap() && Loadable(ph, payloadSize)
    requires payload + payloadSize <= TWO64 && addr + size <= TWO64
    requires minPaddr <= ph.paddr && ph.paddr + ph.memsz <= minPaddr + size
    requires Apart(payload, payloadSize, addr, size)
    requires var dst, src := addr + (ph.paddr - minPaddr), payload + ph.offset;
      ph.filesz > 0 ==> Outside(mem, after, dst, ph.filesz) && Copied(mem, after, dst, src, ph.filesz)
    requires ph.filesz == 0 ==> Outside(mem, after, 0, 0)
    ensures HoldsImage(after, phs + [ph], before, payload, addr, size, minPaddr)
    ensures Outside(before, after, addr, size)
  {
    hide ImageByte, Wrap;
    var dst, src := addr + (ph.paddr - minPaddr), payload + ph.offset;
    SourceInPayload(ph, payload, payloadSize);
    forall a: u64 | addr <= a < addr + size
      ensures after(a) == ImageByte(phs + [ph], before, payload, minPaddr + (a - addr))
    {
      var p := minPaddr + (a - addr);
      ImageNext(phs, ph, before, payload, p);
      if ph.Covers(p) {
        var s := a - dst + src;
        WrapSmall(s);
        assert !InBlock(s, addr, size);
        assert after(a) == mem(s) == before(s);
      } else {
        assert after(a) == mem(a);
      }
    }
  }

  lemma ImageNext(phs: seq<Phdr>, ph: Phdr, mem: u64 -> byte, payload: u64, p: nat)
    ensures ImageByte(phs + [ph], mem, payload, p)
         == if ph.Covers(p) then PayloadByte(ph, mem, payload, p) else ImageByte(phs, mem, payload, p)
  {
    assert (phs + [ph])[..|phs|] == phs;
  }

  /** Where the segments of an unwrapped program lie in the block. */
  lemma SegmentInBlock(phs: seq<Phdr>, i: nat, addr: u64, size: u64)
    requires NothingWraps(phs) && i < |phs| && phs[i].Load() && phs[i].filesz <= phs[i].memsz
    requires size == AlignUp(Wrap(MaxPaddr(phs) - MinPaddr(phs)), KERNEL_MEM_ALIGN) && addr + size <= TWO64
    ensures MinPaddr(phs) <= phs[i].paddr && phs[i].paddr + phs[i].memsz <= MinPaddr(phs) + size
    ensures phs[i].filesz > 0 ==>
      Wrap(addr + Wrap(phs[i].paddr - MinPaddr(phs))) == addr + (phs[i].paddr - MinPaddr(phs))
  {
    hide MaxPaddr, MinPaddr, MinVaddr, AlignUp, Wrap, PagesFor;
    assert phs[i] in phs;
    SegmentsWithin(phs, i);
    WrapSmall(MaxPaddr(phs) - MinPaddr(phs));
    BlockSize(MaxPaddr(phs) - MinPaddr(phs));
    WrapSmall(phs[i].paddr - MinPaddr(phs));
    if phs[i].filesz > 0 {
      WrapSmall(addr + (phs[i].paddr - MinPaddr(phs)));
    }
  }

  /** The copying loop of load_program. */
  method CopySegments(m: Machine, payload: u64, payloadSize: u64, phs: seq<Phdr>, addr: u64, size: u64, minPaddr: u64,
                      ghost before: u64 -> byte)
    returns (ok: bool)
    requires payload + payloadSize <= TWO64 && addr + size <= TWO64 && Apart(payload, payloadSize, addr, size)
    requires minPaddr == MinPaddr(phs) && size == AlignUp(Wrap(MaxPaddr(phs) - minPaddr), KERNEL_MEM_ALIGN)
    requires Outside(before, m.mem, addr, size) && Filled(m.mem, addr, 0, size)
    modifies m`mem
    ensures ok <==> forall ph | ph in phs && ph.Load() :: Loadable(ph, payloadSize)
    ensures ok && NothingWraps(phs) ==>
      Outside(before, m.mem, addr, size) && HoldsImage(m.mem, phs, before, payload, addr, size, minPaddr)
  {
    hide Wrap, MinPaddr, MaxPaddr, AlignUp, Outside, Filled, HoldsImage, ImageByte;
    EmptyImage(m.mem, before, payload, addr, size, minPaddr);
    ok := true;
    for i := 0 to |phs|
      invariant ok && forall j | 0 <= j < i && phs[j].Load() :: Loadable(phs[j], payloadSize)
      invariant NothingWraps(phs) ==>
        && Outside(before, m.mem, addr, size)
        && HoldsImage(m.mem, phs[..i], before, payload, addr, size, minPaddr)
    {
      var ph := phs[i];
      assert phs[..i + 1] == phs[..i] + [ph];
      ghost var mem := m.mem;
      if ph.Load() {
        if Wrap(ph.offset + ph.filesz) > payloadSize || ph.memsz < ph.filesz {
          return false;
        }
        Unchanged(m.mem);
        if ph.memsz != 0 {
          Memcpy(m, Wrap(addr + Wrap(ph.paddr - minPaddr)), Wrap(payload + ph.offset), ph.filesz);
          UnchangedByNothing(mem, m.mem, Wrap(addr + Wrap(ph.paddr - minPaddr)), ph.filesz);
        }
        if NothingWraps(phs) {
          SegmentInBlock(phs, i, addr, size);
          SourceInPayload(ph, payload, payloadSize);
          OneSegment(before, mem, m.mem, phs[..i], ph, payload, payloadSize, addr, size, minPaddr);
        }
      } else if NothingWraps(phs) {
        SkippedSegment(mem, before, phs[..i], ph, payload, addr, size, minPaddr);
      }
    }
    assert phs[..|phs|] == phs;
  }

  lemma Unchanged(mem: u64 -> byte)
    ensures Outside(mem, mem, 0, 0)
  {
  }

  lemma UnchangedByNothing(mem: u64 -> byte, after: u64 -> byte, dst: u64, n: u64)
    requires Outside(mem, after, dst, n)
    ensures n == 0 ==> Outside(mem, after, 0, 0)
  {
  }

  lemma EmptyImage(mem: u64 -> byte, before: u64 -> byte, payload: u64, addr: u64, size: u64, minPaddr: u64)
    requires Filled(mem, addr, 0, size)
    ensures HoldsImage(mem, [], before, payload, addr, size, minPaddr)
  {
    assert forall a: u64 | addr <= a < addr + size :: InBlock(a, addr, size) && mem(a) == 0;
  }

  lemma SourceInPayload(ph: Phdr, payload: u64, payloadSize: u64)
    requires ph.NoWrap() && Loadable(ph, payloadSize) && payload + payloadSize <= TWO64
    ensures payload + ph.offset + ph.filesz <= payload + payloadSize
    ensures ph.filesz > 0 ==> Wrap(payload + ph.offset) == payload + ph.offset
  {
  }

  lemma SkippedSegment(mem: u64 -> byte, before: u64 -> byte, phs: seq<Phdr>, ph: Phdr, payload: u64,
                       addr: u64, size: u64, minPaddr: u64)
    requires HoldsImage(mem, phs, before, payload, addr, size, minPaddr) && !ph.Load()
    ensures HoldsImage(mem, phs + [ph], before, payload, addr, size, minPaddr)
  {
    assert (phs + [ph])[..|phs|] == phs;
  }

  /** The file part of the segment ends behind the payload, or is longer than the segment. */
  predicate Refused(ph: Phdr, payloadSize: u64) {
    ph.typ == 1 && ((ph.offset + ph.filesz) % 0x1_0000_0000_0000_0000 > payloadSize || ph.memsz < ph.filesz)
  }

  lemma RefusedExactly(phs: seq<Phdr>, payloadSize: u64)
    ensures (forall ph | ph in phs && ph.Load() :: Loadable(ph, payloadSize))
       <==> forall ph | ph in phs :: !Refused(ph, payloadSize)
  {
    forall ph | ph in phs ensures Refused(ph, payloadSize) <==> ph.Load() && !Loadable(ph, payloadSize) {
    }
  }

  lemma SpanRounded(phs: seq<Phdr>)
    requires NothingWraps(phs) && MinPaddr(phs) <= MaxPaddr(phs)
    ensures AlignUp(Wrap(MaxPaddr(phs) - MinPaddr(phs)), KERNEL_MEM_ALIGN)
         == Ceiling(MaxPaddr(phs) - MinPaddr(phs), 0x20_0000)
  {
    hide MinPaddr, MaxPaddr, AlignUp, Ceiling;
    AlignUpIsCeiling(MaxPaddr(phs) - MinPaddr(phs), KERNEL_MEM_ALIGN);
  }

  /** MAIN: load_program. It refuses exactly a misaligned program and one with a segment that fails its
      checks, unless there is no memory. On success, if no segment wraps around, the block has the span of
      the segments, rounded up to 2 MiB, it holds the image, and nothing else in memory changed; on failure
      no page is lost. */
  method LoadProgram(m: Machine, payload: u64, payloadSize: u64, phs: seq<Phdr>)
    returns (status: Status, addr: u64, size: u64, minPaddr: u64, minVaddr: u64)
    requires m.free <= m.pages && PayloadInUse(m.free, payload, payloadSize)
    modifies m
    ensures status != Success ==> m.free == old(m.free)
    ensures minPaddr == MinPaddr(phs) && minVaddr == MinVaddr(phs)
    ensures status == Success ==>
      && (forall ph | ph in phs && ph.Load() :: Loadable(ph, payloadSize))
      && minPaddr % 0x20_0000 == 0 && addr % 0x20_0000 == 0
      && size == AlignUp(Wrap(MaxPaddr(phs) - minPaddr), KERNEL_MEM_ALIGN)
      && Allocated(m, old(m.free), addr, size)
    ensures status == Success && NothingWraps(phs) ==>
      && Outside(old(m.mem), m.mem, addr, size)
      && HoldsImage(m.mem, phs, old(m.mem), payload, addr, size, minPaddr)
      && (minPaddr <= MaxPaddr(phs) ==> size == Ceiling(MaxPaddr(phs) - minPaddr, 0x20_0000))
    ensures status == Success ==> minPaddr % 0x20_0000 == 0 && forall ph | ph in phs :: !Refused(ph, payloadSize)
    ensures status == OutOfResources ==> JustRefused(m, |old(m.requests)|)
    ensures status == InvalidParameter ==>
      minPaddr % 0x20_0000 != 0 || exists ph | ph in phs :: Refused(ph, payloadSize)
  {
    hide MinPaddr, MaxPaddr, MinVaddr, AlignUp, Wrap, PagesFor, HoldsImage, Outside, Filled, PayloadInUse, Loadable,
         Refused, Ceiling, NothingWraps;
    ghost var free, before := m.free, m.mem;
    RefusedExactly(phs, payloadSize);
    status, addr, size, minPaddr, minVaddr := EfiAllocateKernelMemory(m, phs);
    if status != Success {
      return;
    }
    PayloadOutside(m, free, payload, payloadSize, addr, size);
    ghost var zeroed := m.mem;
    Memset(m, addr, 0, size);
    OutsideTwice(before, zeroed, m.mem, addr, size);
    var ok := CopySegments(m, payload, payloadSize, phs, addr, size, minPaddr, before);
    if NothingWraps(phs) && minPaddr <= MaxPaddr(phs) {
      SpanRounded(phs);
    }
    if !ok {
      KeptComesBack(m.pages, free, m.free, addr, PagesFor(size));
      EfiFree(m, size, addr);
      status := InvalidParameter;
    }
  }

  lemma OutsideTwice(m0: u64 -> byte, m1: u64 -> byte, m2: u64 -> byte, addr: u64, size: u64)
    requires Outside(m0, m1, addr, size) && Outside(m1, m2, addr, size)
    ensures Outside(m0, m2, addr, size)
  {
  }

  // ----- the entry address

  /** What load_elf computes. */
  function KernelEntry(entry: u64, minVaddr: u64, addr: u64): u64 {
    Wrap(entry - minVaddr + addr)
  }

  /** Where the byte linked at virtual address `v` of the segment was put. */
  function LoadedAt(ph: Phdr, v: u64, minPaddr: u64, addr: u64): int {
    addr + (ph.paddr - minPaddr) + (v - ph.vaddr)
  }

  /** MAIN: the entry points at its byte exactly if the segment that holds it is as far from its physical
      addresses as the lowest virtual address of all is from the lowest physical address of all. */
  lemma EntryExactly(phs: seq<Phdr>, i: nat, entry: u64, addr: u64)
    requires NothingWraps(phs) && i < |phs| && phs[i].Load() && phs[i].filesz <= phs[i].memsz
    requires phs[i].vaddr <= entry < phs[i].vaddr + phs[i].filesz
    requires addr + AlignUp(Wrap(MaxPaddr(phs) - MinPaddr(phs)), KERNEL_MEM_ALIGN) <= TWO64
    ensures KernelEntry(entry, MinVaddr(phs), addr) == LoadedAt(phs[i], entry, MinPaddr(phs), addr)
       <==> Wrap(phs[i].vaddr - phs[i].paddr) == Wrap(MinVaddr(phs) - MinPaddr(phs))
  {
    hide MinPaddr, MaxPaddr, MinVaddr, AlignUp, Wrap;
    SegmentInBlock(phs, i, addr, AlignUp(Wrap(MaxPaddr(phs) - MinPaddr(phs)), KERNEL_MEM_ALIGN));
    var x, y := entry - MinVaddr(phs) + addr, LoadedAt(phs[i], entry, MinPaddr(phs), addr);
    WrapSmall(y);
    WrapEqual(x, y, phs[i].vaddr - phs[i].paddr, MinVaddr(phs) - MinPaddr(phs));
  }

  /** The two minima may come from different segments. Then even an entry in the segment with the lowest
      virtual address is misplaced: here by the distance of the two segments. */
  lemma EntryMisplaced(addr: u64)
    requires addr < TWO64 - 0x40_0000
    ensures var a := Phdr(PT_LOAD, 0, 0x1000_0000, 0x40_0000, 0x1000, 0x1000);
      var b := Phdr(PT_LOAD, 0, 0x2000_0000, 0x20_0000, 0x1000, 0x1000);
      && MinVaddr([a, b]) == a.vaddr && MinPaddr([a, b]) == b.paddr && NothingWraps([a, b])
      && LoadedAt(a, a.vaddr, MinPaddr([a, b]), addr) == KernelEntry(a.vaddr, MinVaddr([a, b]), addr) + 0x20_0000
  {
    var a := Phdr(PT_LOAD, 0, 0x1000_0000, 0x40_0000, 0x1000, 0x1000);
    var b := Phdr(PT_LOAD, 0, 0x2000_0000, 0x20_0000, 0x1000, 0x1000);
    hide MinPaddr, MaxPaddr, MinVaddr;
    assert [a, b] == [a] + [b] && [a] == [] + [a];
    NoSegments([]);
    MinimaNext([], a);
    MinimaNext([a], b);
  }

  lemma MinimaNext(phs: seq<Phdr>, ph: Phdr)
    requires ph.Load()
    ensures MinPaddr(phs + [ph]) == if ph.paddr < MinPaddr(phs) then ph.paddr else MinPaddr(phs)
    ensures MinVaddr(phs + [ph]) == if ph.vaddr < MinVaddr(phs) then ph.vaddr else MinVaddr(phs)
    ensures MaxPaddr(phs + [ph])
      == if Wrap(ph.paddr + ph.memsz) > MaxPaddr(phs) then Wrap(ph.paddr + ph.memsz) else MaxPaddr(phs)
  {
    assert (phs + [ph])[..|phs|] == phs;
  }

  lemma WrapEqual(x: int, y: int, p: int, q: int)
    requires x - y == p - q
    ensures Wrap(x) == Wrap(y) <==> Wrap(p) == Wrap(q)
  {
  }

  lemma {:induction false} UniformMinima(phs: seq<Phdr>, d: int)
    requires forall ph | ph in phs && ph.Load() :: ph.vaddr - ph.paddr == d
    requires exists ph :: ph in phs && ph.Load()
    ensures MinVaddr(phs) - MinPaddr(phs) == d
  {
    var front, ph := phs[..|phs| - 1], phs[|phs| - 1];
    assert ph in phs && forall q | q in front :: q in phs;
    if exists q :: q in front && q.Load() {
      UniformMinima(front, d);
    } else {
      assert forall k | 0 <= k < |front| :: front[k] in front;
      NoSegments(front);
    }
  }

  /** MAIN: if all segments are linked at one distance from their load addresses, the byte at the kernel
      entry is the byte of the file linked at `e_entry` that was loaded last. */
  lemma EntryByte(phs: seq<Phdr>, i: nat, entry: u64, d: int, before: u64 -> byte, after: u64 -> byte,
                  payload: u64, addr: u64, size: u64)
    requires NothingWraps(phs) && i < |phs| && phs[i].Load() && phs[i].filesz <= phs[i].memsz
    requires phs[i].vaddr <= entry < phs[i].vaddr + phs[i].filesz
    requires size == AlignUp(Wrap(MaxPaddr(phs) - MinPaddr(phs)), KERNEL_MEM_ALIGN) && addr + size <= TWO64
    requires forall ph | ph in phs && ph.Load() :: ph.vaddr - ph.paddr == d
    requires HoldsImage(after, phs, before, payload, addr, size, MinPaddr(phs))
    requires NoneAbove(phs, entry - d, i)
    ensures after(KernelEntry(entry, MinVaddr(phs), addr))
      == before((payload + phs[i].offset + (entry - phs[i].vaddr)) % 0x1_0000_0000_0000_0000)
  {
    hide MinPaddr, MaxPaddr, MinVaddr, AlignUp, Wrap, ImageByte;
    assert phs[i] in phs;
    UniformMinima(phs, d);
    EntryExactly(phs, i, entry, addr);
    SegmentInBlock(phs, i, addr, size);
    ImageByteIs(phs, before, payload, entry - d, i);
    assert KernelEntry(entry, MinVaddr(phs), addr) - addr + MinPaddr(phs) == entry - d;
  }

  // ----- the program header table

  datatype Ehdr = Ehdr(phoff: u64, shoff: u64, phentsize: nat, phnum: nat)

  /** parse_phdrs: number and position of the program headers; `shInfo` is sh_info of the first section. */
  function ParsePhdrs(e: Ehdr, payloadSize: u64, shInfo: nat): (table: (Status, nat, u64)) {
    if e.phnum == 0 || e.phentsize != SIZEOF_PHDR then (InvalidParameter, 0, 0)
    else if e.phnum == PN_XNUM && (e.shoff == 0 || Wrap(e.shoff + SIZEOF_SHDR) > payloadSize)
      then (InvalidParameter, 0, 0)
    else
      var phnum := if e.phnum == PN_XNUM then shInfo % 0x1_0000 else e.phnum;
      if phnum == 0 || Wrap(e.phoff + phnum * SIZEOF_PHDR) > payloadSize then (InvalidParameter, 0, 0)
      else (Success, phnum, e.phoff)
  }

  /** MAIN: every header with entries of 56 bytes and a count other than 0 whose table, and with an extended
      count whose first section header, lies in the payload is accepted, with that count and at e_phoff. */
  lemma TableAccepted(e: Ehdr, payloadSize: u64, shInfo: nat)
    requires e.phentsize == 56 && e.phnum <= 0xFFFF
    requires e.phnum == 0xFFFF ==> e.shoff != 0 && e.shoff + 64 <= payloadSize
    requires var count := if e.phnum == 0xFFFF then shInfo % 0x1_0000 else e.phnum;
      count != 0 && e.phoff + count * 56 <= payloadSize
    ensures ParsePhdrs(e, payloadSize, shInfo)
         == (Success, if e.phnum == 0xFFFF then shInfo % 0x1_0000 else e.phnum, e.phoff)
  {
  }

  /** MAIN: entries of another size, no entries, a count that is 0 in 16 bits, and a table or first section
      header that ends behind the payload without wrapping around are refused. */
  lemma TableRefused(e: Ehdr, payloadSize: u64, shInfo: nat)
    requires e.phnum <= 0xFFFF
    requires var count := if e.phnum == 0xFFFF then shInfo % 0x1_0000 else e.phnum;
      || e.phentsize != 56 || e.phnum == 0 || count == 0
      || payloadSize < e.phoff + count * 56 < 0x1_0000_0000_0000_0000
      || (e.phnum == 0xFFFF && (e.shoff == 0 || payloadSize < e.shoff + 64 < 0x1_0000_0000_0000_0000))
    ensures ParsePhdrs(e, payloadSize, shInfo) == (InvalidParameter, 0, 0)
  {
  }

  /** A table that is found lies in the payload exactly if its end does not wrap around, and has the
      announced number of entries exactly if the extended count fits 16 bits. */
  lemma TableFound(e: Ehdr, payloadSize: u64, shInfo: nat)
    requires e.phnum <= 0xFFFF
    ensures var (status, count, at) := ParsePhdrs(e, payloadSize, shInfo);
      status == Success ==>
        && at == e.phoff && count > 0 && e.phentsize == 56
        && (at + count * 56 <= payloadSize <==> at + count * 56 < 0x1_0000_0000_0000_0000)
        && (count == (if e.phnum == 0xFFFF then shInfo else e.phnum) <==> e.phnum < 0xFFFF || shInfo < 0x1_0000)
  {
  }
}
