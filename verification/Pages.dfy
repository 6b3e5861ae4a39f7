/**
 Page allocation: the firmware's free pages, the aligned allocator that asks for too much and returns the
 slack (apps/alignedmem.c), and efi_free (apps/mem.c). Pages are numbered from address 0. The memory of the
 machine and the requests made of its firmware are fields of one class.
 */
module Pages {
  import opened Word64

  const EFI_PAGE_SIZE: u64 := 0x1000
  const EFI_ALLOC_ALIGN: u64 := EFI_PAGE_SIZE
  const EFI_ALLOC_LIMIT: u64 := UINT64_MAX

  /** `n` pages from page `p` on. */
  function Run(p: nat, n: nat): set<nat>
    decreases n
  {
    if n == 0 then {} else Run(p, n - 1) + {p + n - 1}
  }

  lemma {:induction false} RunMembers(p: nat, n: nat)
    ensures |Run(p, n)| == n
    ensures forall q :: q in Run(p, n) <==> p <= q < p + n
    decreases n
  {
    if n > 0 {
      RunMembers(p, n - 1);
    }
  }

  /** A request to the firmware for pages: how many, below which limit, and whether it was granted. */
  datatype Request = Request(count: u64, limit: u64, granted: bool)

  /** The memory of the machine and the pages the firmware has to give. */
  class Machine {
    const pages: set<nat>
    var free: set<nat>
    var mem: u64 -> byte
    ghost var requests: seq<Request>

    /** AllocatePages below a limit: any free run whose last byte is not above `limit`, or failure. */
    method AllocateMaxAddress(count: u64, limit: u64) returns (ok: bool, base: u64)
      modifies `free, `requests
      ensures requests == old(requests) + [Request(count, limit, ok)]
      ensures !ok ==> free == old(free)
      ensures ok ==> base % 0x1000 == 0 && base + count * EFI_PAGE_SIZE <= limit + 1
      ensures ok ==> Run(base / 0x1000, count) <= old(free) && free == old(free) - Run(base / 0x1000, count)
    {
      hide Run;
      var p: nat :| true;
      base := 0;
      ok := p <= 0xF_FFFF_FFFF_FFFF
        && (p + count) * 0x1000 <= limit + 1 && Run(p, count) <= free;
      if ok {
        base := p * 0x1000;
        free := free - Run(p, count);
      }
      requests := requests + [Request(count, limit, ok)];
    }

    /** FreePages refuses pages it did not give out. */
    method FreePages(addr: u64, count: nat)
      modifies `free
      ensures free == if addr % 0x1000 == 0 && Run(addr / 0x1000, count) <= pages - old(free)
                      then old(free) + Run(addr / 0x1000, count) else old(free)
    {
      if addr % 0x1000 == 0 && Run(addr / 0x1000, count) <= pages - free {
        free := free + Run(addr / 0x1000, count);
      }
    }
  }

  // ----- the arithmetic of the aligned allocator

  /** The highest address offered to the firmware. */
  function Limit(max: u64, align: u64): u64
    requires align > 0
  {
    Wrap(AlignDown(Wrap(max + 1), align) - 1)
  }

  /** The extra pages asked for, as a 32-bit int. */
  function Slack(align: u64): int {
    ToInt32(align / 0x1000 - 1)
  }

  /** Alignments of 16 TiB and more lose their slack to the conversion. */
  lemma SlackExactly(align: u64)
    requires IsPow2(align) && align >= 0x1000
    ensures align <= 0x800_0000_0000 ==> Slack(align) == align / 0x1000 - 1
    ensures align > 0x800_0000_0000 ==> Slack(align) == -1
    ensures align % 0x1000 == 0
  {
    hide IsPow2, Slack;
    SmallPowers();
    var p := Pow2Quotient(0x1000, align);
    if align > 0x800_0000_0000 {
      var q := Pow2Quotient(0x8000_0000, p);
      EvenPow2(q);
      SlackOfLarge(align, q / 2);
    } else {
      SlackOfSmall(align);
    }
  }

  lemma SlackOfSmall(align: u64)
    requires 0x1000 <= align <= 0x800_0000_0000
    ensures Slack(align) == align / 0x1000 - 1
  {
  }

  lemma SlackOfLarge(align: u64, q: nat)
    requires align == 0x1000_0000_0000 * q
    ensures Slack(align) == -1
  {
    assert align / 0x1000 - 1 == 0x1_0000_0000 * q - 1;
  }

  lemma EvenPow2(q: nat)
    requires IsPow2(q) && q > 1
    ensures q % 2 == 0
  {
  }

  lemma SmallPowers()
    ensures IsPow2(0x1000) && IsPow2(0x8000_0000)
  {
    Pow2Product(0x10, 0x10);
    Pow2Product(0x100, 0x10);
    Pow2Product(0x80, 0x100);
    Pow2Product(0x100, 0x100);
    Pow2Product(0x8000, 0x1_0000);
  }

  /** The limit does not exceed `max` exactly if `max` is the top of memory or an aligned block ends below it. */
  lemma LimitRespected(max: u64, align: u64)
    requires align > 0
    ensures Limit(max, align) <= max <==> max == UINT64_MAX || max + 1 >= align
    ensures max + 1 < align && max < UINT64_MAX ==> Limit(max, align) == UINT64_MAX
  {
    hide Wrap, AlignDown;
    var y := Wrap(max + 1);
    WrapNext(max);
    var q := AlignDownIs(y, align);
    MultipleBounds(q, align);
    WrapBack(AlignDown(y, align));
  }

  /** The limit is the last byte below the highest multiple of the alignment that `max` reaches; without one,
      it is the top of memory. */
  lemma LimitExactly(max: u64, align: u64)
    requires align > 0
    ensures Limit(max, align)
         == if max == UINT64_MAX || max + 1 < align then UINT64_MAX else (max + 1) / align * align - 1
  {
    hide Wrap, AlignDown;
    var y := Wrap(max + 1);
    WrapNext(max);
    var q := AlignDownIs(y, align);
    MultipleBounds(q, align);
    WrapBack(AlignDown(y, align));
    if max != UINT64_MAX {
      RemainderUnique(y, align, q, y - q * align);
      if max + 1 < align {
        RemainderUnique(y, align, 0, y);
      } else {
        MultipleBounds(y / align, align);
      }
    }
  }

  lemma WrapNext(x: u64)
    ensures Wrap(x + 1) == if x == UINT64_MAX then 0 else x + 1
  {
  }

  lemma WrapBack(x: u64)
    ensures Wrap(x - 1) == if x == 0 then UINT64_MAX else x - 1
  {
  }

  /** Inside a page grid: the aligned addresses around a page address are page addresses. */
  lemma PageGrid(base: u64, align: u64)
    requires base % 0x1000 == 0 && align % 0x1000 == 0 && align > 0 && DividesWord(align)
    ensures var down := AlignDown(base, align);
      && down <= base < down + align <= TWO64 && down % 0x1000 == 0
      && AlignUp(base, align) == if base == down then base else Wrap(down + align)
  {
    hide AlignDown, AlignUp, DividesWord, Wrap;
    AlignUpFromBelow(base, align);
    var q := AlignDownIs(base, align);
    MultipleOfPages(q, align);
  }

  // ----- the allocator

  /** The pages a request of `size` bytes comes to. */
  function PagesFor(size: u64): nat {
    RoundUp(size, EFI_ALLOC_ALIGN) / 0x1000
  }

  /** The alignment in force. */
  function Effective(align: u64): u64 {
    if align < EFI_ALLOC_ALIGN then EFI_ALLOC_ALIGN else align
  }

  /** The run is what the free pages lack afterwards. */
  predicate Kept(pages: set<nat>, before: set<nat>, after: set<nat>, addr: u64, count: nat) {
    before <= pages && after == before - Run(addr / 0x1000, count) && Run(addr / 0x1000, count) <= before
  }

  lemma RunSplit(p: nat, n: nat, k: nat)
    ensures Run(p, n + k) == Run(p, n) + Run(p + n, k) && Run(p, n) !! Run(p + n, k)
  {
    hide Run;
    RunMembers(p, n);
    RunMembers(p + n, k);
    RunMembers(p, n + k);
  }

  /** Removing `r` and giving `back` back removes the rest. */
  lemma GiveBack(pages: set<nat>, before: set<nat>, r: set<nat>, back: set<nat>, rest: set<nat>)
    requires r <= before <= pages && r == back + rest && back !! rest
    ensures before - r + back == before - rest && rest <= before && back <= pages - (before - r)
  {
  }

  /** Page numbers in a grant of `n + slack` pages from page `b`: `l` pages into an alignment block of
      `slack + 1`, the next block starts at page `k`. */
  lemma GrantPages(base: u64, size: u64, align: u64, slack: nat) returns (l: nat, k: nat)
    requires base % 0x1000 == 0 && size % 0x1000 == 0
    requires 0x1000 <= align && align % 0x1000 == 0 && DividesWord(align)
    requires slack == align / 0x1000 - 1
    requires base / 0x1000 + size / 0x1000 + slack <= 0x10_0000_0000_0000
    ensures l == (base - AlignDown(base, align)) / 0x1000 <= slack
    ensures k == base / 0x1000 + if l == 0 then 0 else slack - l + 1
    ensures AlignUp(base, align) == Wrap(0x1000 * k)
    ensures k < 0x10_0000_0000_0000 || (k == 0x10_0000_0000_0000 && size == 0 && l == 1)
  {
    hide AlignUp, AlignDown, Wrap, DividesWord;
    PageGrid(base, align);
    l := (base - AlignDown(base, align)) / 0x1000;
    k := base / 0x1000 + if l == 0 then 0 else slack - l + 1;
    if l == 0 {
      WrapSmall(base);
    } else {
      assert 0x1000 * k == AlignDown(base, align) + align;
    }
  }

  lemma PageOf(k: nat, n: nat, size: u64)
    requires k + n < 0x10_0000_0000_0000 && size % 0x1000 == 0 && n == size / 0x1000
    ensures Wrap(0x1000 * k) == 0x1000 * k && Wrap(0x1000 * k) / 0x1000 == k
    ensures Wrap(Wrap(0x1000 * k) + size) == 0x1000 * (k + n)
    ensures Wrap(Wrap(0x1000 * k) + size) / 0x1000 == k + n && Wrap(Wrap(0x1000 * k) + size) % 0x1000 == 0
  {
  }

  lemma PageItself(k: nat)
    requires k <= 0x10_0000_0000_0000
    ensures Wrap(0x1000 * k) % 0x1000 == 0
    ensures Wrap(0x1000 * k) / 0x1000 == if k == 0x10_0000_0000_0000 then 0 else k
  {
  }

  /** The clean-up behind a grant of `size / 0x1000 + slack0` pages at `base`. */
  method Trim(m: Machine, base: u64, size: u64, align: u64, slack0: nat, ghost before: set<nat>) returns (addr: u64)
    requires base % 0x1000 == 0 && size % 0x1000 == 0
    requires 0x1000 <= align && align % 0x1000 == 0 && DividesWord(align)
    requires slack0 == align / 0x1000 - 1
    requires base / 0x1000 + size / 0x1000 + slack0 <= 0x10_0000_0000_0000
    requires before <= m.pages && Run(base / 0x1000, size / 0x1000 + slack0) <= before
    requires m.free == before - Run(base / 0x1000, size / 0x1000 + slack0)
    modifies m`free
    ensures Kept(m.pages, before, m.free, addr, size / 0x1000)
    ensures addr == AlignUp(base, align)
    ensures addr % 0x1000 == 0 && addr / 0x1000 <= base / 0x1000 + slack0
  {
    hide Run, AlignUp, AlignDown, IsPow2, Wrap, DividesWord;
    addr := AlignUp(base, align);
    var slack := slack0;
    ghost var l0, k := GrantPages(base, size, align, slack);
    ghost var n := size / 0x1000;
    PageItself(k);
    EmptyRuns();
    if slack > 0 {
      var l := (base - AlignDown(base, align)) / 0x1000;
      if l != 0 {
        ghost var b, head := base / 0x1000, slack - l + 1;
        RunSplit(b, head, n + (l - 1));
        GiveBack(m.pages, before, Run(b, n + slack), Run(b, head), Run(k, n + (l - 1)));
        m.FreePages(base, slack - l + 1);
        slack := l - 1;
      }
      assert m.free == before - Run(k, n + slack) && Run(k, n + slack) <= before;
      RunSplit(k, n, slack);
      if slack != 0 {
        PageOf(k, n, size);
        var behind := Wrap(addr + size);
        assert behind / 0x1000 == k + n;
        GiveBack(m.pages, before, Run(k, n + slack), Run(k + n, slack), Run(k, n));
        m.FreePages(behind, slack);
      } else {
        assert n + slack == n;
      }
    } else {
      assert n + slack == n && k == base / 0x1000;
    }
  }

  lemma EmptyRuns()
    ensures forall p :: Run(p, 0) == {}
  {
  }

  /** One more request than `before`, for `count` pages below `limit`, was made and answered with `ok`. */
  ghost predicate AskedOnce(m: Machine, before: seq<Request>, count: int, limit: int, ok: bool)
    reads m`requests
  {
    && |m.requests| == |before| + 1 && m.requests[..|before|] == before
    && var last := m.requests[|before|]; last.count == count && last.limit == limit && last.granted == ok
  }

  /** A request comes to the pages its size covers; sizes that have no multiple of 4096 above them in 64 bits
      come to none. */
  lemma PagesExactly(size: u64)
    ensures PagesFor(size) == if size <= 0xFFFF_FFFF_FFFF_F000 then Ceiling(size, 0x1000) / 0x1000 else 0
  {
    hide RoundUp, Ceiling;
    GranuleDivides();
    RoundUpIsCeiling(size, EFI_ALLOC_ALIGN);
    var p := CeilingIs(size, 0x1000);
  }

  /** MAIN: one request goes to the firmware, for the pages of the size and all but one of an alignment block,
      below the highest boundary that `max` reaches. Whatever run it grants, exactly an aligned run of the
      requested size is kept and the rest is given back; it respects `max` unless no aligned block ends below
      `max`. For alignments of 16 TiB and more every grant is too small instead. */
  method EfiAllocatePagesAligned(m: Machine, size0: u64, max0: u64, align0: u64) returns (ok: bool, addr: u64)
    requires IsPow2(align0) && m.free <= m.pages
    modifies m`free, m`requests
    ensures var align := if align0 < 0x1000 then 0x1000 else align0;
      var pages := if align0 <= 0x800_0000_0000 then PagesFor(size0) + align / 0x1000 - 1
                   else if PagesFor(size0) == 0 then UINT64_MAX else PagesFor(size0) - 1;
      var limit := if max0 == UINT64_MAX || max0 + 1 < align then UINT64_MAX else (max0 + 1) / align * align - 1;
      AskedOnce(m, old(m.requests), pages, limit, ok)
    ensures !ok ==> m.free == old(m.free)
    ensures ok ==> (Kept(m.pages, old(m.free), m.free, addr, PagesFor(size0)) <==> align0 <= 0x800_0000_0000)
    ensures ok && align0 <= 0x800_0000_0000 ==>
      && addr == AlignDown(addr, Effective(align0)) && addr % Effective(align0) == 0
      && (max0 == UINT64_MAX || max0 + 1 >= Effective(align0) ==>
            addr + PagesFor(size0) * 0x1000 <= max0 + 1)
  {
    hide IsPow2, Run, Kept, AlignDown, RoundUp, Slack, Wrap, DividesWord;
    SmallPowers();
    Pow2Word(Effective(align0));
    SlackExactly(Effective(align0));
    RoundedSize(size0);
    ghost var before := m.free;

    var max := if max0 < EFI_ALLOC_LIMIT then max0 else EFI_ALLOC_LIMIT;
    var align := Effective(align0);
    var limit := Wrap(AlignDown(Wrap(max + 1), align) - 1);
    var size := RoundUp(size0, EFI_ALLOC_ALIGN);
    var slack := Slack(align);
    var base;
    LimitExactly(max0, align);
    if slack >= 0 {
      AskedFor(size, slack);
    } else {
      AskedTooLittle(size);
    }
    ok, base := m.AllocateMaxAddress(Wrap(size / EFI_PAGE_SIZE + slack), limit);
    assert m.requests[..|old(m.requests)|] == old(m.requests);
    addr := 0;
    if ok {
      AlignUpAligned(base, align);
      LimitRespected(max0, align);
      if slack >= 0 {
        AskedFor(size, slack);
        addr := Trim(m, base, size, align, slack, before);
        AlignedIsMultiple(addr, align);
      } else {
        addr := AlignUp(base, align);
        AskedTooLittle(size);
        TooFewKept(m.pages, before, base / 0x1000, addr, size / 0x1000);
      }
    }
  }

  lemma AlignedIsMultiple(x: u64, a: u64)
    requires a > 0 && AlignDown(x, a) == x
    ensures x % a == 0
  {
  }

  lemma RoundedSize(size: u64)
    ensures RoundUp(size, EFI_ALLOC_ALIGN) % 0x1000 == 0
  {
    hide RoundUp, Ceiling;
    GranuleDivides();
    RoundUpIsCeiling(size, EFI_ALLOC_ALIGN);
  }

  lemma AskedFor(size: u64, slack: nat)
    requires slack < 0x8000_0000
    ensures Wrap(size / EFI_PAGE_SIZE + slack) == size / 0x1000 + slack
  {
  }

  lemma AskedTooLittle(size: u64)
    ensures Wrap(size / EFI_PAGE_SIZE - 1) == if size < 0x1000 then UINT64_MAX else size / 0x1000 - 1
  {
  }

  lemma TooFewKept(pages: set<nat>, before: set<nat>, b: nat, addr: u64, n: nat)
    requires n > 0 && Run(b, n - 1) <= before
    ensures !Kept(pages, before, before - Run(b, n - 1), addr, n)
  {
    hide Run;
    RunMembers(b, n - 1);
    RunMembers(addr / 0x1000, n);
    var kept := Run(addr / 0x1000, n);
    if kept <= before && before - Run(b, n - 1) == before - kept {
      SameRemoved(before, kept, Run(b, n - 1));
    }
  }

  lemma SameRemoved(s: set<nat>, x: set<nat>, y: set<nat>)
    requires x <= s && y <= s && s - x == s - y
    ensures x == y
  {
    assert x == s - (s - x) && y == s - (s - y);
  }

  lemma NothingForNothing()
    ensures forall p :: Run(p, PagesFor(0)) == {}
  {
    hide RoundUp, Ceiling, Run;
    GranuleDivides();
    RoundUpIsCeiling(0, EFI_ALLOC_ALIGN);
    EmptyRuns();
  }

  lemma GranuleDivides()
    ensures DividesWord(EFI_ALLOC_ALIGN)
  {
  }

  /** DIV_ROUND_UP. */
  function DivRoundUp(n: u64, d: u64): u64
    requires d > 0
  {
    Wrap(n + (d - 1)) / d
  }

  /** The allocator counts pages one way, efi_free another; they agree for every size, wrapping ones included. */
  lemma SameCount(size: u64)
    ensures DivRoundUp(size, EFI_PAGE_SIZE) == PagesFor(size)
  {
    hide RoundUp, Ceiling;
    GranuleDivides();
    RoundUpIsCeiling(size, EFI_ALLOC_ALIGN);
  }

  /** efi_allocate_pages keeps exactly the pages that efi_free will give back. */
  method EfiAllocatePages(m: Machine, size: u64, max0: u64) returns (ok: bool, addr: u64)
    requires m.free <= m.pages
    modifies m`free, m`requests
    ensures var limit :=
        if max0 == UINT64_MAX || max0 + 1 < 0x1000 then UINT64_MAX else (max0 + 1) / 0x1000 * 0x1000 - 1;
      AskedOnce(m, old(m.requests), PagesFor(size), limit, ok)
    ensures !ok ==> m.free == old(m.free)
    ensures ok ==> addr % 0x1000 == 0 && Kept(m.pages, old(m.free), m.free, addr, PagesFor(size))
    ensures ok && (max0 == UINT64_MAX || max0 + 1 >= EFI_ALLOC_ALIGN) ==> addr + PagesFor(size) * 0x1000 <= max0 + 1
  {
    hide Run, PagesFor, DivRoundUp, AlignDown, Wrap;
    var max := if max0 < EFI_ALLOC_LIMIT then max0 else EFI_ALLOC_LIMIT;
    var limit := Wrap(AlignDown(Wrap(max + 1), EFI_ALLOC_ALIGN) - 1);
    LimitRespected(max0, EFI_ALLOC_ALIGN);
    LimitExactly(max0, EFI_ALLOC_ALIGN);
    SameCount(size);
    ok, addr := m.AllocateMaxAddress(DivRoundUp(size, EFI_PAGE_SIZE), limit);
  }

  /** efi_free gives back the pages of an allocation, whatever was allocated or freed since. */
  method EfiFree(m: Machine, size: u64, addr: u64)
    requires addr % 0x1000 == 0 && Run(addr / 0x1000, PagesFor(size)) <= m.pages - m.free
    modifies m`free
    ensures m.free == old(m.free) + Run(addr / 0x1000, PagesFor(size))
  {
    hide RoundUp, Run;
    if size == 0 {
      NothingForNothing();
      return;
    }
    var nrPages := RoundUp(size, EFI_ALLOC_ALIGN) / EFI_PAGE_SIZE;
    m.FreePages(addr, nrPages);
  }

  /** What an allocation kept can be freed as long as nobody else does so, and freeing it at once restores the
      free pages. */
  lemma KeptComesBack(pages: set<nat>, before: set<nat>, after: set<nat>, addr: u64, n: nat)
    requires Kept(pages, before, after, addr, n)
    ensures Run(addr / 0x1000, n) <= pages - after && after + Run(addr / 0x1000, n) == before
  {
    hide Run;
  }
}
