/**
 The virtual map for the firmware's runtime services (apps/stub.c): an in-place pass over the memory
 map that gives every runtime region a virtual range and copies its descriptor.
 */
module VirtMap {
  import opened Word64

  const EFI_MEMORY_RUNTIME: u64 := 0x8000_0000_0000_0000
  const EFI_PAGE_SIZE: u64 := 0x1000
  const SZ_64K: u64 := 0x1_0000
  const SZ_2M: u64 := 0x20_0000
  const VIRTMAP_BASE: u64 := 0x2000_0000

  /** One element of a map, which stands for one descriptor of `desc_size` bytes. */
  datatype Descriptor = Descriptor(typ: nat, physicalStart: u64, virtualStart: u64, numberOfPages: u64,
                                   attribute: u64)

  /** EFI_RT_VIRTUAL_OFFSET, whose being non-zero makes the mapping flat, and efi_novamap. */
  datatype Config = Config(offset: u64, novamap: bool) {
    predicate Windowed() {
      !novamap && offset == 0
    }
  }

  /** EFI_MEMORY_RUNTIME is the top bit of the attributes. */
  predicate Runtime(d: Descriptor) {
    d.attribute >= EFI_MEMORY_RUNTIME
  }

  /** Length of the region, unbounded. */
  function Length(d: Descriptor): nat {
    d.numberOfPages * EFI_PAGE_SIZE
  }

  /** The length counted from the 64 KiB boundary below the region, in 64-bit arithmetic. */
  function PaddedSize(d: Descriptor): u64 {
    Wrap(Wrap(Length(d)) + (d.physicalStart - AlignDown(d.physicalStart, SZ_64K)))
  }

  function Granule(d: Descriptor): u64 {
    if d.physicalStart % SZ_2M == 0 && PaddedSize(d) >= SZ_2M then SZ_2M else SZ_64K
  }

  function Slot(d: Descriptor, base: u64): u64 {
    RoundUp(base, Granule(d))
  }

  /** The descriptor as the pass leaves it when `base` is the next free virtual address. */
  function Mapped(c: Config, d: Descriptor, base: u64): Descriptor {
    if !Runtime(d) then d
    else if !c.Windowed() then d.(virtualStart := Wrap(d.physicalStart + c.offset))
    else d.(virtualStart := Wrap(d.physicalStart + (Slot(d, base) - AlignDown(d.physicalStart, SZ_64K))))
  }

  /** The next free virtual address behind the regions of `ds`. */
  function NextBase(ds: seq<Descriptor>): u64 {
    if ds == [] then VIRTMAP_BASE
    else
      var base, d := NextBase(ds[..|ds| - 1]), ds[|ds| - 1];
      if Runtime(d) then Wrap(Slot(d, base) + PaddedSize(d)) else base
  }

  /** The memory map after the pass. */
  function Assigned(c: Config, ds: seq<Descriptor>): (out: seq<Descriptor>)
    ensures |out| == |ds|
  {
    if ds == [] then []
    else Assigned(c, ds[..|ds| - 1]) + [Mapped(c, ds[|ds| - 1], NextBase(ds[..|ds| - 1]))]
  }

  /** The runtime descriptors, in order. */
  function RuntimeOnly(ds: seq<Descriptor>): (out: seq<Descriptor>)
    ensures |out| <= |ds|
  {
    if ds == [] then []
    else RuntimeOnly(ds[..|ds| - 1]) + if Runtime(ds[|ds| - 1]) then [ds[|ds| - 1]] else []
  }

  /** What the pass copies out for SetVirtualAddressMap. */
  function RuntimeMap(c: Config, ds: seq<Descriptor>): seq<Descriptor> {
    if c.novamap then [] else RuntimeOnly(Assigned(c, ds))
  }

  lemma {:induction false} RuntimeKept(c: Config, ds: seq<Descriptor>)
    ensures |RuntimeOnly(Assigned(c, ds))| == |RuntimeOnly(ds)|
  {
    if ds != [] {
      var front := ds[..|ds| - 1];
      RuntimeKept(c, front);
      assert Assigned(c, ds)[..|ds| - 1] == Assigned(c, front);
    }
  }

  lemma {:induction false} AssignedAt(c: Config, ds: seq<Descriptor>, i: nat)
    requires i < |ds|
    ensures Assigned(c, ds)[i] == Mapped(c, ds[i], NextBase(ds[..i]))
  {
    var front := ds[..|ds| - 1];
    if i < |front| {
      AssignedAt(c, front, i);
      assert front[..i] == ds[..i];
    }
  }

  lemma AssignedNext(c: Config, ds: seq<Descriptor>, d: Descriptor)
    ensures Assigned(c, ds + [d]) == Assigned(c, ds) + [Mapped(c, d, NextBase(ds))]
  {
    hide Mapped, NextBase;
    assert (ds + [d])[..|ds|] == ds;
  }

  lemma RuntimeOnlyNext(ds: seq<Descriptor>, d: Descriptor)
    ensures RuntimeOnly(ds + [d]) == RuntimeOnly(ds) + if Runtime(d) then [d] else []
  {
    assert (ds + [d])[..|ds|] == ds;
  }

  lemma NextBaseNext(ds: seq<Descriptor>, d: Descriptor)
    ensures NextBase(ds + [d]) == if Runtime(d) then Wrap(Slot(d, NextBase(ds)) + PaddedSize(d)) else NextBase(ds)
  {
    hide Slot, PaddedSize, Wrap;
    assert (ds + [d])[..|ds|] == ds;
  }

  /** One more descriptor. */
  lemma OneMore(c: Config, ds: seq<Descriptor>, d: Descriptor)
    ensures var placed := Mapped(c, d, NextBase(ds));
      && Assigned(c, ds + [d]) == Assigned(c, ds) + [placed]
      && RuntimeMap(c, ds + [d]) == RuntimeMap(c, ds) + if Runtime(d) && !c.novamap then [placed] else []
    ensures NextBase(ds + [d]) == if Runtime(d) then Wrap(Slot(d, NextBase(ds)) + PaddedSize(d)) else NextBase(ds)
  {
    hide Assigned, RuntimeOnly, NextBase, Mapped, Slot, PaddedSize, Wrap, Runtime;
    MappedKeeps(c, d, NextBase(ds));
    AssignedNext(c, ds, d);
    RuntimeOnlyNext(Assigned(c, ds), Mapped(c, d, NextBase(ds)));
    NextBaseNext(ds, d);
  }

  lemma MappedKeeps(c: Config, d: Descriptor, base: u64)
    ensures Runtime(Mapped(c, d, base)) == Runtime(d)
    ensures !Runtime(d) ==> Mapped(c, d, base) == d
    ensures Runtime(d) && c.novamap ==> Mapped(c, d, base) == d.(virtualStart := Wrap(d.physicalStart + c.offset))
    ensures !c.Windowed() ==> Mapped(c, d, base) == Mapped(c, d, 0)
  {
  }

  /** The arithmetic for one runtime descriptor: the new descriptor and the next free address. */
  method Place(c: Config, d: Descriptor, base: u64) returns (placed: Descriptor, next: u64)
    requires Runtime(d)
    ensures placed == Mapped(c, d, base)
    ensures c.Windowed() ==> next == Wrap(Slot(d, base) + PaddedSize(d))
  {
    hide Wrap, AlignDown, RoundUp, NextBase;
    var paddr := d.physicalStart;
    var size := Wrap(d.numberOfPages * EFI_PAGE_SIZE);
    placed := d.(virtualStart := Wrap(d.physicalStart + c.offset));
    next := base;
    if !c.novamap && c.offset == 0 {
      paddr := AlignDown(d.physicalStart, SZ_64K);
      size := Wrap(size + (d.physicalStart - paddr));
      if d.physicalStart % SZ_2M == 0 && size >= SZ_2M {
        next := RoundUp(next, SZ_2M);
      } else {
        next := RoundUp(next, SZ_64K);
      }
      WrapAdd(d.physicalStart + c.offset, next - paddr);
      placed := placed.(virtualStart := Wrap(placed.virtualStart + (next - paddr)));
      next := Wrap(next + size);
    }
  }

  lemma EmptyMap(c: Config, ds: seq<Descriptor>)
    ensures NextBase(ds[..0]) == VIRTMAP_BASE && RuntimeMap(c, ds[..0]) == []
  {
  }

  /** The pass over descriptor `l` appends to what it copied for those before, as in the whole map. */
  lemma {:induction false} RuntimeMapAt(c: Config, ds: seq<Descriptor>, l: nat)
    requires l < |ds|
    ensures var n := |RuntimeMap(c, ds[..l])|;
      && n <= |RuntimeMap(c, ds)|
      && |RuntimeMap(c, ds[..l + 1])| == n + (if Runtime(ds[l]) && !c.novamap then 1 else 0) <= |RuntimeMap(c, ds)|
      && (Runtime(ds[l]) && !c.novamap ==> RuntimeMap(c, ds)[n] == Mapped(c, ds[l], NextBase(ds[..l])))
    ensures NextBase(ds[..l + 1])
         == if Runtime(ds[l]) then Wrap(Slot(ds[l], NextBase(ds[..l])) + PaddedSize(ds[l])) else NextBase(ds[..l])
  {
    hide *;
    var front := ds[..|ds| - 1];
    assert ds == front + [ds[|ds| - 1]];
    OneMore(c, front, ds[|ds| - 1]);
    if l < |front| {
      assert front[..l] == ds[..l] && front[..l + 1] == ds[..l + 1];
      RuntimeMapAt(c, front, l);
    } else {
      assert front == ds[..l] && ds[..l + 1] == ds;
    }
  }

  /** After each of the descriptors, no more of them were copied than read. */
  ghost predicate CursorBehind(c: Config, ds: seq<Descriptor>) {
    forall l: nat | l <= |ds| :: |RuntimeMap(c, ds[..l])| <= l
  }

  lemma CopiesLag(c: Config, ds: seq<Descriptor>)
    ensures CursorBehind(c, ds)
  {
  }

  // ----- which descriptors take part, by the top bit of their attributes

  /** How many of the descriptors have bit 63 of the attributes set. */
  function TopBits(ds: seq<Descriptor>): nat {
    if ds == [] then 0
    else TopBits(ds[..|ds| - 1]) + if ds[|ds| - 1].attribute >= 0x8000_0000_0000_0000 then 1 else 0
  }

  lemma {:induction false} CountIsTopBits(ds: seq<Descriptor>)
    ensures |RuntimeOnly(ds)| == TopBits(ds)
    ensures forall d | d in RuntimeOnly(ds) :: d.attribute >= 0x8000_0000_0000_0000
  {
    if ds != [] {
      CountIsTopBits(ds[..|ds| - 1]);
    }
  }

  lemma AssignedPrefix(c: Config, ds: seq<Descriptor>, i: nat)
    requires i <= |ds|
    ensures TopBits(Assigned(c, ds[..i])) == TopBits(ds[..i])
  {
    RuntimeKept(c, ds[..i]);
    CountIsTopBits(ds[..i]);
    CountIsTopBits(Assigned(c, ds[..i]));
  }

  /** As many descriptors are copied as have the bit, each of these has it, and nothing is under novamap. */
  lemma CopiedHaveBit(c: Config, ds: seq<Descriptor>)
    ensures |RuntimeMap(c, ds)| == if c.novamap then 0 else TopBits(ds)
    ensures forall d | d in RuntimeMap(c, ds) :: d.attribute >= 0x8000_0000_0000_0000
  {
    hide Assigned, RuntimeOnly, TopBits;
    assert ds[..|ds|] == ds;
    AssignedPrefix(c, ds, |ds|);
    CountIsTopBits(Assigned(c, ds));
  }

  /** MAIN: a descriptor without the bit stays as it is, one with the bit changes in its virtual address only,
      and its new form is copied behind those of the descriptors with the bit before it. */
  lemma BitDecides(c: Config, ds: seq<Descriptor>, i: nat)
    requires i < |ds|
    ensures ds[i].attribute < 0x8000_0000_0000_0000 ==> Assigned(c, ds)[i] == ds[i]
    ensures Assigned(c, ds)[i] == ds[i].(virtualStart := Assigned(c, ds)[i].virtualStart)
    ensures ds[i].attribute >= 0x8000_0000_0000_0000 && !c.novamap ==>
      && TopBits(ds[..i]) < |RuntimeMap(c, ds)|
      && RuntimeMap(c, ds)[TopBits(ds[..i])] == Assigned(c, ds)[i]
  {
    hide Assigned, RuntimeOnly, RuntimeMap, TopBits, NextBase, Slot, PaddedSize, Wrap, AlignDown;
    AssignedAt(c, ds, i);
    RuntimeMapAt(c, ds, i);
    CopiedHaveBit(c, ds[..i]);
  }

  /** MAIN: the pass leaves the specified map, and the copied entries never get ahead of the read ones. Where
      the second map has no room left the code writes on behind it, and the model writes nothing. */
  method GetVirtmap(c: Config, memoryMap: array<Descriptor>, size: nat, runtimeMap: array<Descriptor>)
    returns (count: nat)
    requires memoryMap != runtimeMap && size <= memoryMap.Length
    modifies memoryMap, runtimeMap
    ensures memoryMap[..size] == Assigned(c, old(memoryMap[..size]))
    ensures forall k | size <= k < memoryMap.Length :: memoryMap[k] == old(memoryMap[k])
    ensures count == |RuntimeMap(c, old(memoryMap[..size]))| <= size && CursorBehind(c, old(memoryMap[..size]))
    ensures count <= runtimeMap.Length ==> runtimeMap[..count] == RuntimeMap(c, old(memoryMap[..size]))
    ensures forall k | 0 <= k < runtimeMap.Length ::
      runtimeMap[k] == if k < count then RuntimeMap(c, old(memoryMap[..size]))[k] else old(runtimeMap[k])
    ensures count == if c.novamap then 0 else TopBits(old(memoryMap[..size]))
    ensures forall k | 0 <= k < count && k < runtimeMap.Length :: runtimeMap[k].attribute >= 0x8000_0000_0000_0000
    ensures forall i | 0 <= i < size && old(memoryMap[i]).attribute < 0x8000_0000_0000_0000 ::
      memoryMap[i] == old(memoryMap[i])
    ensures forall i | 0 <= i < size && old(memoryMap[i]).attribute >= 0x8000_0000_0000_0000 && !c.novamap ::
      var k := TopBits(old(memoryMap[..size])[..i]);
      k < count && (k < runtimeMap.Length ==> runtimeMap[k] == memoryMap[i])
  {
    hide *;
    ghost var ds := memoryMap[..size];
    ghost var copied := RuntimeMap(c, ds);
    CopiesLag(c, ds);
    EmptyMap(c, ds);
    var virtBase := VIRTMAP_BASE;
    count := 0;
    for l := 0 to size
      invariant c.Windowed() ==> virtBase == NextBase(ds[..l])
      invariant forall k | 0 <= k < l :: memoryMap[k] == Mapped(c, ds[k], NextBase(ds[..k]))
      invariant forall k | l <= k < memoryMap.Length :: memoryMap[k] == old(memoryMap[k])
      invariant count == |RuntimeMap(c, ds[..l])| && count <= |copied| && count <= l
      invariant forall k | 0 <= k < count && k < runtimeMap.Length :: runtimeMap[k] == copied[k]
      invariant forall k | count <= k < runtimeMap.Length :: runtimeMap[k] == old(runtimeMap[k])
    {
      var d := memoryMap[l];
      RuntimeMapAt(c, ds, l);
      MappedKeeps(c, d, NextBase(ds[..l]));
      MappedKeeps(c, d, virtBase);
      if Runtime(d) {
        memoryMap[l], virtBase := Place(c, d, virtBase);
        if !c.novamap {
          if count < runtimeMap.Length {
            runtimeMap[count] := memoryMap[l];
          }
          count := count + 1;
        }
      }
    }
    assert ds[..size] == ds;
    forall k | 0 <= k < size ensures memoryMap[k] == Assigned(c, ds)[k] {
      AssignedAt(c, ds, k);
    }
    CopiedHaveBit(c, ds);
    forall i | 0 <= i < size
      ensures ds[i].attribute < 0x8000_0000_0000_0000 ==> memoryMap[i] == ds[i]
      ensures ds[i].attribute >= 0x8000_0000_0000_0000 && !c.novamap ==>
        var k := TopBits(ds[..i]); k < count && (k < runtimeMap.Length ==> runtimeMap[k] == memoryMap[i])
    {
      BitDecides(c, ds, i);
    }
  }

  // ----- what the map is good for

  /** Filling the gap to the next granule costs less than this per region. */
  const WASTE: nat := SZ_64K + SZ_2M

  /** A bound on the end of the window: the base, the regions, and the rounding. */
  function Budget(ds: seq<Descriptor>): nat {
    if ds == [] then 0x2000_0000
    else
      var d := ds[|ds| - 1];
      Budget(ds[..|ds| - 1]) + if d.attribute >= 0x8000_0000_0000_0000 then d.numberOfPages * 0x1000 + 0x21_0000 else 0
  }

  function RegionStart(ds: seq<Descriptor>, i: nat): u64
    requires i < |ds|
  {
    Assigned(Config(0, false), ds)[i].virtualStart
  }

  function RegionEnd(ds: seq<Descriptor>, i: nat): nat
    requires i < |ds|
  {
    RegionStart(ds, i) + ds[i].numberOfPages * 0x1000
  }

  /** The boundary a region asks for: a section for a section-aligned region of a section or more. */
  function Boundary(d: Descriptor): nat {
    if d.physicalStart % 0x20_0000 == 0 && d.numberOfPages * 0x1000 >= 0x20_0000 then 0x20_0000 else 0x1_0000
  }

  lemma GranulesDivide()
    ensures DividesWord(SZ_64K) && DividesWord(SZ_2M)
  {
  }

  lemma PaddedExactly(d: Descriptor)
    requires Length(d) + WASTE < TWO64
    ensures PaddedSize(d) == Length(d) + d.physicalStart % 0x1_0000
    ensures d.physicalStart - AlignDown(d.physicalStart, SZ_64K) == d.physicalStart % 0x1_0000 < SZ_64K
  {
  }

  lemma SlotIsCeiling(d: Descriptor, base: u64)
    requires base + WASTE < TWO64
    ensures Slot(d, base) == Ceiling(base, Granule(d))
    ensures base <= Slot(d, base) < base + SZ_2M && Slot(d, base) % 0x1_0000 == 0
    ensures Ceiling(base, SZ_64K) <= Slot(d, base)
    ensures Granule(d) == SZ_2M ==> Slot(d, base) % 0x20_0000 == 0
  {
    hide RoundUp, Ceiling, Granule;
    GranulesDivide();
    GranuleCases(d);
    RoundUpIsCeiling(base, Granule(d));
    SectionIsPages(Slot(d, base));
    CeilingLeast(base, SZ_64K, Slot(d, base));
  }

  lemma GranuleCases(d: Descriptor)
    ensures Granule(d) == SZ_2M || Granule(d) == SZ_64K
  {
    hide PaddedSize;
  }

  lemma SectionIsPages(x: nat)
    ensures x % 0x20_0000 == 0 ==> x % 0x1_0000 == 0
  {
    var q := x / 0x20_0000;
    if x == 0x20_0000 * q {
      RemainderUnique(x, 0x1_0000, 32 * q, 0);
    }
  }

  lemma OffsetKept(slot: nat, p: nat)
    requires slot % 0x1_0000 == 0
    ensures (slot + p % 0x1_0000) % 0x1_0000 == p % 0x1_0000
    ensures p % 0x20_0000 == 0 && slot % 0x20_0000 == 0 ==> (slot + p % 0x1_0000) % 0x20_0000 == 0
  {
  }

  lemma SectionsGetSections(d: Descriptor)
    requires Length(d) + WASTE < TWO64
    ensures Granule(d) == Boundary(d)
  {
    hide PaddedSize, AlignDown;
    PaddedExactly(d);
    SectionIsPages(d.physicalStart);
  }

  /** One region: it starts in its slot, as far above a 64 KiB boundary as in physical memory, and the
      next free address is its end. */
  lemma OnePlacement(d: Descriptor, base: u64)
    requires base + Length(d) + WASTE < TWO64
    ensures var slot := Slot(d, base); var v := slot + d.physicalStart % 0x1_0000;
      && Wrap(d.physicalStart + (slot - AlignDown(d.physicalStart, SZ_64K))) == v
      && Wrap(slot + PaddedSize(d)) == v + d.numberOfPages * 0x1000 <= base + Length(d) + WASTE
  {
    hide Slot, PaddedSize, AlignDown, Wrap;
    PaddedExactly(d);
    SlotIsCeiling(d, base);
    WrapSmall(Slot(d, base) + d.physicalStart % 0x1_0000);
    WrapSmall(Slot(d, base) + PaddedSize(d));
  }

  /** The regions before and after one more descriptor. */
  lemma BudgetNext(ds: seq<Descriptor>, d: Descriptor)
    ensures Budget(ds + [d]) == Budget(ds) + if Runtime(d) then Length(d) + WASTE else 0
  {
    assert (ds + [d])[..|ds|] == ds;
  }

  lemma {:induction false} BudgetGrows(ds: seq<Descriptor>, k: nat)
    requires k <= |ds|
    ensures VIRTMAP_BASE <= Budget(ds[..k]) <= Budget(ds)
  {
    hide Runtime, Length;
    if k == |ds| {
      assert ds[..k] == ds;
      if ds != [] {
        BudgetGrows(ds[..|ds| - 1], |ds| - 1);
      }
    } else {
      assert ds[..|ds| - 1][..k] == ds[..k];
      BudgetGrows(ds[..|ds| - 1], k);
    }
  }

  /** The next free address never decreases and stays within the budget. */
  lemma {:induction false} BaseBounds(ds: seq<Descriptor>)
    requires Budget(ds) < TWO64
    ensures VIRTMAP_BASE <= NextBase(ds) <= Budget(ds)
    ensures forall k | 0 <= k <= |ds| :: NextBase(ds[..k]) <= NextBase(ds)
  {
    hide Slot, PaddedSize, Wrap;
    if ds == [] {
      assert ds[..0] == ds;
    } else {
      var front, d := ds[..|ds| - 1], ds[|ds| - 1];
      BudgetGrows(ds, |front|);
      BaseBounds(front);
      if Runtime(d) {
        SlotIsCeiling(d, NextBase(front));
        OnePlacement(d, NextBase(front));
      }
      forall k | 0 <= k <= |ds| ensures NextBase(ds[..k]) <= NextBase(ds) {
        if k < |ds| {
          assert front[..k] == ds[..k];
        } else {
          assert ds[..k] == ds;
        }
      }
    }
  }

  /** MAIN: where a runtime region lands: above 512 MiB, at its physical offset in a 64 KiB page, on a
      section boundary if it is a section-aligned region of a section or more, inside the budget. */
  lemma RegionPlaced(ds: seq<Descriptor>, i: nat)
    requires Budget(ds) < TWO64 && i < |ds| && ds[i].attribute >= 0x8000_0000_0000_0000
    ensures RegionStart(ds, i) >= 0x2000_0000
    ensures RegionStart(ds, i) % 0x1_0000 == ds[i].physicalStart % 0x1_0000
    ensures ds[i].physicalStart % 0x20_0000 == 0 && ds[i].numberOfPages * 0x1000 >= 0x20_0000 ==>
      RegionStart(ds, i) % 0x20_0000 == 0
    ensures RegionEnd(ds, i) == NextBase(ds[..i + 1]) <= NextBase(ds) <= Budget(ds)
    ensures Ceiling(NextBase(ds[..i]), 0x1_0000) <= RegionStart(ds, i) - RegionStart(ds, i) % 0x1_0000
    ensures RegionStart(ds, i) == Ceiling(NextBase(ds[..i]), Boundary(ds[i])) + ds[i].physicalStart % 0x1_0000
  {
    hide NextBase, Assigned, Slot, PaddedSize, AlignDown, Wrap, Budget, Ceiling, Length, Granule;
    var d, base := ds[i], NextBase(ds[..i]);
    AssignedAt(Config(0, false), ds, i);
    assert ds[..i + 1] == ds[..i] + [d];
    BudgetNext(ds[..i], d);
    OneMore(Config(0, false), ds[..i], d);
    BudgetGrows(ds, i);
    BudgetGrows(ds, i + 1);
    BaseBounds(ds[..i]);
    BaseBounds(ds);
    OnePlacement(d, base);
    SlotIsCeiling(d, base);
    SectionsGetSections(d);
    OffsetKept(Slot(d, base), d.physicalStart);
  }

  /** MAIN: of two runtime regions the later lies above the earlier, and they share no 64 KiB page. */
  lemma RegionsApart(ds: seq<Descriptor>, i: nat, j: nat)
    requires Budget(ds) < TWO64 && i < j < |ds|
    requires ds[i].attribute >= 0x8000_0000_0000_0000 && ds[j].attribute >= 0x8000_0000_0000_0000
    ensures Ceiling(RegionEnd(ds, i), 0x1_0000) <= RegionStart(ds, j) - RegionStart(ds, j) % 0x1_0000
  {
    hide *;
    BudgetGrows(ds, j);
    BaseBounds(ds[..j]);
    assert ds[..j][..i + 1] == ds[..i + 1];
    RegionPlaced(ds, i);
    RegionPlaced(ds, j);
    CeilingMonotone(NextBase(ds[..i + 1]), NextBase(ds[..j]), 0x1_0000);
  }

  /** No descriptor from `from` up to `to` has the bit. */
  predicate NoRegions(ds: seq<Descriptor>, from: nat, to: nat)
    requires to <= |ds|
  {
    forall k | from <= k < to :: ds[k].attribute < 0x8000_0000_0000_0000
  }

  lemma {:induction false} BaseStays(ds: seq<Descriptor>, from: nat, to: nat)
    requires from <= to <= |ds| && NoRegions(ds, from, to)
    ensures NextBase(ds[..to]) == NextBase(ds[..from])
  {
    hide NextBase, Slot, PaddedSize, Wrap;
    if from < to {
      assert ds[..to] == ds[..to - 1] + [ds[to - 1]];
      NextBaseNext(ds[..to - 1], ds[to - 1]);
      BaseStays(ds, from, to - 1);
    }
  }

  /** MAIN: the window has no gaps but for rounding: a runtime region starts at the first boundary it asks for
      behind the end of the runtime region before it, the first one behind 512 MiB. */
  lemma RegionFollows(ds: seq<Descriptor>, i: nat, j: nat)
    requires Budget(ds) < TWO64 && j < |ds| && ds[j].attribute >= 0x8000_0000_0000_0000
    ensures NoRegions(ds, 0, j) ==> RegionStart(ds, j) == 0x2000_0000 + ds[j].physicalStart % 0x1_0000
    ensures i < j && ds[i].attribute >= 0x8000_0000_0000_0000 && NoRegions(ds, i + 1, j) ==>
      RegionStart(ds, j) == Ceiling(RegionEnd(ds, i), Boundary(ds[j])) + ds[j].physicalStart % 0x1_0000
  {
    hide Budget, NextBase, RegionStart, RegionEnd, Ceiling, NoRegions;
    RegionPlaced(ds, j);
    if NoRegions(ds, 0, j) {
      BaseStays(ds, 0, j);
      FirstBase(ds, Boundary(ds[j]));
    }
    if i < j && ds[i].attribute >= 0x8000_0000_0000_0000 && NoRegions(ds, i + 1, j) {
      RegionPlaced(ds, i);
      BaseStays(ds, i + 1, j);
    }
  }

  lemma FirstBase(ds: seq<Descriptor>, boundary: nat)
    requires boundary == 0x20_0000 || boundary == 0x1_0000
    ensures Ceiling(NextBase(ds[..0]), boundary) == 0x2000_0000
  {
    hide Ceiling;
    CeilingUnique(0x2000_0000, boundary, 0x2000_0000);
  }

  /** MAIN: a flat mapping, or novamap, moves every runtime region by the one offset, modulo 2^64. */
  lemma FlatRegion(c: Config, ds: seq<Descriptor>, i: nat)
    requires c.novamap || c.offset != 0
    requires i < |ds| && ds[i].attribute >= 0x8000_0000_0000_0000
    ensures Assigned(c, ds)[i]
         == ds[i].(virtualStart := (ds[i].physicalStart + c.offset) % 0x1_0000_0000_0000_0000)
  {
    hide Assigned, NextBase, Slot, AlignDown;
    AssignedAt(c, ds, i);
  }

  lemma MappedTwice(c: Config, d: Descriptor, base: u64)
    ensures var placed := Mapped(c, d, base);
      && Mapped(c, placed, base) == placed && Runtime(placed) == Runtime(d)
      && Slot(placed, base) == Slot(d, base) && PaddedSize(placed) == PaddedSize(d)
  {
    hide Wrap, RoundUp, AlignDown;
  }

  lemma IdempotentStep(c: Config, ds: seq<Descriptor>)
    requires ds != []
    requires var front := ds[..|ds| - 1];
      && Assigned(c, Assigned(c, front)) == Assigned(c, front)
      && NextBase(Assigned(c, front)) == NextBase(front)
    ensures Assigned(c, Assigned(c, ds)) == Assigned(c, ds)
    ensures NextBase(Assigned(c, ds)) == NextBase(ds)
  {
    hide *;
    var front, d := ds[..|ds| - 1], ds[|ds| - 1];
    assert ds == front + [d];
    OneMore(c, front, d);
    OneMore(c, Assigned(c, front), Mapped(c, d, NextBase(front)));
    MappedTwice(c, d, NextBase(front));
  }

  /** MAIN: running the pass again on its own output changes nothing, wrap-around or not. */
  lemma {:induction false} PassIsIdempotent(c: Config, ds: seq<Descriptor>)
    ensures Assigned(c, Assigned(c, ds)) == Assigned(c, ds)
    ensures RuntimeMap(c, Assigned(c, ds)) == RuntimeMap(c, ds)
    ensures NextBase(Assigned(c, ds)) == NextBase(ds)
  {
    if ds != [] {
      PassIsIdempotent(c, ds[..|ds| - 1]);
      IdempotentStep(c, ds);
    }
  }

  /** MAIN: under novamap nothing is copied and every runtime region keeps its physical address. */
  lemma NovamapIsIdentity(ds: seq<Descriptor>, i: nat)
    requires i < |ds|
    ensures RuntimeMap(Config(0, true), ds) == []
    ensures Assigned(Config(0, true), ds)[i]
         == if ds[i].attribute >= 0x8000_0000_0000_0000 then ds[i].(virtualStart := ds[i].physicalStart) else ds[i]
  {
    hide Assigned, RuntimeOnly, NextBase;
    AssignedAt(Config(0, true), ds, i);
  }
}
