/**
 What self-relocation leaves in memory (gnuefi/reloc_riscv64.c, gnuefi/reloc_x86_64.c), from the bytes of the
 image alone: tags, field offsets and relocation types as the ELF specification numbers them.
 */
module RelocateLaws {
  import opened Word64
  import opened Wrappers
  import opened Relocate

  /** Words are little-endian. */
  lemma WordIs(b: seq<byte>, a: nat)
    requires a + 8 <= |b|
    ensures Load64(b, a) == b[a] as int + 0x100 * b[a + 1] as int + 0x1_0000 * b[a + 2] as int
      + 0x100_0000 * b[a + 3] as int + 0x1_0000_0000 * b[a + 4] as int + 0x100_0000_0000 * b[a + 5] as int
      + 0x1_0000_0000_0000 * b[a + 6] as int + 0x100_0000_0000_0000 * b[a + 7] as int
  {
    assert Load(b, a + 4, 4) == b[a + 4] as int + 0x100 * b[a + 5] as int + 0x1_0000 * b[a + 6] as int
      + 0x100_0000 * b[a + 7] as int;
    assert Load(b, a, 8) == b[a] as int + 0x100 * b[a + 1] as int + 0x1_0000 * b[a + 2] as int
      + 0x100_0000 * b[a + 3] as int + 0x1_0000_0000 * Load(b, a + 4, 4);
  }

  /** Entry `i` of the dynamic table is the last of the `n` with this tag. */
  predicate LastTag(b: seq<byte>, dyn: nat, n: nat, tag: nat, i: nat)
    requires dyn + 16 * n <= |b|
  {
    i < n && Load64(b, dyn + 16 * i) == tag && forall j: nat | i < j < n :: Load64(b, dyn + 16 * j) != tag
  }

  predicate NoTag(b: seq<byte>, dyn: nat, n: nat, tag: nat)
    requires dyn + 16 * n <= |b|
  {
    forall j: nat | j < n :: Load64(b, dyn + 16 * j) != tag
  }

  lemma {:induction false} LastIs(b: seq<byte>, dyn: nat, n: nat, tag: nat, i: nat)
    requires dyn + 16 * n <= |b|
    ensures LastTag(b, dyn, n, tag, i) ==> LastOf(b, dyn, n, tag) == Some(Load64(b, dyn + 16 * i + 8))
    ensures NoTag(b, dyn, n, tag) ==> LastOf(b, dyn, n, tag) == None
    decreases n
  {
    hide Load64;
    if n > 0 {
      LastIs(b, dyn, n - 1, tag, i);
    }
  }

  /** The last value under the tag, 0 without one. */
  predicate Says(b: seq<byte>, dyn: nat, n: nat, tag: nat, value: u64)
    requires dyn + 16 * n <= |b|
  {
    || (NoTag(b, dyn, n, tag) && value == 0)
    || exists i: nat | i < n :: LastTag(b, dyn, n, tag, i) && value == Load64(b, dyn + 16 * i + 8)
  }

  lemma SaysLast(b: seq<byte>, dyn: nat, n: nat, tag: nat, value: u64)
    requires dyn + 16 * n <= |b| && Says(b, dyn, n, tag, value)
    ensures OrZero(LastOf(b, dyn, n, tag)) == value
  {
    hide Load64, LastOf;
    if NoTag(b, dyn, n, tag) && value == 0 {
      LastIs(b, dyn, n, tag, 0);
    } else {
      var i: nat :| i < n && LastTag(b, dyn, n, tag, i) && value == Load64(b, dyn + 16 * i + 8);
      LastIs(b, dyn, n, tag, i);
    }
  }

  lemma SmallCount(relsz: nat, relent: nat, k: nat)
    requires relent > 0 && k * relent < relsz
    ensures k < Count(relsz, relent)
  {
    CountCovers(relsz, relent);
    TimesOrdered(Count(relsz, relent), k, relent);
  }

  lemma TimesOrdered(x: int, y: int, d: nat)
    ensures x <= y ==> x * d <= y * d
  {
    assert (y - x) * d == y * d - x * d;
  }

  lemma AsSigned(x: u64)
    requires x < 0x8000_0000_0000_0000
    ensures ToInt64(x) == x
  {
  }

  /** Where the image says its relocations are: the last DT_RELA is entry `i` of the dynamic table, and they take
      `relsz` bytes, `relent` each. */
  predicate Described(b: seq<byte>, ldbase: u64, dyn: nat, n: nat, i: nat, rel: u64, relsz: u64, relent: u64)
    requires Dynamic(b, dyn, n)
  {
    && LastTag(b, dyn, n, 7, i) && rel == (Load64(b, dyn + 16 * i + 8) + ldbase) % 0x1_0000_0000_0000_0000
    && Says(b, dyn, n, 8, relsz) && Says(b, dyn, n, 9, relent)
    && relsz < 0x8000_0000_0000_0000 && relent < 0x8000_0000_0000_0000
  }

  lemma TableIs(b: seq<byte>, ldbase: u64, dyn: nat, n: nat, i: nat, rel: u64, relsz: u64, relent: u64,
                width: nat, relative: nat, stores: bool)
    requires Dynamic(b, dyn, n) && Described(b, ldbase, dyn, n, i, rel, relsz, relent)
    ensures RelAddress(LastOf(b, dyn, n, DT_RELA), ldbase) == rel
    ensures OrZero(LastOf(b, dyn, n, DT_RELAENT)) == relent == ToInt64(OrZero(LastOf(b, dyn, n, DT_RELAENT)))
    ensures relent > 0 ==>
      var t := TableOf(b, ldbase, dyn, n, width, relative, stores);
      t == Table(ldbase, rel, relent, Count(relsz, relent), width, relative, stores)
  {
    hide Load64, LastOf, ToInt64, Says, Count;
    LastIs(b, dyn, n, 7, i);
    SaysLast(b, dyn, n, 8, relsz);
    SaysLast(b, dyn, n, 9, relent);
    AsSigned(relsz);
    AsSigned(relent);
  }

  /** MAIN: on riscv64 every entry of type 3 that DT_RELASZ covers has its target, the load address plus its
      offset, hold the load address plus its addend. */
  lemma Riscv64Stores(status: Status, b: seq<byte>, c: seq<byte>, ldbase: u64, dyn: nat, n: nat,
                      i: nat, rel: u64, relsz: u64, relent: u64, k: nat)
    requires Dynamic(b, dyn, n) && Relocatable(b, ldbase, dyn, n, 24, 3, true)
    requires Outcome(status, b, c, ldbase, dyn, n, 24, 3, true)
    requires Described(b, ldbase, dyn, n, i, rel, relsz, relent) && rel != 0 && relent > 0 && k * relent < relsz
    ensures status == Success && |c| == |b| && rel + k * relent + 24 <= |b|
    ensures var entry := rel + k * relent;
      var target := (ldbase + Load64(b, entry)) % 0x1_0000_0000_0000_0000;
      Load64(b, entry + 8) % 0x1_0000_0000 == 3 ==>
        && target + 8 <= |b|
        && Load64(c, target) == (ldbase + Load64(b, entry + 16)) % 0x1_0000_0000_0000_0000
  {
    hide Load64, LastOf, ToInt64, Described, Count;
    TableIs(b, ldbase, dyn, n, i, rel, relsz, relent, 24, 3, true);
    SmallCount(relsz, relent, k);
    var t := TableOf(b, ldbase, dyn, n, 24, 3, true);
    assert EntryAt(t, k) == rel + k * relent;
    EntryFits(b, t, k);
    if Load64(b, rel + k * relent + 8) % 0x1_0000_0000 == 3 {
      assert Relative(b, t, k);
      assert Load64(c, Target(b, t, k)) == Value(b, t, k);
    }
  }

  /** MAIN: on x86_64 the target of every entry of type 8 holds the load address more than before. */
  lemma X8664Adds(status: Status, b: seq<byte>, c: seq<byte>, ldbase: u64, dyn: nat, n: nat,
                  i: nat, rel: u64, relsz: u64, relent: u64, k: nat)
    requires Dynamic(b, dyn, n) && Relocatable(b, ldbase, dyn, n, 16, 8, false)
    requires Outcome(status, b, c, ldbase, dyn, n, 16, 8, false)
    requires Described(b, ldbase, dyn, n, i, rel, relsz, relent) && rel != 0 && relent > 0 && k * relent < relsz
    ensures status == Success && |c| == |b| && rel + k * relent + 16 <= |b|
    ensures var entry := rel + k * relent;
      var target := (ldbase + Load64(b, entry)) % 0x1_0000_0000_0000_0000;
      Load64(b, entry + 8) % 0x1_0000_0000 == 8 ==>
        && target + 8 <= |b|
        && Load64(c, target) == (Load64(b, target) + ldbase) % 0x1_0000_0000_0000_0000
  {
    hide Load64, LastOf, ToInt64, Described, Count;
    TableIs(b, ldbase, dyn, n, i, rel, relsz, relent, 16, 8, false);
    SmallCount(relsz, relent, k);
    var t := TableOf(b, ldbase, dyn, n, 16, 8, false);
    assert EntryAt(t, k) == rel + k * relent;
    EntryFits(b, t, k);
    if Load64(b, rel + k * relent + 8) % 0x1_0000_0000 == 8 {
      assert Relative(b, t, k);
      assert Load64(c, Target(b, t, k)) == Value(b, t, k);
    }
  }

  /** The byte at `a` belongs to the target of entry `k`, of type `typ`. */
  predicate InTarget(b: seq<byte>, ldbase: u64, entry: nat, typ: nat, a: nat) {
    && entry + 16 <= |b| && Load64(b, entry + 8) % 0x1_0000_0000 == typ
    && var target := (ldbase + Load64(b, entry)) % 0x1_0000_0000_0000_0000; target <= a < target + 8
  }

  /** A run of _relocate on `b`, in the form for riscv64 or for x86_64, left `status` and `c`. */
  ghost predicate Ran(status: Status, b: seq<byte>, c: seq<byte>, ldbase: u64, dyn: nat, n: nat, riscv64: bool) {
    && Dynamic(b, dyn, n)
    && if riscv64 then Relocatable(b, ldbase, dyn, n, 24, 3, true) && Outcome(status, b, c, ldbase, dyn, n, 24, 3, true)
       else Relocatable(b, ldbase, dyn, n, 16, 8, false) && Outcome(status, b, c, ldbase, dyn, n, 16, 8, false)
  }

  /** MAIN: no other byte changes: what is in no target of such an entry stays. */
  lemma OthersStay(status: Status, b: seq<byte>, c: seq<byte>, ldbase: u64, dyn: nat, n: nat,
                   i: nat, rel: u64, relsz: u64, relent: u64, riscv64: bool, a: nat)
    requires Dynamic(b, dyn, n) && Described(b, ldbase, dyn, n, i, rel, relsz, relent) && rel != 0 && relent > 0
    requires Ran(status, b, c, ldbase, dyn, n, riscv64)
    requires a < |b| && a < |c|
    requires forall k: nat | k * relent < relsz ::
      !InTarget(b, ldbase, rel + k * relent, if riscv64 then 3 else 8, a)
    ensures c[a] == b[a]
  {
    hide Load64, LastOf, ToInt64, Described, Count;
    var width, typ := if riscv64 then 24 else 16, if riscv64 then 3 else 8;
    TableIs(b, ldbase, dyn, n, i, rel, relsz, relent, width, typ, riscv64);
    var t := TableOf(b, ldbase, dyn, n, width, typ, riscv64);
    forall k: nat | k < t.count && Relative(b, t, k) ensures !(Target(b, t, k) <= a < Target(b, t, k) + 8) {
      CoveredCount(relsz, relent, k);
      EntryFits(b, t, k);
      assert EntryAt(t, k) == rel + k * relent;
    }
  }

  lemma CoveredCount(relsz: nat, relent: nat, k: nat)
    requires relent > 0 && k < Count(relsz, relent)
    ensures k * relent < relsz
  {
    CountCovers(relsz, relent);
    TimesOrdered(k, Count(relsz, relent) - 1, relent);
  }

  /** MAIN: an image without DT_RELA and DT_RELAENT needs no relocation, one with only one of them is refused, and
      neither changes. An address that adds up to 0 counts as missing. */
  lemma IncompleteTable(status: Status, b: seq<byte>, c: seq<byte>, ldbase: u64, dyn: nat, n: nat, relent: u64,
                        riscv64: bool)
    requires Dynamic(b, dyn, n) && Says(b, dyn, n, 9, relent) && relent < 0x8000_0000_0000_0000
    requires Ran(status, b, c, ldbase, dyn, n, riscv64)
    ensures NoTag(b, dyn, n, 7) ==> c == b && status == if relent == 0 then Success else LoadError
    ensures forall i: nat | i < n && LastTag(b, dyn, n, 7, i) ::
      var rel := (Load64(b, dyn + 16 * i + 8) + ldbase) % 0x1_0000_0000_0000_0000;
      && (rel == 0 || relent == 0 ==> c == b && status == if rel == relent then Success else LoadError)
      && (rel != 0 && relent != 0 ==> status == Success)
  {
    hide Load64, LastOf, ToInt64, Says, Count, Apart, Applied;
    SaysLast(b, dyn, n, 9, relent);
    LastIs(b, dyn, n, 7, 0);
    forall i: nat | i < n && LastTag(b, dyn, n, 7, i)
      ensures var rel := (Load64(b, dyn + 16 * i + 8) + ldbase) % 0x1_0000_0000_0000_0000;
        RelAddress(LastOf(b, dyn, n, DT_RELA), ldbase) == rel
    {
      LastIs(b, dyn, n, 7, i);
    }
  }
}
