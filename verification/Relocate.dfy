/**
 Self-relocation (gnuefi/reloc_riscv64.c, gnuefi/reloc_x86_64.c): the dynamic table leads to a table of
 relocations, which store the load address plus an addend or add the load address.
 */
module Relocate {
  import opened Word64
  import opened Wrappers

  datatype Status = Success | LoadError

  const DT_NULL: nat := 0
  const DT_RELA: nat := 7
  const DT_RELASZ: nat := 8
  const DT_RELAENT: nat := 9
  const R_RISCV_RELATIVE: nat := 3
  const R_X86_64_RELATIVE: nat := 8

  // ----- words in memory, an array of bytes whose indices are the addresses

  function ByteOf(v: nat, i: nat): byte {
    if i == 0 then v % 256 else ByteOf(v / 256, i - 1)
  }

  function Load(b: seq<byte>, a: nat, n: nat): nat
    requires a + n <= |b|
    decreases n
  {
    if n == 0 then 0
    else
      var low: nat := b[a];
      low + 256 * Load(b, a + 1, n - 1)
  }

  function Limit(n: nat): nat {
    if n == 0 then 1 else 256 * Limit(n - 1)
  }

  lemma {:induction false} LoadBytes(b: seq<byte>, a: nat, n: nat, v: nat)
    requires a + n <= |b| && v < Limit(n) && forall i: nat | i < n :: b[a + i] == ByteOf(v, i)
    ensures Load(b, a, n) == v
    decreases n
  {
    if n > 0 {
      forall i: nat | i < n - 1 ensures b[a + 1 + i] == ByteOf(v / 256, i) {
        assert b[a + (i + 1)] == ByteOf(v, i + 1);
      }
      LoadBytes(b, a + 1, n - 1, v / 256);
      assert b[a + 0] == ByteOf(v, 0);
    }
  }

  lemma {:induction false} LoadBounded(b: seq<byte>, a: nat, n: nat)
    requires a + n <= |b|
    ensures Load(b, a, n) < Limit(n)
    decreases n
  {
    if n > 0 {
      LoadBounded(b, a + 1, n - 1);
    }
  }

  /** Equal words have equal bytes. */
  lemma {:induction false} LoadInjective(b: seq<byte>, c: seq<byte>, a: nat, n: nat, i: nat)
    requires a + n <= |b| && a + n <= |c| && Load(b, a, n) == Load(c, a, n) && i < n
    ensures b[a + i] == c[a + i]
    decreases n
  {
    if i > 0 {
      LoadInjective(b, c, a + 1, n - 1, i - 1);
    }
  }

  lemma {:induction false} LoadSame(b: seq<byte>, c: seq<byte>, a: nat, n: nat)
    requires a + n <= |b| && a + n <= |c| && b[a..a + n] == c[a..a + n]
    ensures Load(b, a, n) == Load(c, a, n)
    decreases n
  {
    if n > 0 {
      assert b[a] == b[a..a + n][0] && c[a] == c[a..a + n][0];
      assert b[a + 1..a + n] == b[a..a + n][1..] && c[a + 1..a + n] == c[a..a + n][1..];
      LoadSame(b, c, a + 1, n - 1);
    }
  }

  lemma WordLimit()
    ensures Limit(8) == TWO64
  {
    assert Limit(4) == 0x1_0000_0000;
  }

  function Load64(b: seq<byte>, a: nat): u64
    requires a + 8 <= |b|
  {
    LoadBounded(b, a, 8);
    WordLimit();
    Load(b, a, 8)
  }

  /** `*addr = v`. */
  method Store64(m: array<byte>, a: nat, v: u64)
    requires a + 8 <= m.Length
    modifies m
    ensures Load64(m[..], a) == v
    ensures forall i | 0 <= i < m.Length && !(a <= i < a + 8) :: m[i] == old(m[i])
  {
    forall i | 0 <= i < 8 {
      m[a + i] := ByteOf(v, i);
    }
    WordLimit();
    LoadBytes(m[..], a, 8, v);
  }

  // ----- the relocation table

  /** A table of `count` entries, each `step` bytes behind the one before and read up to `width` bytes;
      `relative` is the type of the relocations that are applied, and `stores` their form. */
  datatype Table = Table(ldbase: u64, rel: nat, step: nat, count: nat, width: nat, relative: nat, stores: bool)

  function EntryAt(t: Table, k: nat): nat {
    t.rel + k * t.step
  }

  /** All entries can be read. */
  predicate Readable(b: seq<byte>, t: Table) {
    t.width >= (if t.stores then 24 else 16) && forall k: nat | k < t.count :: EntryAt(t, k) + t.width <= |b|
  }

  predicate Relative(b: seq<byte>, t: Table, k: nat)
    requires Readable(b, t) && k < t.count
  {
    Load64(b, EntryAt(t, k) + 8) % 0x1_0000_0000 == t.relative
  }

  function Target(b: seq<byte>, t: Table, k: nat): u64
    requires Readable(b, t) && k < t.count
  {
    Wrap(t.ldbase + Load64(b, EntryAt(t, k)))
  }

  function Addend(b: seq<byte>, t: Table, k: nat): u64
    requires Readable(b, t) && k < t.count && t.width >= 24
  {
    Load64(b, EntryAt(t, k) + 16)
  }

  predicate Disjoint(p: nat, m: nat, q: nat, n: nat) {
    p + m <= q || q + n <= p
  }

  /** Targets lie in memory, apart from the table and from each other. */
  predicate Apart(b: seq<byte>, t: Table) {
    Readable(b, t)
    && (forall k: nat | k < t.count && Relative(b, t, k) :: Target(b, t, k) + 8 <= |b|)
    && (forall k: nat, j: nat | k < t.count && j < t.count && Relative(b, t, k) ::
      Disjoint(Target(b, t, k), 8, EntryAt(t, j), t.width))
    && (forall k: nat, j: nat | k < t.count && j < t.count && k != j && Relative(b, t, k) && Relative(b, t, j) ::
      Disjoint(Target(b, t, k), 8, Target(b, t, j), 8))
  }

  /** What entry `k` is to leave in its target. */
  function Value(b: seq<byte>, t: Table, k: nat): u64
    requires Apart(b, t) && k < t.count && Relative(b, t, k)
  {
    if t.stores then Wrap(t.ldbase + Addend(b, t, k)) else Wrap(Load64(b, Target(b, t, k)) + t.ldbase)
  }

  /** The byte at `a` belongs to a target among the first `n` entries. */
  ghost predicate Hit(b: seq<byte>, t: Table, n: nat, a: int)
    requires Readable(b, t) && n <= t.count
  {
    exists k: nat | k < n :: Relative(b, t, k) && Target(b, t, k) <= a < Target(b, t, k) + 8
  }

  /** The first `n` entries of `b` are applied in `c`, and nothing else is changed. */
  ghost predicate Applied(b: seq<byte>, c: seq<byte>, t: Table, n: nat)
    requires Apart(b, t) && n <= t.count
  {
    |c| == |b|
    && (forall k: nat | k < n && Relative(b, t, k) :: Load64(c, Target(b, t, k)) == Value(b, t, k))
    && (forall a | 0 <= a < |b| && !Hit(b, t, n, a) :: c[a] == b[a])
  }

  ghost predicate Relocated(b: seq<byte>, c: seq<byte>, t: Table)
    requires Apart(b, t)
  {
    Applied(b, c, t, t.count)
  }

  lemma Load64Same(b: seq<byte>, c: seq<byte>, a: nat)
    requires a + 8 <= |b| && a + 8 <= |c| && forall i | a <= i < a + 8 :: c[i] == b[i]
    ensures Load64(c, a) == Load64(b, a)
  {
    assert b[a..a + 8] == c[a..a + 8];
    LoadSame(b, c, a, 8);
  }

  lemma WordInjective(b: seq<byte>, c: seq<byte>, a: nat, i: nat)
    requires a + 8 <= |b| && a + 8 <= |c| && Load64(b, a) == Load64(c, a) && a <= i < a + 8
    ensures b[i] == c[i]
  {
    LoadInjective(b, c, a, 8, i - a);
  }

  /** The table itself is never written. */
  lemma EntryKept(b: seq<byte>, c: seq<byte>, t: Table, n: nat, k: nat, off: nat)
    requires Apart(b, t) && n <= t.count && Applied(b, c, t, n) && k < t.count && off + 8 <= t.width
    ensures Load64(c, EntryAt(t, k) + off) == Load64(b, EntryAt(t, k) + off)
  {
    hide EntryAt, Target, Load64, Relative;
    var a := EntryAt(t, k) + off;
    forall i | a <= i < a + 8 ensures c[i] == b[i] {
      forall j: nat | j < n && Relative(b, t, j) ensures !(Target(b, t, j) <= i < Target(b, t, j) + 8) {
        assert Disjoint(Target(b, t, j), 8, EntryAt(t, k), t.width);
      }
    }
    Load64Same(b, c, a);
  }

  /** Nor is a target before its turn. */
  lemma TargetKept(b: seq<byte>, c: seq<byte>, t: Table, n: nat)
    requires Apart(b, t) && n < t.count && Applied(b, c, t, n) && Relative(b, t, n)
    ensures Load64(c, Target(b, t, n)) == Load64(b, Target(b, t, n))
  {
    hide EntryAt, Target, Load64, Relative;
    var a := Target(b, t, n);
    forall i | a <= i < a + 8 ensures c[i] == b[i] {
      forall j: nat | j < n && Relative(b, t, j) ensures !(Target(b, t, j) <= i < Target(b, t, j) + 8) {
        assert Disjoint(a, 8, Target(b, t, j), 8);
      }
    }
    Load64Same(b, c, a);
  }

  lemma StoreStep(b: seq<byte>, c: seq<byte>, d: seq<byte>, t: Table, n: nat)
    requires Apart(b, t) && n < t.count && Applied(b, c, t, n) && Relative(b, t, n)
    requires |d| == |c| && Load64(d, Target(b, t, n)) == Value(b, t, n)
    requires forall i | 0 <= i < |c| && !(Target(b, t, n) <= i < Target(b, t, n) + 8) :: d[i] == c[i]
    ensures Applied(b, d, t, n + 1)
  {
    hide EntryAt, Target, Load64, Relative, Value;
    var at := Target(b, t, n);
    forall k: nat | k < n + 1 && Relative(b, t, k) ensures Load64(d, Target(b, t, k)) == Value(b, t, k) {
      if k < n {
        assert Disjoint(at, 8, Target(b, t, k), 8);
        Load64Same(c, d, Target(b, t, k));
      }
    }
    forall a | 0 <= a < |b| && !Hit(b, t, n + 1, a) ensures d[a] == b[a] {
      assert !Hit(b, t, n, a);
    }
  }

  lemma SkipStep(b: seq<byte>, c: seq<byte>, t: Table, n: nat)
    requires Apart(b, t) && n < t.count && Applied(b, c, t, n) && !Relative(b, t, n)
    ensures Applied(b, c, t, n + 1)
  {
    hide EntryAt, Target, Load64, Relative, Value;
    forall a | 0 <= a < |b| && !Hit(b, t, n + 1, a) ensures c[a] == b[a] {
      assert !Hit(b, t, n, a);
    }
  }

  /** The outcome is determined by the memory before. */
  lemma RelocatedUnique(b: seq<byte>, c: seq<byte>, d: seq<byte>, t: Table)
    requires Apart(b, t) && Relocated(b, c, t) && Relocated(b, d, t)
    ensures c == d
  {
    hide EntryAt, Target, Relative, Value, Load64;
    forall a | 0 <= a < |b| ensures c[a] == d[a] {
      if Hit(b, t, t.count, a) {
        var k: nat :| k < t.count && Relative(b, t, k) && Target(b, t, k) <= a < Target(b, t, k) + 8;
        WordInjective(c, d, Target(b, t, k), a);
      }
    }
  }

  /** After a run, the table reads as before. */
  lemma TableKept(b: seq<byte>, c: seq<byte>, t: Table)
    requires Apart(b, t) && Relocated(b, c, t)
    ensures Apart(c, t)
    ensures forall k: nat | k < t.count :: Relative(c, t, k) == Relative(b, t, k) && Target(c, t, k) == Target(b, t, k)
    ensures t.stores ==> forall k: nat | k < t.count :: Addend(c, t, k) == Addend(b, t, k)
  {
    hide EntryAt, Load64;
    forall k: nat | k < t.count
      ensures Relative(c, t, k) == Relative(b, t, k) && Target(c, t, k) == Target(b, t, k)
      ensures t.stores ==> Addend(c, t, k) == Addend(b, t, k)
    {
      EntryKept(b, c, t, t.count, k, 0);
      EntryKept(b, c, t, t.count, k, 8);
      if t.stores {
        EntryKept(b, c, t, t.count, k, 16);
      }
    }
  }

  /** MAIN: the storing form is idempotent: a second run changes nothing. */
  lemma StoringTwice(b: seq<byte>, c: seq<byte>, d: seq<byte>, t: Table)
    requires t.stores && Apart(b, t) && Relocated(b, c, t)
    ensures Apart(c, t) && (Relocated(c, d, t) ==> d == c)
  {
    hide EntryAt, Target, Load64, Relative, Addend;
    TableKept(b, c, t);
    assert Relocated(c, c, t);
    if Relocated(c, d, t) {
      RelocatedUnique(c, d, c, t);
    }
  }

  /** MAIN: both forms come to the same exactly when every target of the adding form holds its addend. */
  lemma FormsAgree(b: seq<byte>, c: seq<byte>, t: Table)
    requires t.stores && Apart(b, t) && Relocated(b, c, t)
    ensures Apart(b, t.(stores := false))
    ensures Relocated(b, c, t.(stores := false))
      <==> forall k: nat | k < t.count && Relative(b, t, k) :: Load64(b, Target(b, t, k)) == Addend(b, t, k)
  {
    hide EntryAt, Load64, Target, Relative, Value, Addend;
    var s := t.(stores := false);
    FieldsAgree(b, t);
    assert Apart(b, s);
    assert forall a | 0 <= a < |b| :: Hit(b, s, s.count, a) == Hit(b, t, t.count, a);
    forall k: nat | k < t.count && Relative(b, t, k)
      ensures Value(b, s, k) == Value(b, t, k) <==> Load64(b, Target(b, t, k)) == Addend(b, t, k)
    {
      ValuesAgree(b, t, k);
    }
  }

  lemma ValuesAgree(b: seq<byte>, t: Table, k: nat)
    requires t.stores && Apart(b, t) && Apart(b, t.(stores := false)) && k < t.count && Relative(b, t, k)
    requires var s := t.(stores := false); Relative(b, s, k) && Target(b, s, k) == Target(b, t, k)
    ensures Value(b, t.(stores := false), k) == Value(b, t, k) <==> Load64(b, Target(b, t, k)) == Addend(b, t, k)
  {
    hide EntryAt, Load64, Target, Relative, Addend;
    SameShift(Addend(b, t, k), Load64(b, Target(b, t, k)), t.ldbase);
  }

  lemma SameShift(x: u64, y: u64, l: u64)
    ensures Wrap(l + x) == Wrap(y + l) <==> x == y
  {
  }

  lemma FieldsAgree(b: seq<byte>, t: Table)
    requires t.stores && Readable(b, t)
    ensures var s := t.(stores := false);
      Readable(b, s) && forall k: nat | k < t.count ::
        EntryAt(s, k) == EntryAt(t, k) && Relative(b, s, k) == Relative(b, t, k) && Target(b, s, k) == Target(b, t, k)
  {
    hide Load64;
    var s := t.(stores := false);
    forall k: nat | k < t.count ensures EntryAt(s, k) == EntryAt(t, k) && EntryAt(t, k) + t.width <= |b| {
    }
  }

  lemma WrapShift(x: u64, l: u64)
    ensures Wrap(Wrap(x + l) + l) == Wrap(x + 2 * l) && (Wrap(x + l) == x <==> l == 0)
  {
  }

  lemma Changed(b: seq<byte>, c: seq<byte>, a: nat)
    requires a + 8 <= |b| && a + 8 <= |c| && Load64(b, a) != Load64(c, a)
    ensures b != c
  {
  }

  /** MAIN: the adding form is idempotent only for images loaded at zero, or without relocations. */
  lemma AddingTwice(b: seq<byte>, c: seq<byte>, d: seq<byte>, t: Table)
    requires !t.stores && Apart(b, t) && Relocated(b, c, t) && Apart(c, t) && Relocated(c, d, t)
    ensures forall k: nat | k < t.count && Relative(b, t, k) ::
      Load64(d, Target(b, t, k)) == Wrap(Load64(b, Target(b, t, k)) + 2 * t.ldbase)
    ensures d == c <==> t.ldbase == 0 || forall k: nat | k < t.count :: !Relative(b, t, k)
  {
    hide EntryAt, Load64, Wrap, Target, Relative;
    TableKept(b, c, t);
    forall k: nat | k < t.count && Relative(b, t, k)
      ensures Load64(d, Target(b, t, k)) == Wrap(Load64(b, Target(b, t, k)) + 2 * t.ldbase)
      ensures Load64(d, Target(b, t, k)) == Wrap(Load64(c, Target(b, t, k)) + t.ldbase)
    {
      assert Load64(c, Target(b, t, k)) == Value(b, t, k);
      assert Load64(d, Target(c, t, k)) == Value(c, t, k);
      WrapShift(Load64(b, Target(b, t, k)), t.ldbase);
    }
    if k: nat :| k < t.count && Relative(b, t, k) && t.ldbase != 0 {
      WrapShift(Load64(c, Target(b, t, k)), t.ldbase);
      Changed(c, d, Target(b, t, k));
    } else {
      Again(b, c, d, t);
    }
  }

  lemma Again(b: seq<byte>, c: seq<byte>, d: seq<byte>, t: Table)
    requires !t.stores && Apart(b, t) && Relocated(b, c, t) && Apart(c, t) && Relocated(c, d, t)
    requires t.ldbase == 0 || forall k: nat | k < t.count :: !Relative(b, t, k)
    ensures d == c
  {
    hide EntryAt, Load64, Target, Relative;
    TableKept(b, c, t);
    assert Relocated(c, c, t);
    RelocatedUnique(c, d, c, t);
  }

  // ----- the dynamic table

  /** Tag and value of entry `i`. */
  function TagAt(b: seq<byte>, dyn: nat, i: nat): u64
    requires dyn + 16 * i + 8 <= |b|
  {
    Load64(b, dyn + 16 * i)
  }

  function ValueAt(b: seq<byte>, dyn: nat, i: nat): u64
    requires dyn + 16 * i + 16 <= |b|
  {
    Load64(b, dyn + 16 * i + 8)
  }

  /** A dynamic table of `n` entries before its DT_NULL. */
  predicate Dynamic(b: seq<byte>, dyn: nat, n: nat) {
    n < 0x8000_0000 && dyn + 16 * n + 8 <= |b| <= TWO64 && TagAt(b, dyn, n) == 0
    && forall i: nat | i < n :: TagAt(b, dyn, i) != 0
  }

  /** The last value under a tag among the first `n` entries. */
  function LastOf(b: seq<byte>, dyn: nat, n: nat, tag: nat): Option<u64>
    requires dyn + 16 * n <= |b|
  {
    if n == 0 then None
    else if TagAt(b, dyn, n - 1) == tag then Some(ValueAt(b, dyn, n - 1))
    else LastOf(b, dyn, n - 1, tag)
  }

  function OrZero(v: Option<u64>): u64 {
    if v.Some? then v.value else 0
  }

  /** The address of the relocation table; 0 is the null pointer. */
  function RelAddress(v: Option<u64>, ldbase: u64): u64 {
    if v.Some? then Wrap(v.value + ldbase) else 0
  }

  /** The first loop of _relocate. */
  method ScanDynamic(m: array<byte>, ldbase: u64, dyn: nat, ghost n: nat) returns (rel: u64, relsz: int, relent: int)
    requires Dynamic(m[..], dyn, n)
    ensures rel == RelAddress(LastOf(m[..], dyn, n, DT_RELA), ldbase)
    ensures relsz == ToInt64(OrZero(LastOf(m[..], dyn, n, DT_RELASZ)))
    ensures relent == ToInt64(OrZero(LastOf(m[..], dyn, n, DT_RELAENT)))
  {
    hide Load64, Wrap, ToInt64;
    rel, relsz, relent := 0, 0, 0;
    ZeroInt64();
    var i := 0;
    while Load64(m[..], dyn + 16 * i) != DT_NULL
      invariant 0 <= i <= n
      invariant rel == RelAddress(LastOf(m[..], dyn, i, DT_RELA), ldbase)
      invariant relsz == ToInt64(OrZero(LastOf(m[..], dyn, i, DT_RELASZ)))
      invariant relent == ToInt64(OrZero(LastOf(m[..], dyn, i, DT_RELAENT)))
      decreases n - i
    {
      assert i != n;
      var tag, val := Load64(m[..], dyn + 16 * i), Load64(m[..], dyn + 16 * i + 8);
      if tag == DT_RELA {
        rel := Wrap(val + ldbase);
      } else if tag == DT_RELASZ {
        relsz := ToInt64(val);
      } else if tag == DT_RELAENT {
        relent := ToInt64(val);
      }
      i := i + 1;
    }
    assert TagAt(m[..], dyn, i) == DT_NULL;
  }

  lemma ZeroInt64()
    ensures ToInt64(0) == 0
  {
  }

  // ----- the relocation loop

  /** How often the loop runs: a last entry that `relsz` covers in part counts. */
  function Count(relsz: int, relent: nat): nat
    requires relent > 0
    decreases if relsz < 0 then 0 else relsz
  {
    if relsz <= 0 then 0 else 1 + Count(relsz - relent, relent)
  }

  lemma {:induction false} CountCovers(relsz: int, relent: nat)
    requires relent > 0
    ensures relsz > 0 ==> (Count(relsz, relent) - 1) * relent < relsz <= Count(relsz, relent) * relent
    ensures relsz <= 0 ==> Count(relsz, relent) == 0
    decreases if relsz < 0 then 0 else relsz
  {
    if relsz > 0 {
      CountCovers(relsz - relent, relent);
    }
  }

  /** The tables that the dynamic table at `dyn` describes. */
  function TableOf(b: seq<byte>, ldbase: u64, dyn: nat, n: nat, width: nat, relative: nat, stores: bool): Table
    requires Dynamic(b, dyn, n) && ToInt64(OrZero(LastOf(b, dyn, n, DT_RELAENT))) > 0
  {
    var relent := ToInt64(OrZero(LastOf(b, dyn, n, DT_RELAENT)));
    Table(ldbase, RelAddress(LastOf(b, dyn, n, DT_RELA), ldbase), relent,
          Count(ToInt64(OrZero(LastOf(b, dyn, n, DT_RELASZ))), relent), width, relative, stores)
  }

  /** What _relocate expects of its image: entry sizes are not negative, and a complete description leads
      to a table with targets apart. */
  predicate Relocatable(b: seq<byte>, ldbase: u64, dyn: nat, n: nat, width: nat, relative: nat, stores: bool)
    requires Dynamic(b, dyn, n)
  {
    var relent := ToInt64(OrZero(LastOf(b, dyn, n, DT_RELAENT)));
    relent >= 0
    && (relent > 0 && RelAddress(LastOf(b, dyn, n, DT_RELA), ldbase) != 0 ==>
      Apart(b, TableOf(b, ldbase, dyn, n, width, relative, stores)))
  }

  /** Status and memory after _relocate. */
  ghost predicate Outcome(status: Status, b: seq<byte>, c: seq<byte>, ldbase: u64, dyn: nat, n: nat, width: nat,
                          relative: nat, stores: bool)
    requires Dynamic(b, dyn, n) && Relocatable(b, ldbase, dyn, n, width, relative, stores)
  {
    var rel, relent := RelAddress(LastOf(b, dyn, n, DT_RELA), ldbase), OrZero(LastOf(b, dyn, n, DT_RELAENT));
    if rel == 0 && relent == 0 then status == Success && c == b
    else if rel == 0 || relent == 0 then status == LoadError && c == b
    else status == Success && Relocated(b, c, TableOf(b, ldbase, dyn, n, width, relative, stores))
  }

  /** One entry of the riscv64 table: `*addr = ldbase + addend`. */
  method StoreEntry(m: array<byte>, ldbase: u64, rel: nat, ghost b: seq<byte>, ghost t: Table, ghost k: nat)
    requires Apart(b, t) && t.stores && t.relative == R_RISCV_RELATIVE && t.ldbase == ldbase
    requires k < t.count && rel == EntryAt(t, k) && rel + 24 <= m.Length && Applied(b, m[..], t, k)
    modifies m
    ensures Applied(b, m[..], t, k + 1)
  {
    hide Load64, EntryAt, Wrap;
    ghost var c := m[..];
    EntryKept(b, c, t, k, k, 0);
    EntryKept(b, c, t, k, k, 8);
    EntryKept(b, c, t, k, k, 16);
    if Load64(m[..], rel + 8) % 0x1_0000_0000 == R_RISCV_RELATIVE {
      var addr := Wrap(ldbase + Load64(m[..], rel));
      Store64(m, addr, Wrap(ldbase + Load64(m[..], rel + 16)));
      StoreStep(b, c, m[..], t, k);
    } else {
      SkipStep(b, c, t, k);
    }
  }

  /** One entry of the x86_64 table: `*addr += ldbase`. */
  method AddEntry(m: array<byte>, ldbase: u64, rel: nat, ghost b: seq<byte>, ghost t: Table, ghost k: nat)
    requires Apart(b, t) && !t.stores && t.relative == R_X86_64_RELATIVE && t.ldbase == ldbase
    requires k < t.count && rel == EntryAt(t, k) && rel + 16 <= m.Length && Applied(b, m[..], t, k)
    modifies m
    ensures Applied(b, m[..], t, k + 1)
  {
    hide Load64, EntryAt, Wrap;
    ghost var c := m[..];
    EntryKept(b, c, t, k, k, 0);
    EntryKept(b, c, t, k, k, 8);
    if Load64(m[..], rel + 8) % 0x1_0000_0000 == R_X86_64_RELATIVE {
      TargetKept(b, c, t, k);
      var addr := Wrap(ldbase + Load64(m[..], rel));
      Store64(m, addr, Wrap(Load64(m[..], addr) + ldbase));
      StoreStep(b, c, m[..], t, k);
    } else {
      SkipStep(b, c, t, k);
    }
  }

  lemma NoneApplied(b: seq<byte>, t: Table)
    requires Apart(b, t)
    ensures Applied(b, b, t, 0)
  {
  }

  lemma EntryFits(b: seq<byte>, t: Table, k: nat)
    requires Apart(b, t) && k < t.count
    ensures EntryAt(t, k) + t.width <= |b| && t.width >= 16 && (t.stores ==> t.width >= 24)
  {
  }

  lemma EntryNext(t: Table, k: nat, b: seq<byte>)
    requires Apart(b, t) && |b| <= TWO64
    ensures k + 1 < t.count ==> Wrap(EntryAt(t, k) + t.step) == EntryAt(t, k + 1)
  {
    assert EntryAt(t, k + 1) == EntryAt(t, k) + t.step;
    if k + 1 < t.count {
      assert EntryAt(t, k + 1) + t.width <= |b|;
    }
  }

  lemma EntryFirst(t: Table)
    ensures EntryAt(t, 0) == t.rel
  {
  }

  /** MAIN: _relocate for riscv64. */
  method RelocateRiscv64(m: array<byte>, ldbase: u64, dyn: nat, ghost n: nat) returns (status: Status)
    requires Dynamic(m[..], dyn, n) && Relocatable(m[..], ldbase, dyn, n, 24, 3, true)
    modifies m
    ensures Outcome(status, old(m[..]), m[..], ldbase, dyn, n, 24, 3, true)
  {
    hide Load64, EntryAt, Wrap, ToInt64, Apart, Applied, LastOf;
    var rel, relsz, relent := ScanDynamic(m, ldbase, dyn, n);
    ZeroInt64Only(OrZero(LastOf(m[..], dyn, n, DT_RELAENT)));
    if rel == 0 && relent == 0 {
      return Success;
    }
    if rel == 0 || relent == 0 {
      return LoadError;
    }
    ghost var b, t := m[..], TableOf(m[..], ldbase, dyn, n, 24, R_RISCV_RELATIVE, true);
    ghost var k := 0;
    NoneApplied(b, t);
    EntryFirst(t);
    while relsz > 0
      invariant k + Count(relsz, relent) == t.count && Applied(b, m[..], t, k)
      invariant k < t.count ==> rel == EntryAt(t, k)
      decreases relsz
    {
      EntryFits(b, t, k);
      StoreEntry(m, ldbase, rel, b, t, k);
      EntryNext(t, k, b);
      rel := Wrap(rel + relent);
      relsz := relsz - relent;
      k := k + 1;
    }
    status := Success;
  }

  /** MAIN: _relocate for x86_64. */
  method RelocateX8664(m: array<byte>, ldbase: u64, dyn: nat, ghost n: nat) returns (status: Status)
    requires Dynamic(m[..], dyn, n) && Relocatable(m[..], ldbase, dyn, n, 16, 8, false)
    modifies m
    ensures Outcome(status, old(m[..]), m[..], ldbase, dyn, n, 16, 8, false)
  {
    hide Load64, EntryAt, Wrap, ToInt64, Apart, Applied, LastOf;
    var rel, relsz, relent := ScanDynamic(m, ldbase, dyn, n);
    ZeroInt64Only(OrZero(LastOf(m[..], dyn, n, DT_RELAENT)));
    if rel == 0 && relent == 0 {
      return Success;
    }
    if rel == 0 || relent == 0 {
      return LoadError;
    }
    ghost var b, t := m[..], TableOf(m[..], ldbase, dyn, n, 16, R_X86_64_RELATIVE, false);
    ghost var k := 0;
    NoneApplied(b, t);
    EntryFirst(t);
    while relsz > 0
      invariant k + Count(relsz, relent) == t.count && Applied(b, m[..], t, k)
      invariant k < t.count ==> rel == EntryAt(t, k)
      decreases relsz
    {
      EntryFits(b, t, k);
      AddEntry(m, ldbase, rel, b, t, k);
      EntryNext(t, k, b);
      rel := Wrap(rel + relent);
      relsz := relsz - relent;
      k := k + 1;
    }
    status := Success;
  }

  lemma ZeroInt64Only(x: u64)
    ensures ToInt64(x) == 0 <==> x == 0
  {
  }
}
