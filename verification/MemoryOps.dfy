/**
 Byte copying of lib/init.c: memset, memcpy and memmove on the machine's memory, a function from 64-bit
 addresses to bytes. A block is a start and a length; it may reach around the end of memory, where
 addresses go on from 0, except for memmove.
 */
module MemoryOps {
  import opened Word64
  import opened Pages

  /** `a` is one of the `n` bytes from `start` on, counting around the end of memory. */
  predicate InBlock(a: u64, start: u64, n: u64) {
    start <= a < start + n || a + TWO64 < start + n
  }

  /** Everything but the `n` bytes from `dst` on is as before. */
  ghost predicate Outside(before: u64 -> byte, after: u64 -> byte, dst: u64, n: u64) {
    forall a: u64 | !InBlock(a, dst, n) :: after(a) == before(a)
  }

  /** The `n` bytes from `dst` on are those that were at `src`. */
  ghost predicate Copied(before: u64 -> byte, after: u64 -> byte, dst: u64, src: u64, n: u64) {
    dst + n <= TWO64 && src + n <= TWO64 ==> forall a: u64 | dst <= a < dst + n :: after(a) == before(a - dst + src)
  }

  ghost predicate Filled(mem: u64 -> byte, dst: u64, c: byte, n: u64) {
    forall a: u64 | InBlock(a, dst, n) :: mem(a) == c
  }

  method Store(m: Machine, a: u64, v: byte)
    modifies m`mem
    ensures m.mem(a) == v
    ensures forall b: u64 | b != a :: m.mem(b) == old(m.mem)(b)
  {
    var mem := m.mem;
    m.mem := (b: u64) => if b == a then v else mem(b);
  }

  method Memset(m: Machine, dst: u64, c: byte, n: u64)
    modifies m`mem
    ensures Outside(old(m.mem), m.mem, dst, n) && Filled(m.mem, dst, c, n)
  {
    var k: nat := 0;
    while k < n
      invariant k <= n
      invariant Outside(old(m.mem), m.mem, dst, k) && Filled(m.mem, dst, c, k)
    {
      BlockNext(dst, k);
      Store(m, Wrap(dst + k), c);
      k := k + 1;
    }
  }

  lemma BlockNext(start: u64, k: u64)
    requires k < UINT64_MAX
    ensures forall a: u64 :: InBlock(a, start, k + 1) <==> InBlock(a, start, k) || a == Wrap(start + k)
  {
    hide InBlock, Wrap;
    forall a: u64 ensures InBlock(a, start, k + 1) <==> InBlock(a, start, k) || a == Wrap(start + k) {
      ByteNext(a, start, k);
    }
  }

  lemma ByteNext(a: u64, start: u64, k: u64)
    requires k < UINT64_MAX
    ensures InBlock(a, start, k + 1) <==> InBlock(a, start, k) || a == Wrap(start + k)
  {
    hide Wrap;
    WrapSum(start, k);
  }

  /** Copying upwards is right unless the destination starts inside the source. */
  method Memcpy(m: Machine, dst: u64, src: u64, n: u64)
    modifies m`mem
    ensures Outside(old(m.mem), m.mem, dst, n)
    ensures dst <= src || src + n <= dst ==> Copied(old(m.mem), m.mem, dst, src, n)
  {
    hide Wrap;
    var k: nat := 0;
    while k < n
      invariant k <= n
      invariant Outside(old(m.mem), m.mem, dst, k)
      invariant dst + n <= TWO64 && src + n <= TWO64 && (dst <= src || src + n <= dst) ==>
        forall a: u64 | dst <= a < dst + k :: m.mem(a) == old(m.mem)(a - dst + src)
    {
      BlockNext(dst, k);
      WrapSum(dst, k);
      WrapSum(src, k);
      Store(m, Wrap(dst + k), m.mem(Wrap(src + k)));
      k := k + 1;
    }
  }

  /** MAIN: memmove copies whatever the overlap. */
  method Memmove(m: Machine, dst: u64, src: u64, size: u64)
    requires dst + size <= TWO64 && src + size <= TWO64
    modifies m`mem
    ensures Outside(old(m.mem), m.mem, dst, size)
    ensures Copied(old(m.mem), m.mem, dst, src, size)
  {
    if size == 0 {
      return;
    }
    if dst <= src {
      Memcpy(m, dst, src, size);
      return;
    }
    var k: nat := size;
    while k > 0
      invariant k <= size
      invariant Outside(old(m.mem), m.mem, dst, size)
      invariant forall a: u64 | a < dst + k :: m.mem(a) == old(m.mem)(a)
      invariant forall a: u64 | dst + k <= a < dst + size :: m.mem(a) == old(m.mem)(a - dst + src)
    {
      k := k - 1;
      Store(m, dst + k, m.mem(src + k));
    }
  }
}
