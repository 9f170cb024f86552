/** The address blocks of IPv4 prefixes. The filter compares a source
    address against `addr & ~mask` and `addr | mask` with
    `mask = 0xffffffff >> prefix_length` (nhrp/sysdep_pfpacket.c:87-99);
    these bit operations are written here in their arithmetic form, over a
    block of `2^(32 - prefix_length)` addresses. */
module Prefixes {
  import opened Bytes

  /** 2 to the power `k`. */
  function Pow2(k: nat): (r: nat)
    ensures r > 0
  {
    if k == 0 then 1 else 2 * Pow2(k - 1)
  }

  lemma {:induction false} Pow2Add(a: nat, b: nat)
    ensures Pow2(a + b) == Pow2(a) * Pow2(b)
    decreases a
  {
    if a > 0 {
      Pow2Add(a - 1, b);
    }
  }

  lemma Pow2Of32()
    ensures Pow2(32) == 0x1_0000_0000
  {
    assert Pow2(2) == 4;
    Pow2Add(2, 2);
    assert Pow2(4) == 16;
    Pow2Add(4, 4);
    assert Pow2(8) == 256;
    Pow2Add(8, 8);
    assert Pow2(16) == 0x1_0000;
    Pow2Add(16, 16);
  }

  /** The number of host bits of a prefix. Prefixes longer than 32 bits
      leave none. */
  function HostBits(prefix: nat): nat
  {
    if prefix >= 32 then 0 else 32 - prefix
  }

  /** The number of addresses a prefix covers: one more than the mask. */
  function HostSpan(prefix: nat): (r: nat)
    ensures r > 0
  {
    Pow2(HostBits(prefix))
  }

  /** `0xffffffff >> prefix_length`, the host bits of a prefix. */
  function Mask(prefix: nat): nat
  {
    HostSpan(prefix) - 1
  }

  lemma DivMod(a: nat, s: nat)
    requires s > 0
    ensures a == (a / s) * s + a % s && 0 <= a % s < s && a / s >= 0
  {
  }

  lemma MulMono(a: nat, b: nat, s: nat)
    requires a <= b
    ensures a * s <= b * s
  {
  }

  lemma MulSucc(q: nat, s: nat)
    ensures (q + 1) * s == q * s + s
  {
  }

  lemma MulLess(q: nat, n: nat, s: nat)
    requires s > 0 && q * s < n * s
    ensures q + 1 <= n
  {
    if q >= n {
      MulMono(n, q, s);
    }
  }

  /** The blocks of a prefix tile the 32-bit address space. */
  lemma BlocksTile(prefix: nat)
    ensures Pow2(32 - HostBits(prefix)) * HostSpan(prefix) == 0x1_0000_0000
  {
    Pow2Add(32 - HostBits(prefix), HostBits(prefix));
    Pow2Of32();
  }

  /** The block of `s` values holding `a` ends within `n` blocks when `a`
      does. */
  lemma BlockFits(a: nat, s: nat, n: nat)
    requires s > 0 && a < n * s
    ensures 0 <= a - a % s && a - a % s + s <= n * s
  {
    var q := a / s;
    assert a == q * s + a % s && 0 <= a % s < s by {
      DivMod(a, s);
    }
    MulLess(q, n, s);
    MulMono(q + 1, n, s);
    MulSucc(q, s);
  }

  /** Both ends of an address's block lie in the 32-bit range. */
  lemma BlockBounds(addr: u32, prefix: nat)
    ensures var s := HostSpan(prefix);
      0 <= addr - addr % s && addr - addr % s + s - 1 < 0x1_0000_0000
  {
    var s, n := HostSpan(prefix), Pow2(32 - HostBits(prefix));
    BlocksTile(prefix);
    BlockFits(addr, s, n);
  }

  /** `addr & ~mask`: the first address of the block of `addr`. */
  function BlockLow(addr: u32, prefix: nat): u32
  {
    BlockBounds(addr, prefix);
    addr - addr % HostSpan(prefix)
  }

  /** `addr | mask`: the last address of the block of `addr`. */
  function BlockHigh(addr: u32, prefix: nat): u32
  {
    BlockBounds(addr, prefix);
    BlockLow(addr, prefix) + Mask(prefix)
  }

  /** The quotient is the one multiple of `s` whose block holds `a`. */
  lemma DivUnique(a: nat, s: nat, q: nat)
    requires s > 0 && q * s <= a < q * s + s
    ensures a / s == q
  {
    var k := a / s;
    assert a == k * s + a % s && 0 <= a % s < s && k >= 0 by {
      DivMod(a, s);
    }
    if k < q {
      MulMono(k + 1, q, s);
      MulSucc(k, s);
    } else if k > q {
      MulMono(q + 1, k, s);
      MulSucc(q, s);
    }
  }

  /** The range test the filter makes is the prefix test: an address lies
      between `addr & ~mask` and `addr | mask` exactly when it agrees with
      `addr` in its first `prefix` bits, that is, has the same quotient by
      the block size. */
  lemma PrefixRange(a: u32, addr: u32, prefix: nat)
    ensures BlockLow(addr, prefix) <= a <= BlockHigh(addr, prefix)
        <==> a / HostSpan(prefix) == addr / HostSpan(prefix)
  {
    var s := HostSpan(prefix);
    var q := addr / s;
    assert addr == q * s + addr % s && q >= 0 by {
      DivMod(addr, s);
    }
    assert BlockLow(addr, prefix) == q * s && BlockHigh(addr, prefix) == q * s + s - 1;
    if BlockLow(addr, prefix) <= a <= BlockHigh(addr, prefix) {
      DivUnique(a, s, q);
    }
    if a / s == q {
      DivMod(a, s);
    }
  }
}
