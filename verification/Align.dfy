/** align_address and page_align of kernel/utils/mem.c: masking with a power of two rounds up, modulo 2^32. */
module Align {
  import opened Range

  function Pow2(n: nat): nat {
    if n == 0 then 1 else 2 * Pow2(n - 1)
  }

  /** Bitwise and of two naturals. */
  function And(x: nat, y: nat): (r: nat)
    ensures r <= x
    decreases x
  {
    if x == 0 || y == 0 then 0
    else (if x % 2 == 1 && y % 2 == 1 then 1 else 0) + 2 * And(x / 2, y / 2)
  }

  function Not32(x: u32): u32 { W - 1 - x }

  function AlignAddress(address: u32, align: u32): u32
    requires align > 0
  {
    And(Sub32(Add32(address, align), 1), Not32(align - 1))
  }

  const PAGE_SIZE: u32 := 4096

  function PageAlign(address: u32): u32 { AlignAddress(address, PAGE_SIZE) }

  predicate IsPower(align: nat) {
    exists k: nat :: k < 32 && align == Pow2(k)
  }

  lemma {:induction false} AndOnes(x: nat, n: nat)
    requires x < Pow2(n)
    ensures And(x, Pow2(n) - 1) == x
  {
    if x > 0 {
      AndOnes(x / 2, n - 1);
      assert (Pow2(n) - 1) / 2 == Pow2(n - 1) - 1;
    }
  }

  lemma MulGap(a: nat, b: nat, d: nat)
    requires a < b
    ensures a * d + d <= b * d
  {
    assert b * d == a * d + (b - a) * d;
    assert (b - a) * d == d + (b - a - 1) * d;
  }

  lemma ModUnique(x: nat, q: nat, d: nat, r: nat)
    requires d > 0 && x == q * d + r && r < d
    ensures x % d == r && x / d == q
  {
    var k, m := x / d, x % d;
    assert x == k * d + m && m < d;
    if k < q { MulGap(k, q, d); }
    if q < k { MulGap(q, k, d); }
  }

  lemma AndEven(x: nat, mask: nat)
    ensures And(x, 2 * mask) == 2 * And(x / 2, mask)
  {
    assert (2 * mask) / 2 == mask && (2 * mask) % 2 == 0;
  }

  lemma {:induction false} AndMask(x: nat, n: nat, k: nat)
    requires x < Pow2(n) && k <= n
    ensures 0 < Pow2(k) <= Pow2(n) && And(x, Pow2(n) - Pow2(k)) == x - x % Pow2(k)
  {
    hide And;
    Pow2Order(k, n);
    if k == 0 {
      AndOnes(x, n);
      assert x % 1 == 0;
    } else {
      var p := Pow2(k - 1);
      AndMask(x / 2, n - 1, k - 1);
      DoubleMod(x, p);
      AndEven(x, Pow2(n - 1) - p);
    }
  }

  lemma DoubleMod(x: nat, p: nat)
    requires p > 0
    ensures x % (2 * p) == 2 * ((x / 2) % p) + x % 2
  {
    var y := x / 2;
    var q, r := y / p, y % p;
    assert y == q * p + r;
    assert q * (2 * p) == 2 * (q * p);
    ModUnique(x, q, 2 * p, 2 * r + x % 2);
  }

  lemma {:induction false} Pow2Order(k: nat, n: nat)
    requires k <= n
    ensures 1 <= Pow2(k) <= Pow2(n)
    decreases n
  {
    if k < n { Pow2Order(k, n - 1); }
    else if k > 0 { Pow2Order(k - 1, n - 1); }
  }

  lemma {:induction false} Pow2Add(a: nat, b: nat)
    ensures Pow2(a + b) == Pow2(a) * Pow2(b)
  {
    if a > 0 {
      Pow2Add(a - 1, b);
      assert Pow2(a + b) == 2 * (Pow2(a - 1) * Pow2(b)) == (2 * Pow2(a - 1)) * Pow2(b);
    }
  }

  lemma {:induction false} Divides(k: nat, n: nat)
    requires k <= n
    ensures Pow2(k) > 0 && Pow2(n) % Pow2(k) == 0
    decreases n
  {
    Pow2Order(k, n);
    if k < n {
      Divides(k, n - 1);
      var d := Pow2(k);
      var q := Pow2(n - 1) / d;
      assert Pow2(n) == 2 * (q * d) == (2 * q) * d;
      ModUnique(Pow2(n), 2 * q, d, 0);
    } else {
      ModUnique(Pow2(n), 1, Pow2(n), 0);
    }
  }

  lemma Pow2_32()
    ensures Pow2(32) == W
  {
    assert Pow2(8) == 256;
    assert Pow2(16) == 65536;
    assert Pow2(24) == 0x100_0000;
  }

  /** How far `address` is from the next multiple of `align`. */
  function Padding(address: nat, align: nat): nat
    requires align > 0
  {
    if address % align == 0 then 0 else align - address % align
  }

  lemma RoundUp(address: nat, align: nat)
    requires align > 0
    ensures (address + Padding(address, align)) % align == 0
  {
    var q, r := address / align, address % align;
    assert address == q * align + r;
    if r > 0 {
      assert (q + 1) * align == q * align + align;
      ModUnique(address + Padding(address, align), q + 1, align, 0);
    }
  }

  /** Nothing aligned lies between an address and where it rounds to. */
  lemma RoundUpLeast(address: nat, align: nat, p: nat)
    requires align > 0 && address <= p && p % align == 0
    ensures address + Padding(address, align) <= p
  {
    var q, r, k := address / align, address % align, p / align;
    assert address == q * align + r && p == k * align;
    if r > 0 {
      if k < q { MulGap(k, q, align); }
      if q < k { MulGap(q, k, align); }
    }
  }

  /** align_address rounds up to a multiple of a power of two; only the top end of the space wraps, to 0. */
  lemma AlignUp(address: u32, align: u32)
    requires align > 0 && IsPower(align)
    ensures var up := address + Padding(address, align);
            up <= W && AlignAddress(address, align) == if up == W then 0 else up
  {
    hide And;
    var k: nat :| k < 32 && align == Pow2(k);
    Pow2_32();
    Divides(k, 32);
    var x := Sub32(Add32(address, align), 1);
    AndMask(x, 32, k);
    RoundUp(address, align);
    RoundUpLeast(address, align, W);
    LastMultiple(address, align, x);
  }

  lemma LastMultiple(address: u32, align: u32, x: u32)
    requires align > 0 && W % align == 0 && x == Sub32(Add32(address, align), 1)
    requires address + Padding(address, align) <= W
    ensures var up := address + Padding(address, align); x - x % align == if up == W then 0 else up
  {
    var up := address + Padding(address, align);
    RoundUp(address, align);
    var q := up / align;
    assert up == q * align;
    if address + align - 1 < W {
      ModUnique(x, q, align, x - up);
    } else {
      ModUnique(x, 0, align, x);
      var k := W / align;
      assert W == k * align;
      if q < k { MulGap(q, k, align); }
      if k < q { MulGap(k, q, align); }
    }
  }
}
