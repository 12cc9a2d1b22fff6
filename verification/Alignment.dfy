/** Rounding addresses up to a power-of-two boundary (`allocator.rs`).

    Machine words are naturals below 2^64; the two bit operators the kernel uses
    are defined bit by bit, so that the mask form of `align_up` is what the source
    computes and not a restatement of rounding. */
module Alignment {

  const WORD_LIMIT: int := 0x1_0000_0000_0000_0000
  const ADDRESS_LIMIT: int := 0x8000_0000_0000_0000

  function Pow2(k: nat): (r: nat)
    ensures r >= 1
  {
    if k == 0 then 1 else 2 * Pow2(k - 1)
  }

  ghost predicate IsPow2(n: int)
    ensures IsPow2(n) ==> n >= 1
  {
    exists k: nat :: n == Pow2(k)
  }

  // Bitwise AND of two naturals.
  function BitAnd(x: nat, y: nat): (r: nat) {
    if x == 0 || y == 0 then 0
    else 2 * BitAnd(x / 2, y / 2) + (if x % 2 == 1 && y % 2 == 1 then 1 else 0)
  }

  // Bitwise NOT of a 64-bit word.
  function BitNot(x: nat): (r: nat)
    requires x < WORD_LIMIT
  {
    WORD_LIMIT - 1 - x
  }

  // The sum the mask form starts with must fit a word: the source panics (or wraps) otherwise.
  predicate NoOverflow(addr: nat, align: nat) {
    addr + align - 1 < WORD_LIMIT
  }

  // The mask form of `align_up`.
  function AlignUp(addr: nat, align: nat): (r: nat)
    requires 1 <= align && NoOverflow(addr, align)
  {
    BitAnd(addr + align - 1, BitNot(align - 1))
  }

  // The remainder form, kept as a comment in the source.
  function AlignUpRemainder(addr: nat, align: nat): (r: nat)
    requires align >= 1
  {
    var remainder := addr % align;
    if remainder == 0 then addr else addr - remainder + align
  }

  lemma {:induction false} AndSelf(n: nat, x: nat)
    requires x < Pow2(n)
    ensures BitAnd(x, Pow2(n) - 1) == x
  {
    if n == 0 || x == 0 {
    } else {
      AndSelf(n - 1, x / 2);
      assert (Pow2(n) - 1) / 2 == Pow2(n - 1) - 1;
    }
  }

  // A mask with the low k of n bits cleared rounds down to a multiple of 2^k.
  lemma {:induction false} MaskRoundsDown(n: nat, k: nat, x: nat)
    requires k <= n && x < Pow2(n)
    ensures Pow2(n) - Pow2(k) >= 0
    ensures BitAnd(x, Pow2(n) - Pow2(k)) == x - x % Pow2(k)
  {
    hide BitAnd;
    if k == 0 {
      AndSelf(n, x);
      assert x % Pow2(k) == 0;
    } else {
      MaskRoundsDown(n - 1, k - 1, x / 2);
      HalvesOfRemainder(x, Pow2(k - 1));
      BitAndDoubled(x, Pow2(n - 1) - Pow2(k - 1));
      assert Pow2(n) - Pow2(k) == 2 * (Pow2(n - 1) - Pow2(k - 1));
    }
  }

  lemma BitAndDoubled(x: nat, y: nat)
    ensures BitAnd(x, 2 * y) == 2 * BitAnd(x / 2, y)
  {
    if x == 0 || y == 0 {
    } else {
      assert 2 * y / 2 == y && 2 * y % 2 == 0;
    }
  }

  lemma HalvesOfRemainder(x: nat, half: nat)
    requires half >= 1
    ensures x % (2 * half) == 2 * (x / 2 % half) + x % 2
  {
    var q, r := x / 2 / half, x / 2 % half;
    assert x == 2 * (q * half + r) + x % 2;
    RemainderIsUnique(x, 2 * half, q, 2 * r + x % 2);
  }

  // A positive multiple of d is at least d.
  lemma MultipleAtLeast(a: int, d: int)
    requires a >= 1 && d >= 1
    ensures a * d >= d
  {
  }

  lemma Distribute(a: int, b: int, d: int)
    ensures (a - b) * d == a * d - b * d
    ensures (a + b) * d == a * d + b * d
  {
  }

  lemma RemainderIsUnique(x: int, d: int, q: int, r: int)
    requires d >= 1 && 0 <= r < d && x == q * d + r
    ensures x / d == q && x % d == r
  {
    var q', r' := x / d, x % d;
    assert x == q' * d + r';
    Distribute(q, q', d);
    Distribute(q', q, d);
    if q > q' {
      MultipleAtLeast(q - q', d);
    } else if q < q' {
      MultipleAtLeast(q' - q, d);
    }
  }

  lemma Pow2Monotone(j: nat, k: nat)
    requires j <= k
    ensures Pow2(j) <= Pow2(k)
  {
  }

  lemma {:induction false} Pow2Sum(j: nat, k: nat)
    ensures Pow2(j + k) == Pow2(j) * Pow2(k)
  {
    if k == 0 {
    } else {
      Pow2Sum(j, k - 1);
      assert Pow2(j + k) == 2 * (Pow2(j) * Pow2(k - 1));
    }
  }

  lemma Pow2Doubled(k: nat, value: nat)
    requires Pow2(k) == value
    ensures Pow2(k + k) == value * value
  {
    Pow2Sum(k, k);
  }

  lemma Pow2Of64()
    ensures Pow2(64) == WORD_LIMIT
  {
    var k := 4;
    assert Pow2(k) == 16;
    Pow2Doubled(k, 16);
    Pow2Doubled(k + k, 0x100);
    Pow2Doubled(4 * k, 0x1_0000);
    Pow2Doubled(8 * k, 0x1_0000_0000);
  }

  /** For every power-of-two alignment with no overflow the mask form equals the
      remainder form, and both are the least multiple of `align` at or above `addr`. */
  lemma AlignUpIsLeastMultiple(addr: nat, align: nat)
    requires IsPow2(align) && NoOverflow(addr, align)
    ensures AlignUp(addr, align) == AlignUpRemainder(addr, align)
    ensures AlignUp(addr, align) % align == 0
    ensures addr <= AlignUp(addr, align) < addr + align
    ensures forall m: nat :: m % align == 0 && addr <= m ==> AlignUp(addr, align) <= m
  {
    MaskFormRoundsDown(addr + align - 1, align);
    RoundedDownSum(addr, align);
    RemainderFormIsLeastMultiple(addr, align);
  }

  // The mask of a power of two rounds any word down to a multiple of it.
  lemma MaskFormRoundsDown(x: nat, align: nat)
    requires IsPow2(align) && align <= x + 1 <= WORD_LIMIT
    ensures BitAnd(x, BitNot(align - 1)) == x - x % align
  {
    var k: nat :| align == Pow2(k);
    Pow2Of64();
    Pow2Order(k, 64);
    MaskRoundsDown(64, k, x);
    assert BitNot(align - 1) == Pow2(64) - Pow2(k);
  }

  lemma RoundedDownSum(addr: nat, align: nat)
    requires align >= 1
    ensures var x := addr + align - 1; x - x % align == AlignUpRemainder(addr, align)
  {
    var x := addr + align - 1;
    var q, remainder := addr / align, addr % align;
    assert addr == q * align + remainder;
    if remainder == 0 {
      RemainderIsUnique(x, align, q, align - 1);
    } else {
      Distribute(q, 1, align);
      RemainderIsUnique(x, align, q + 1, remainder - 1);
    }
  }

  lemma RemainderFormIsLeastMultiple(addr: nat, align: nat)
    requires align >= 1
    ensures var up := AlignUpRemainder(addr, align);
            up % align == 0 && addr <= up < addr + align
            && forall m: nat :: m % align == 0 && addr <= m ==> up <= m
  {
    var up := AlignUpRemainder(addr, align);
    var q, remainder := addr / align, addr % align;
    assert addr == q * align + remainder;
    var a := if remainder == 0 then q else q + 1;
    Distribute(q, 1, align);
    assert up == a * align;
    MultipleRemainder(a, align);
    forall m: nat | m % align == 0 && addr <= m
      ensures up <= m
    {
      assert m == (m / align) * align;
      NoMultipleBetween(m / align, a, align, m, up);
    }
  }

  lemma MultipleRemainder(q: int, d: int)
    requires d >= 1
    ensures (q * d) % d == 0 && (q * d) / d == q
  {
    RemainderIsUnique(q * d, d, q, 0);
  }

  // Two multiples of d that are less than d apart in one direction are ordered in the other.
  lemma NoMultipleBetween(a: int, b: int, d: int, x: int, y: int)
    requires d >= 1 && x == a * d && y == b * d && y < x + d
    ensures y <= x
  {
    Distribute(b, a, d);
    if b > a {
      MultipleAtLeast(b - a, d);
    }
  }

  /** Addresses and alignments of at most 2^63 never overflow the mask form, which is
      the situation at every call site in the allocators. */
  lemma AddressesDoNotOverflow(addr: nat, align: nat)
    requires 1 <= align <= ADDRESS_LIMIT && addr <= ADDRESS_LIMIT
    ensures NoOverflow(addr, align)
  {
  }

  // An alignment of at least 2^j makes every multiple of it a multiple of 2^j.
  lemma {:induction false} Pow2Divides(j: nat, k: nat, m: nat)
    requires j <= k && m % Pow2(k) == 0
    ensures m % Pow2(j) == 0
    decreases k
  {
    if j == k {
    } else {
      var half := Pow2(k - 1);
      var q := m / Pow2(k);
      assert m == q * (2 * half) == (2 * q) * half by { assert Pow2(k) == 2 * half; }
      MultipleRemainder(2 * q, half);
      Pow2Divides(j, k - 1, m);
    }
  }

  // Powers of two are ordered like their exponents.
  lemma Pow2Order(j: nat, k: nat)
    requires Pow2(j) <= Pow2(k)
    ensures j <= k
  {
    if k < j {
      Pow2Monotone(k + 1, j);
    }
  }

  lemma LargerPow2Divides(small: int, large: int, m: nat)
    requires IsPow2(small) && IsPow2(large) && small <= large && m % large == 0
    ensures m % small == 0
  {
    var j: nat :| small == Pow2(j);
    var k: nat :| large == Pow2(k);
    Pow2Order(j, k);
    Pow2Divides(j, k, m);
  }

  // x is a multiple of the power of two `align`, bit by bit.
  predicate AlignedTo(x: nat, align: nat) {
    align <= 1 || (align % 2 == 0 && x % 2 == 0 && AlignedTo(x / 2, align / 2))
  }

  lemma {:induction false} AlignedToPow2(x: nat, k: nat)
    ensures AlignedTo(x, Pow2(k)) <==> x % Pow2(k) == 0
  {
    if k == 0 {
    } else {
      AlignedToPow2(x / 2, k - 1);
      HalvesOfRemainder(x, Pow2(k - 1));
      assert Pow2(k) == 2 * Pow2(k - 1);
    }
  }

  lemma AlignedToIsMultiple(x: nat, align: nat)
    requires IsPow2(align)
    ensures AlignedTo(x, align) <==> x % align == 0
  {
    var k: nat :| align == Pow2(k);
    AlignedToPow2(x, k);
  }

  // The rounded address is aligned, at most one alignment away, and no aligned address lies between.
  lemma AlignUpAligned(addr: nat, align: nat)
    requires IsPow2(align) && NoOverflow(addr, align)
    ensures AlignedTo(AlignUp(addr, align), align)
    ensures addr <= AlignUp(addr, align) < addr + align
    ensures forall m: nat :: AlignedTo(m, align) && addr <= m ==> AlignUp(addr, align) <= m
  {
    AlignUpIsLeastMultiple(addr, align);
    AlignedToIsMultiple(AlignUp(addr, align), align);
    forall m: nat | AlignedTo(m, align) && addr <= m ensures AlignUp(addr, align) <= m {
      AlignedToIsMultiple(m, align);
    }
  }

  lemma LargerAlignment(small: int, large: int, m: nat)
    requires IsPow2(small) && IsPow2(large) && small <= large && AlignedTo(m, large)
    ensures AlignedTo(m, small) && m % small == 0
  {
    AlignedToIsMultiple(m, large);
    LargerPow2Divides(small, large, m);
    AlignedToIsMultiple(m, small);
  }

  lemma EightIsPow2()
    ensures IsPow2(8) && IsPow2(16)
  {
    assert Pow2(3) == 8 && Pow2(4) == 16;
  }
}
