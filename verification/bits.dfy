/**
 The C++ integer bit operators used by the operand adapter's index
 computation, modelled on 32-bit patterns. A pattern is the natural number
 whose binary digits are the 32 bits; a non-negative `int` and an
 `unsigned int` of the same value have the same pattern.
 */
module Bits {

  const Modulus: nat := 0x1_0000_0000

  /** A 32-bit pattern. */
  type Word = x: int | 0 <= x < 0x1_0000_0000

  /** Bitwise AND, digit by digit from the least significant bit. */
  function And(x: nat, y: nat): nat
    decreases x
  {
    if x == 0 || y == 0 then 0
    else 2 * And(x / 2, y / 2) + (if x % 2 == 1 && y % 2 == 1 then 1 else 0)
  }

  /** Bitwise OR, digit by digit from the least significant bit. */
  function Or(x: nat, y: nat): nat
    decreases x
  {
    if x == 0 then y
    else if y == 0 then x
    else 2 * Or(x / 2, y / 2) + (if x % 2 == 1 || y % 2 == 1 then 1 else 0)
  }

  /** `x << 1` on a 32-bit pattern: the bit shifted out at the top is lost. */
  function ShiftLeftOne(x: Word): (r: Word)
    ensures x < Modulus / 2 ==> r == 2 * x
  {
    (2 * x) % Modulus
  }

  /** `x >> 1` on a non-negative value. */
  function ShiftRightOne(x: Word): (r: Word)
    ensures 2 * r <= x < 2 * r + 2
  {
    x / 2
  }

  /** True when the binary digits of `m` are all ones (m == 2^k - 1). */
  predicate AllOnes(m: nat)
    decreases m
  {
    m == 0 || (m % 2 == 1 && AllOnes(m / 2))
  }

  /** Masking with one bit: `x & 1` is the lowest bit. */
  lemma AndOne(x: nat)
    ensures And(x, 1) == x % 2
  {
    if x != 0 {
      assert And(x / 2, 0) == 0;
    }
  }

  /** Masking with the second bit: `x & 2` keeps bit 1 only. */
  lemma AndTwo(x: nat)
    ensures And(x, 2) == 2 * (x / 2 % 2)
  {
    if x != 0 {
      AndOne(x / 2);
    }
  }

  /** Masking with a run of low ones leaves a value that fits in them unchanged. */
  lemma {:induction false} AndAllOnes(x: nat, m: nat)
    requires AllOnes(m) && x <= m
    ensures And(x, m) == x
    decreases x
  {
    if x != 0 {
      AndAllOnes(x / 2, m / 2);
    }
  }

  /** The thirty low bits of a word, all set: each run of ones is the
      previous run shifted left with a one below it. */
  lemma AllOnesThirty()
    ensures AllOnes(0x3fff_ffff)
  {
    // Dafny does not evaluate `AllOnes` on a literal by itself: each line
    // unfolds the recursion once, from the run of k ones to the run of k + 1.
    assert AllOnes(0);
    assert AllOnes(1);
    assert AllOnes(3);
    assert AllOnes(7);
    assert AllOnes(15);
    assert AllOnes(31);
    assert AllOnes(63);
    assert AllOnes(127);
    assert AllOnes(255);
    assert AllOnes(511);
    assert AllOnes(1023);
    assert AllOnes(2047);
    assert AllOnes(4095);
    assert AllOnes(8191);
    assert AllOnes(16383);
    assert AllOnes(32767);
    assert AllOnes(65535);
    assert AllOnes(0x1_ffff);
    assert AllOnes(0x3_ffff);
    assert AllOnes(0x7_ffff);
    assert AllOnes(0xf_ffff);
    assert AllOnes(0x1f_ffff);
    assert AllOnes(0x3f_ffff);
    assert AllOnes(0x7f_ffff);
    assert AllOnes(0xff_ffff);
    assert AllOnes(0x1ff_ffff);
    assert AllOnes(0x3ff_ffff);
    assert AllOnes(0x7ff_ffff);
    assert AllOnes(0xfff_ffff);
    assert AllOnes(0x1fff_ffff);
    assert AllOnes(0x3fff_ffff);
  }

  /** `x & 0xfffffffc` clears the two low bits of a 32-bit pattern. */
  lemma AndClearLowTwo(x: Word)
    ensures And(x, 0xffff_fffc) == x - x % 4
  {
    var h, q := x / 2, x / 4;
    assert h / 2 == q;
    assert x - x % 4 == 4 * q;
    AllOnesThirty();
    AndAllOnes(q, 0x3fff_ffff);
    if x != 0 {
      assert And(x, 0xffff_fffc) == 2 * And(h, 0x7fff_fffe);
      if h != 0 {
        assert And(h, 0x7fff_fffe) == 2 * And(q, 0x3fff_ffff);
      }
    }
  }

  /** OR of two values whose set bits are disjoint, in the shape used here:
      a value below four combined with a multiple of four. */
  lemma OrLowTwo(r: nat, q: nat)
    requires r < 4
    ensures Or(r, 4 * q) == 4 * q + r
  {
    if q != 0 && r != 0 {
      assert Or(r, 4 * q) == 2 * Or(r / 2, 2 * q) + r % 2;
      if r / 2 != 0 {
        assert Or(r / 2, 2 * q) == 2 * Or(0, q) + 1;
      }
    }
  }

  /** OR of bit 1 and bit 0 given separately. */
  lemma OrBitPair(hi: nat, lo: nat)
    requires hi == 0 || hi == 2
    requires lo < 2
    ensures Or(hi, lo) == hi + lo
  {
    if hi != 0 && lo != 0 {
      assert Or(hi, lo) == 2 * Or(1, 0) + 1;
    }
  }
}
