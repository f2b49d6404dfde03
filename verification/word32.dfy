/** Unsigned 32-bit words and the C++ conversions and bit operations the heap
    service applies to them. Dafny integers are unbounded, so every wrap-around
    that the guest's 32-bit registers perform is written out here. */
module Word32 {

  const TWO_32: int := 0x1_0000_0000

  /** An unsigned 32-bit value (C++ `u32`). */
  type u32 = x: int | 0 <= x < 0x1_0000_0000

  /** A signed 32-bit value (C++ `int`). */
  type i32 = x: int | -0x8000_0000 <= x < 0x8000_0000

  /** The value C++ stores when an integer expression is converted to `u32`:
      the integer modulo 2^32, which keeps its two's-complement bit pattern. */
  function ToU32(x: int): (r: u32)
    ensures 0 <= x < TWO_32 ==> r == x
    ensures -TWO_32 <= x < 0 ==> r == x + TWO_32
    ensures TWO_32 <= x < 2 * TWO_32 ==> r == x - TWO_32
  {
    x % TWO_32
  }

  /** Bitwise complement of a 32-bit word (C++ `~`). */
  function Not32(x: u32): (r: u32)
    ensures r + x == 0xFFFF_FFFF
  {
    0xFFFF_FFFF - x
  }

  /** Bitwise AND of two non-negative integers, computed one bit at a time from
      the least significant end (C++ `&` on the bit patterns). */
  function And(a: nat, b: nat): (r: nat)
    ensures r <= a && r <= b
    decreases a
  {
    if a == 0 || b == 0 then 0
    else 2 * And(a / 2, b / 2) + (if a % 2 == 1 && b % 2 == 1 then 1 else 0)
  }

  function Pow2(k: nat): (r: nat)
    ensures r >= 1
  {
    if k == 0 then 1 else 2 * Pow2(k - 1)
  }

  lemma {:induction false} Pow2Add(a: nat, b: nat)
    ensures Pow2(a + b) == Pow2(a) * Pow2(b)
    decreases a
  {
    if a > 0 {
      Pow2Add(a - 1, b);
    }
  }

  /** Masking with k low one-bits keeps every value that fits in k bits. */
  lemma {:induction false} AndLowOnes(y: nat, k: nat)
    requires y < Pow2(k)
    ensures And(y, Pow2(k) - 1) == y
    decreases k
  {
    if y != 0 {
      assert k > 0;
      assert (Pow2(k) - 1) / 2 == Pow2(k - 1) - 1;
      assert (Pow2(k) - 1) % 2 == 1;
      AndLowOnes(y / 2, k - 1);
    }
  }

  /** Masking with an even mask drops the low bit and masks the rest. */
  lemma AndEvenMask(a: nat, b: nat)
    requires b % 2 == 0
    ensures And(a, b) == 2 * And(a / 2, b / 2)
  {
  }

  lemma Pow2Is30Bits()
    ensures Pow2(30) == 0x4000_0000
  {
    Pow2Add(10, 20);
    Pow2Add(10, 10);
  }

  /** `x & ~3` clears exactly the two low bits of a word: it rounds x down to a
      multiple of 4. */
  lemma AndNot3(x: u32)
    ensures And(x, Not32(3)) == x - x % 4
  {
    var q := x / 4;
    assert x / 2 / 2 == q;
    Pow2Is30Bits();
    AndLowOnes(q, 30);
    AndEvenMask(x, 0xFFFF_FFFC);
    AndEvenMask(x / 2, 0x7FFF_FFFE);
    assert And(x, 0xFFFF_FFFC) == 4 * q;
  }
}
