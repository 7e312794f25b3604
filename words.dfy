/** 32-bit word helpers of the MD4 hash: the masks `mul` and `neg`, the three
    round functions F, G and H of section 3.4 of RFC 1320, and the 32-bit left
    rotation.

    The Python helpers take arbitrary non-negative integers and reduce their
    result with `& WORD_MASK`. Such an integer is modelled as a `Wide` (a 64-bit
    vector, so any integer below 2^64); a result after the mask is a `Word`. */
module Words {

  /** A 32-bit word: a Python integer after `& WORD_MASK`. */
  type Word = bv32

  /** A non-negative Python integer below 2^64, as the helpers receive it. */
  type Wide = bv64

  const WORD_MASK: Wide := 0xFFFF_FFFF

  /** All 32 bits set. */
  const ALL_ONES: Word := 0xFFFF_FFFF

  /** `x & WORD_MASK`: the low 32 bits of `x`. */
  function Mask(x: Wide): (w: Word)
    ensures x <= WORD_MASK ==> w as Wide == x
  {
    (x & WORD_MASK) as Word
  }

  /** `mul(x, y)`: bitwise AND reduced to 32 bits. */
  function Mul(x: Wide, y: Wide): (r: Word)
    // only the low 32 bits of each input matter
    ensures r == Mask(x) & Mask(y)
  {
    Mask(x & y)
  }

  /** `neg(x)`: bitwise NOT within 32 bits. */
  function Neg(x: Wide): (r: Word)
    // r and the low word of x are disjoint and together cover all 32 bits
    ensures r & Mask(x) == 0 && r | Mask(x) == ALL_ONES
  {
    Mask(x ^ WORD_MASK)
  }

  /** Round-1 function: "if x then y else z", bit by bit. */
  function F(x: Wide, y: Wide, z: Wide): (r: Word)
    // where x has a 1, r agrees with y
    ensures r & Mask(x) == Mask(y) & Mask(x)
    // where x has a 0, r agrees with z
    ensures r & !Mask(x) == Mask(z) & !Mask(x)
  {
    Mul(x, y) | Mul(Neg(x) as Wide, z)
  }

  /** Round-2 function: bitwise majority of the three words. */
  function G(x: Wide, y: Wide, z: Wide): (r: Word)
    // where x and y agree, r is their common bit
    ensures r & !(Mask(x) ^ Mask(y)) == Mask(x) & !(Mask(x) ^ Mask(y))
    // where x and y differ, z decides
    ensures r & (Mask(x) ^ Mask(y)) == Mask(z) & (Mask(x) ^ Mask(y))
  {
    Mul(x, y) | Mul(x, z) | Mul(y, z)
  }

  /** Round-3 function: bitwise parity (XOR) of the three words. */
  function H(x: Wide, y: Wide, z: Wide): (r: Word)
    // only the low 32 bits of each input matter
    ensures r == Mask(x) ^ Mask(y) ^ Mask(z)
  {
    Mask(x ^ y ^ z)
  }

  /** `left_circular_shift(x, s)` on a 32-bit word. Python raises for a shift
      count above 32, where `32 - s` is negative. */
  function LeftCircularShift(x: Word, s: Word): (r: Word)
    requires s <= 32
    // shifting by 0 or by the full width leaves the word unchanged
    ensures s == 0 || s == 32 ==> r == x
  {
    (x << s) | (x >> (32 - s))
  }

  /** Bit i of a word, as 0 or 1. */
  function Bit(x: Word, i: Word): Word
    requires i < 32
  {
    (x >> i) & 1
  }

  /** Rotation moves bit i of the word to bit (i + s) mod 32: this is what
      makes the shift circular. */
  lemma RotatedBit(x: Word, s: Word, i: Word)
    requires s <= 32 && i < 32
    ensures Bit(LeftCircularShift(x, s), (i + s) & 31) == Bit(x, i)
  {
    if i < 32 - s {
      RotatedBitLow(x, s, i);
    } else {
      RotatedBitHigh(x, s, i);
    }
  }

  /** The bits below 32 - s move up by s. */
  lemma RotatedBitLow(x: Word, s: Word, i: Word)
    requires s <= 32 && i < 32 - s
    ensures Bit(LeftCircularShift(x, s), i + s) == Bit(x, i)
  {
  }

  /** The top s bits wrap around to the bottom. */
  lemma RotatedBitHigh(x: Word, s: Word, i: Word)
    requires s <= 32 && 32 - s <= i < 32
    ensures Bit(LeftCircularShift(x, s), i + s - 32) == Bit(x, i)
  {
  }

  /** Rotating a word left by s and then by 32 - s restores it. */
  lemma RotateInverse(x: Word, s: Word)
    requires s <= 32
    ensures LeftCircularShift(LeftCircularShift(x, s), 32 - s) == x
  {
  }

  /** `(a + b) & WORD_MASK` for two words: the integer sum, masked. */
  function MaskedAdd(a: Word, b: Word): (r: Word)
    // the masked integer sum is the sum modulo 2^32
    ensures r == a + b
  {
    Mask(a as Wide + b as Wide)
  }

  /** Adding four words as integers and masking the sum is addition modulo
      2^32. */
  lemma MaskedSum4(a: Word, b: Word, c: Word, d: Word)
    ensures Mask(a as Wide + b as Wide + c as Wide + d as Wide) == a + b + c + d
  {
  }

  /** F with an all-ones selector gives y, with a zero selector z. */
  lemma FSelects(y: Wide, z: Wide)
    ensures F(WORD_MASK, y, z) == Mask(y)
    ensures F(0, y, z) == Mask(z)
  {
  }

  /** A value given to G twice is the majority. */
  lemma GMajority(x: Wide, z: Wide)
    ensures G(x, x, z) == Mask(x)
  {
  }

  /** Two equal inputs of H cancel. */
  lemma HCancels(x: Wide, z: Wide)
    ensures H(x, x, z) == Mask(z)
  {
  }

  /** The integer values the helpers are checked against in the repository's tests. */
  lemma KnownValues()
    ensures Mul(0x2A, 0xD) == 0x8 && Mul(0x1_FFFF_FFFF, 0xD) == 0xD && Mul(0x2A, 0x15) == 0
    ensures Neg(0x2A) as Wide == WORD_MASK ^ 0x2A && Neg(0x1_FFFF_FFFF) == 0
    ensures Neg(0x1_FFFF_FFFF ^ 0x3FF) == 0x3FF
    ensures F(0x2A, 0xA, 0xD) == 0xF && F(0x3F, 0xA, 0xD) == 0xA && F(0, 0xA, 0xD) == 0xD
    ensures F(0xF_FFFF_FFFF, 0x7_FFFF_FFFF, 1) == ALL_ONES
    ensures G(0x2A, 0xA, 0xD) == 0xA && G(0x3F, 0x3F, 0xD) == 0x3F && G(0, 0, 0xD) == 0
    ensures H(0x2A, 0xA, 0xD) == 0x2D && H(0x3F, 0x3F, 0xD) == 0xD
    ensures H(0xF_FFFF_FFFF, 0x7_FFFF_FFFF, 1) == 1
    ensures LeftCircularShift(2, 1) == 4 && LeftCircularShift(1, 32) == 1
    ensures LeftCircularShift(0xAAAA_FFFF, 16) == 0xFFFF_AAAA
  {
  }
}
