/** Masks computed without branches on 64-bit words (crypto/internal.h). */
module ConstantTime {
  /** crypto_word_t; every mask is one of these two. */
  type Word = bv64

  const TRUE_W: Word := 0xFFFF_FFFF_FFFF_FFFF
  const FALSE_W: Word := 0

  function Msb(a: Word): (m: Word)
    ensures m == if a >= 0x8000_0000_0000_0000 then TRUE_W else FALSE_W
  {
    0 - (a >> 63)
  }

  /** The top bit of this formula is the borrow of the subtraction. */
  lemma TopBitIsBorrow(a: Word, b: Word)
    ensures a ^ ((a ^ b) | ((a - b) ^ a)) >= 0x8000_0000_0000_0000 <==> a < b
  {
  }

  function Lt(a: Word, b: Word): (m: Word)
    ensures m == if a < b then TRUE_W else FALSE_W
  {
    TopBitIsBorrow(a, b);
    Msb(a ^ ((a ^ b) | ((a - b) ^ a)))
  }

  function Ge(a: Word, b: Word): (m: Word)
    ensures m == if a >= b then TRUE_W else FALSE_W
  {
    !Lt(a, b)
  }

  function IsZero(a: Word): (m: Word)
    ensures m == if a == 0 then TRUE_W else FALSE_W
  {
    Msb(!a & (a - 1))
  }

  function Eq(a: Word, b: Word): (m: Word)
    ensures m == if a == b then TRUE_W else FALSE_W
  {
    IsZero(a ^ b)
  }

  /** For the masks above, one argument or the other. */
  function Select(mask: Word, a: Word, b: Word): (r: Word)
    ensures mask == TRUE_W ==> r == a
    ensures mask == FALSE_W ==> r == b
  {
    (mask & a) | (!mask & b)
  }
}

/** The same masks cut down to a byte. */
module ConstantTime8 {
  import opened ConstantTime

  const TRUE_8: bv8 := 0xFF
  const FALSE_8: bv8 := 0

  /** A cast to uint8_t keeps the low eight bits. */
  function Low8(a: Word): (b: bv8)
    ensures b as Word == a & 0xFF
  {
    (a & 0xFF) as bv8
  }

  function Lt8(a: Word, b: Word): (m: bv8)
    ensures m == if a < b then TRUE_8 else FALSE_8
  {
    Low8(Lt(a, b))
  }

  function Ge8(a: Word, b: Word): (m: bv8)
    ensures m == if a >= b then TRUE_8 else FALSE_8
  {
    Low8(Ge(a, b))
  }

  function IsZero8(a: Word): (m: bv8)
    ensures m == if a == 0 then TRUE_8 else FALSE_8
  {
    Low8(IsZero(a))
  }

  function Eq8(a: Word, b: Word): (m: bv8)
    ensures m == if a == b then TRUE_8 else FALSE_8
  {
    Low8(Eq(a, b))
  }

  /** The bytes are widened first, so ~mask has high bits set that the final
      cast drops. */
  function Select8(mask: bv8, a: bv8, b: bv8): (r: bv8)
    ensures mask == TRUE_8 ==> r == a
    ensures mask == FALSE_8 ==> r == b
  {
    Low8(Select(mask as Word, a as Word, b as Word))
  }
}
