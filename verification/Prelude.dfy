/** Shared vocabulary: bytes, options, shifts and the bitwise "or" of two
    naturals, which the codecs in this project use on machine words. */
module Prelude {

  type byte = b: int | 0 <= b < 256

  datatype Option<+T> = None | Some(value: T)

  const TWO31: int := 0x8000_0000
  const TWO32: int := 0x1_0000_0000
  const TWO63: int := 0x8000_0000_0000_0000
  const TWO64: int := 0x1_0000_0000_0000_0000

  function Min(a: int, b: int): int {
    if a < b then a else b
  }

  /** `c << k` on a word wide enough to lose nothing. */
  function Shl(c: nat, k: nat): nat {
    if k == 0 then c else 2 * Shl(c, k - 1)
  }

  lemma {:induction false} ShlAdd(a: nat, b: nat, k: nat)
    ensures Shl(a + b, k) == Shl(a, k) + Shl(b, k)
  {
    if k > 0 {
      ShlAdd(a, b, k - 1);
    }
  }

  lemma {:induction false} ShlMonotone(a: nat, b: nat, k: nat)
    requires a <= b
    ensures Shl(a, k) <= Shl(b, k)
  {
    if k > 0 {
      ShlMonotone(a, b, k - 1);
    }
  }

  lemma {:induction false} ShlSeven(c: nat, k: nat)
    ensures Shl(c, k + 7) == 128 * Shl(c, k) == Shl(128 * c, k)
  {
    if k == 0 {
      assert Shl(c, 7) == 2 * Shl(c, 6) == 4 * Shl(c, 5) == 8 * Shl(c, 4);
      assert Shl(c, 4) == 2 * Shl(c, 3) == 4 * Shl(c, 2) == 8 * Shl(c, 1);
    } else {
      ShlSeven(c, k - 1);
    }
  }

  /** The shifts the varint decoders pass through. */
  lemma {:induction false} ShlAt(c: nat, k: nat)
    requires k % 7 == 0 && k <= 70
    ensures k == 0 ==> Shl(c, k) == c
    ensures k == 7 ==> Shl(c, k) == 0x80 * c
    ensures k == 14 ==> Shl(c, k) == 0x4000 * c
    ensures k == 21 ==> Shl(c, k) == 0x20_0000 * c
    ensures k == 28 ==> Shl(c, k) == 0x1000_0000 * c
    ensures k == 35 ==> Shl(c, k) == 0x8_0000_0000 * c
    ensures k == 42 ==> Shl(c, k) == 0x400_0000_0000 * c
    ensures k == 49 ==> Shl(c, k) == 0x2_0000_0000_0000 * c
    ensures k == 56 ==> Shl(c, k) == 0x100_0000_0000_0000 * c
    ensures k == 63 ==> Shl(c, k) == 0x8000_0000_0000_0000 * c
    ensures k == 70 ==> Shl(c, k) == 0x40_0000_0000_0000_0000 * c
  {
    if k > 0 {
      ShlSeven(c, k - 7);
      ShlAt(c, k - 7);
    }
  }

  /** Bitwise "or" on naturals. */
  function Or(a: nat, b: nat): nat {
    if a == 0 && b == 0 then 0
    else (if a % 2 == 1 || b % 2 == 1 then 1 else 0) + 2 * Or(a / 2, b / 2)
  }

  lemma {:induction false} OrZero(b: nat)
    ensures Or(0, b) == b
  {
    if b != 0 {
      OrZero(b / 2);
    }
  }

  /** "Or" adds when the second operand starts above the first one's top bit. */
  lemma {:induction false} OrIsSum(a: nat, c: nat, k: nat)
    requires a < Shl(1, k)
    ensures Or(a, Shl(c, k)) == a + Shl(c, k)
  {
    if k == 0 {
      OrZero(c);
    } else {
      OrIsSum(a / 2, c, k - 1);
    }
  }

  lemma {:induction false} OrBound(a: nat, b: nat, k: nat)
    requires a < Shl(1, k) && b < Shl(1, k)
    ensures Or(a, b) < Shl(1, k)
  {
    if k > 0 {
      OrBound(a / 2, b / 2, k - 1);
    }
  }
}
