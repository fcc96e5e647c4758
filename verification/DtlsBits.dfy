/** The bits of a reassembly bitmask: bytes of eight bits, least significant
    first. */
module DtlsBits {

  /** Bit k of a byte. */
  predicate Bit(b: bv8, k: nat)
    requires k < 8
  {
    match k
    case 0 => b & 0x01 != 0
    case 1 => b & 0x02 != 0
    case 2 => b & 0x04 != 0
    case 3 => b & 0x08 != 0
    case 4 => b & 0x10 != 0
    case 5 => b & 0x20 != 0
    case 6 => b & 0x40 != 0
    case _ => b & 0x80 != 0
  }

  /** (1u << n) - 1. */
  function LowOnes(n: nat): bv32
    requires n <= 8
  {
    ((1 as bv32) << n) - 1
  }

  /** bit_range: the bits from `from`, inclusive, to `to`, exclusive. */
  function BitRange(from: nat, to: nat): bv8
    requires from <= 8 && to <= 8
  {
    ((!LowOnes(from) & LowOnes(to)) & 0xFF) as bv8
  }

  lemma LowOnesValues(n: nat)
    requires n <= 8
    ensures LowOnes(n) == match n
      case 0 => 0x00
      case 1 => 0x01
      case 2 => 0x03
      case 3 => 0x07
      case 4 => 0x0F
      case 5 => 0x1F
      case 6 => 0x3F
      case 7 => 0x7F
      case _ => 0xFF
  {
    match n {
      case 0 =>
      case 1 =>
      case 2 =>
      case 3 =>
      case 4 =>
      case 5 =>
      case 6 =>
      case 7 =>
      case _ => assert n == 8;
    }
  }

  /** Bit k of the low byte of a word. */
  predicate WordBit(w: bv32, k: nat)
    requires k < 8
  {
    Bit((w & 0xFF) as bv8, k)
  }

  lemma LowOnesBit(n: nat, k: nat)
    requires n <= 8 && k < 8
    ensures WordBit(LowOnes(n), k) <==> k < n
  {
    LowOnesValues(n);
    hide LowOnes;
  }

  lemma WordBitAnd(v: bv32, w: bv32, k: nat)
    requires k < 8
    ensures WordBit(!v & w, k) <==> !WordBit(v, k) && WordBit(w, k)
  {
  }

  lemma BitRangeBit(from: nat, to: nat, k: nat)
    requires from <= 8 && to <= 8 && k < 8
    ensures Bit(BitRange(from, to), k) <==> from <= k < to
  {
    hide LowOnes, Bit;
    LowOnesBit(from, k);
    LowOnesBit(to, k);
    WordBitAnd(LowOnes(from), LowOnes(to), k);
  }

  lemma OrBit(a: bv8, b: bv8, k: nat)
    requires k < 8
    ensures Bit(a | b, k) <==> Bit(a, k) || Bit(b, k)
  {
  }

  lemma NoBit(k: nat)
    requires k < 8
    ensures !Bit(0, k)
  {
  }

  lemma FullBit(k: nat)
    requires k < 8
    ensures Bit(0xFF, k)
  {
  }

  /** A byte is its bits. */
  lemma SameBits(a: bv8, b: bv8)
    requires forall k: nat :: k < 8 ==> (Bit(a, k) <==> Bit(b, k))
    ensures a == b
  {
    assert Bit(a, 0) <==> Bit(b, 0);
    assert Bit(a, 1) <==> Bit(b, 1);
    assert Bit(a, 2) <==> Bit(b, 2);
    assert Bit(a, 3) <==> Bit(b, 3);
    assert Bit(a, 4) <==> Bit(b, 4);
    assert Bit(a, 5) <==> Bit(b, 5);
    assert Bit(a, 6) <==> Bit(b, 6);
    assert Bit(a, 7) <==> Bit(b, 7);
  }

  // ----- bits of a mask -----

  /** Bit i of a mask. */
  predicate Marked(mask: seq<bv8>, i: nat)
    requires i < 8 * |mask|
  {
    Bit(mask[i / 8], i % 8)
  }

  /** Oring bit_range(from, to) into byte `at`. */
  lemma OrRange(mask: seq<bv8>, at: nat, from: nat, to: nat)
    requires at < |mask| && from <= 8 && to <= 8
    ensures
      var mask' := mask[at := mask[at] | BitRange(from, to)];
      forall i: nat :: i < 8 * |mask| ==>
        (Marked(mask', i) <==> Marked(mask, i) || 8 * at + from <= i < 8 * at + to)
  {
    hide Bit, BitRange;
    var mask' := mask[at := mask[at] | BitRange(from, to)];
    forall i: nat | i < 8 * |mask|
      ensures Marked(mask', i) <==> Marked(mask, i) || 8 * at + from <= i < 8 * at + to
    {
      if i / 8 == at {
        OrBit(mask[at], BitRange(from, to), i % 8);
        BitRangeBit(from, to, i % 8);
      }
    }
  }

  lemma FillByte(mask: seq<bv8>, at: nat)
    requires at < |mask|
    ensures
      var mask' := mask[at := 0xFF];
      forall i: nat :: i < 8 * |mask| ==> (Marked(mask', i) <==> Marked(mask, i) || 8 * at <= i < 8 * at + 8)
  {
    hide Bit;
    var mask' := mask[at := 0xFF];
    forall i: nat | i < 8 * |mask|
      ensures Marked(mask', i) <==> Marked(mask, i) || 8 * at <= i < 8 * at + 8
    {
      if i / 8 == at {
        FullBit(i % 8);
      }
    }
  }

  /** A byte equals bit_range(0, n) exactly when its first n bits are set and
      the others are not. */
  lemma ByteIsRange(mask: seq<bv8>, at: nat, n: nat)
    requires at < |mask| && n <= 8
    ensures mask[at] == BitRange(0, n) <==>
      forall i: nat :: 8 * at <= i < 8 * at + 8 ==> (Marked(mask, i) <==> i < 8 * at + n)
  {
    hide Bit, BitRange;
    forall i: nat | 8 * at <= i < 8 * at + 8
      ensures Bit(BitRange(0, n), i % 8) <==> i < 8 * at + n
    {
      BitRangeBit(0, n, i % 8);
    }
    if forall i: nat :: 8 * at <= i < 8 * at + 8 ==> (Marked(mask, i) <==> i < 8 * at + n) {
      forall k: nat | k < 8
        ensures Bit(mask[at], k) <==> Bit(BitRange(0, n), k)
      {
        BitRangeBit(0, n, k);
        assert (8 * at + k) / 8 == at && (8 * at + k) % 8 == k;
        assert Marked(mask, 8 * at + k) <==> 8 * at + k < 8 * at + n;
      }
      SameBits(mask[at], BitRange(0, n));
    }
  }

  lemma FullRange()
    ensures BitRange(0, 8) == 0xFF
  {
    LowOnesValues(0);
    LowOnesValues(8);
  }
}
