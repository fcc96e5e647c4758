/** Base-128 varints of the Protocol Buffers wire format: the two decoders of
    pb_decode.c, the encoder of pb_encode.c and the zig-zag mapping. */
module NanopbVarint {
  import opened Prelude

  /** What a decoder leaves behind: the value and the unread rest. */
  datatype Parsed<+T> = Parsed(value: T, rest: seq<byte>)

  // ----- the 64-bit decoder -----

  /** The loop of pb_decode_varint, entered with `bitpos` and `result`. */
  function Varint64From(s: seq<byte>, bitpos: nat, result: nat): (r: Option<Parsed<nat>>)
    ensures r.Some? ==> |r.value.rest| < |s|
    decreases |s|
  {
    if bitpos >= 64 || s == [] then None
    else
      var result' := Or(result, Shl(s[0] % 128, bitpos) % TWO64);
      if s[0] >= 128 then Varint64From(s[1..], bitpos + 7, result')
      else Some(Parsed(result', s[1..]))
  }

  function DecodeVarint64(s: seq<byte>): (r: Option<Parsed<nat>>)
    ensures r.Some? ==> |r.value.rest| < |s|
  {
    Varint64From(s, 0, 0)
  }

  lemma Varint64Unfold(s: seq<byte>, bitpos: nat, result: nat)
    requires s != [] && bitpos < 64
    ensures
      var result' := Or(result, Shl(s[0] % 128, bitpos) % TWO64);
      Varint64From(s, bitpos, result)
      == if s[0] >= 128 then Varint64From(s[1..], bitpos + 7, result') else Some(Parsed(result', s[1..]))
  {
  }

  // ----- the 32-bit decoder -----

  /** What one continuation byte does to the 32-bit accumulator, or None for
      "varint overflow". */
  function Varint32Byte(b: byte, bitpos: byte, result: nat): Option<nat> {
    if bitpos >= 32 then
      var signExtension := if bitpos < 63 then 0xFF else 0x01;
      if b % 128 != 0 && (result / TWO31 == 0 || b != signExtension) then None else Some(result)
    else
      Some(Or(result, Shl(b % 128, bitpos) % TWO32))
  }

  /** The do-while loop of pb_decode_varint32_eof. The bit position is held in
      eight bits, so it wraps. */
  function Varint32From(s: seq<byte>, bitpos: byte, result: nat): (r: Option<Parsed<nat>>)
    ensures r.Some? ==> |r.value.rest| < |s|
    decreases |s|
  {
    if s == [] then None
    else
      var b := s[0];
      match Varint32Byte(b, bitpos, result)
      case None => None
      case Some(result') =>
        var bitpos' := (bitpos + 7) % 256;
        if b >= 128 then Varint32From(s[1..], bitpos', result')
        else if bitpos' == 35 && (b / 16) % 8 != 0 then None
        else Some(Parsed(result', s[1..]))
  }

  lemma Varint32Unfold(s: seq<byte>, bitpos: byte, result: nat, result': nat)
    requires s != [] && Varint32Byte(s[0], bitpos, result) == Some(result')
    ensures
      var next: byte := (bitpos + 7) % 256;
      Varint32From(s, bitpos, result)
      == if s[0] >= 128 then Varint32From(s[1..], next, result')
         else if next == 35 && (s[0] / 16) % 8 != 0 then None
         else Some(Parsed(result', s[1..]))
  {
  }

  function DecodeVarint32(s: seq<byte>): (r: Option<Parsed<nat>>)
    ensures r.Some? ==> |r.value.rest| < |s|
  {
    if s == [] then None
    else if s[0] < 128 then Some(Parsed(s[0], s[1..]))
    else Varint32From(s[1..], 7, s[0] % 128)
  }

  // ----- the encoder -----

  /** The digits pb_encode_varint writes: seven bits a byte, least significant
      first, the top bit set on all but the last. */
  function EncodeVarint(v: nat): (s: seq<byte>)
    ensures |s| >= 1
  {
    if v < 128 then [v] else [v % 128 + 128] + EncodeVarint(v / 128)
  }

  /** The first byte carries the low seven bits, the others the rest. */
  lemma EncodeVarintHead(v: nat, t: seq<byte>)
    ensures
      var s := EncodeVarint(v) + t;
      s != [] && s[0] % 128 == v % 128
      && (if v < 128 then s[0] == v && s[1..] == t
          else s[0] == v % 128 + 128 && s[1..] == EncodeVarint(v / 128) + t)
  {
    if v >= 128 {
      assert ([v % 128 + 128] + EncodeVarint(v / 128) + t)[1..] == EncodeVarint(v / 128) + t;
    } else {
      assert ([v] + t)[1..] == t;
    }
  }

  lemma {:induction false} EncodeVarintLength(v: nat, digits: nat)
    requires digits >= 1 && v < Shl(1, 7 * digits)
    ensures |EncodeVarint(v)| <= digits
  {
    if v >= 128 {
      ShlSeven(1, 7 * (digits - 1));
      EncodeVarintLength(v / 128, digits - 1);
    }
  }

  /** Every 64-bit value takes one to ten bytes. */
  lemma EncodeVarintTenBytes(v: nat)
    requires v < TWO64
    ensures 1 <= |EncodeVarint(v)| <= 10
  {
    ShlAt(1, 70);
    EncodeVarintLength(v, 10);
  }

  // ----- round trip through the 64-bit decoder -----

  lemma {:induction false} ShlZero(k: nat)
    ensures Shl(0, k) == 0
  {
    if k > 0 {
      ShlZero(k - 1);
    }
  }

  /** A value is its low seven bits plus the rest, seven places up. */
  lemma ShlSplit(v: nat, bitpos: nat)
    ensures Shl(v, bitpos) == Shl(v % 128, bitpos) + Shl(v / 128, bitpos + 7)
    ensures Shl(v % 128, bitpos) < Shl(1, bitpos + 7)
    ensures Shl(v, bitpos) >= Shl(1, bitpos) || v == 0
  {
    ShlSeven(v / 128, bitpos);
    ShlAdd(v % 128, 128 * (v / 128), bitpos);
    ShlSeven(1, bitpos);
    ShlMonotone(v % 128, 127, bitpos);
    ShlAdd(127, 1, bitpos);
    ShlPositive(bitpos);
    if v > 0 {
      ShlMonotone(1, v, bitpos);
    }
  }

  lemma {:induction false} ShlPositive(k: nat)
    ensures Shl(1, k) >= 1
  {
    if k > 0 {
      ShlPositive(k - 1);
    }
  }

  lemma ShlWord32()
    ensures Shl(1, 32) == TWO32
  {
    ShlAt(1, 28);
    assert Shl(1, 32) == 2 * Shl(1, 31) == 4 * Shl(1, 30);
    assert Shl(1, 30) == 2 * Shl(1, 29) == 4 * Shl(1, 28);
  }

  lemma ShlWord64()
    ensures Shl(1, 64) == TWO64
  {
    ShlAt(1, 63);
    assert Shl(1, 64) == 2 * Shl(1, 63);
  }

  lemma ModSmall(x: nat, word: nat)
    requires x < word
    ensures x % word == x
  {
  }

  lemma Mod32(x: nat, high: nat, low: nat)
    requires x == TWO32 * high + low && low < TWO32
    ensures x % TWO32 == low
  {
  }

  lemma Mod64(x: nat, high: nat, low: nat)
    requires x == TWO64 * high + low && low < TWO64
    ensures x % TWO64 == low
  {
  }

  /** A digit at bit 28 keeps four bits of itself in a 32-bit word. */
  lemma ShlTop32(digit: nat)
    ensures Shl(digit, 28) == TWO32 * (digit / 16) + Shl(digit % 16, 28)
    ensures Shl(digit % 16, 28) == 0x1000_0000 * (digit % 16) < TWO32
  {
    ShlAt(digit, 28);
    ShlAt(digit % 16, 28);
  }

  /** Below bit 28 a digit fits a 32-bit word, below bit 63 a 64-bit word. */
  lemma ShlFits(digit: nat, bitpos: nat)
    requires bitpos % 7 == 0 && digit < 128
    ensures bitpos <= 21 ==> Shl(digit, bitpos) < TWO32
    ensures bitpos <= 56 ==> Shl(digit, bitpos) < TWO64
  {
    if bitpos <= 56 {
      ShlAt(digit, bitpos);
    }
  }

  lemma {:induction false} ShlGrows(j: nat, k: nat)
    requires j <= k
    ensures Shl(1, j) <= Shl(1, k)
  {
    if j < k {
      ShlGrows(j, k - 1);
      ShlPositive(k - 1);
    }
  }

  /** A nonzero value that fits 64 bits starts below bit 64. */
  lemma ShlTooFar(v: nat, bitpos: nat)
    requires v > 0 && Shl(v, bitpos) < TWO64
    ensures bitpos < 64
  {
    if bitpos >= 64 {
      ShlMonotone(1, v, bitpos);
      ShlGrows(64, bitpos);
      ShlWord64();
      assert false;
    }
  }

  lemma {:induction false} Varint64Step(v: nat, bitpos: nat, result: nat, t: seq<byte>)
    requires v == 0 ==> bitpos == 0
    requires result < Shl(1, bitpos) && Shl(v, bitpos) < TWO64
    ensures Varint64From(EncodeVarint(v) + t, bitpos, result)
         == Some(Parsed(result + Shl(v, bitpos), t))
    decreases v
  {
    hide Or, Shl, Varint64From, EncodeVarint;
    var s := EncodeVarint(v) + t;
    EncodeVarintHead(v, t);
    ShlSplit(v, bitpos);
    if v > 0 {
      ShlTooFar(v, bitpos);
    }
    Varint64Unfold(s, bitpos, result);
    OrIsSum(result, v % 128, bitpos);
    ModSmall(Shl(v % 128, bitpos), TWO64);
    if v < 128 {
      ShlZero(bitpos + 7);
    } else {
      ShlBelow(result, v % 128, bitpos);
      Varint64Step(v / 128, bitpos + 7, result + Shl(v % 128, bitpos), t);
    }
  }

  /** Seven more bits keep the accumulator below the next bit position. */
  lemma ShlBelow(result: nat, digit: nat, bitpos: nat)
    requires result < Shl(1, bitpos) && digit < 128
    ensures result + Shl(digit, bitpos) < Shl(1, bitpos + 7)
  {
    ShlSeven(1, bitpos);
    ShlMonotone(digit, 127, bitpos);
    ShlAdd(127, 1, bitpos);
  }

  /** Every 64-bit value decodes back and the rest of the stream is intact. */
  lemma Varint64RoundTrip(v: nat, t: seq<byte>)
    requires v < TWO64
    ensures DecodeVarint64(EncodeVarint(v) + t) == Some(Parsed(v, t))
  {
    Varint64Step(v, 0, 0, t);
  }

  // ----- round trip through the 32-bit decoder -----

  /** One byte below bit 32 adds its digit, if that fits the word. */
  lemma Varint32ByteLow(b: byte, bitpos: byte, result: nat)
    requires bitpos < 32 && result < Shl(1, bitpos) && Shl(b % 128, bitpos) < TWO32
    ensures Varint32Byte(b, bitpos, result) == Some(result + Shl(b % 128, bitpos))
  {
    OrIsSum(result, b % 128, bitpos);
    ModSmall(Shl(b % 128, bitpos), TWO32);
  }

  lemma {:induction false} Varint32Step(v: nat, bitpos: byte, result: nat, t: seq<byte>)
    requires bitpos == 7 || bitpos == 14 || bitpos == 21 || bitpos == 28
    requires result < Shl(1, bitpos) && Shl(v, bitpos) < TWO32
    ensures Varint32From(EncodeVarint(v) + t, bitpos, result)
         == Some(Parsed(result + Shl(v, bitpos), t))
    decreases v
  {
    hide Or, Shl, Varint32Byte, Varint32From, EncodeVarint;
    var s := EncodeVarint(v) + t;
    EncodeVarintHead(v, t);
    ShlSplit(v, bitpos);
    Varint32ByteLow(s[0], bitpos, result);
    Varint32Unfold(s, bitpos, result, result + Shl(v % 128, bitpos));
    if bitpos == 28 {
      ShlFour(v);
    }
    if v < 128 {
      ShlZero(bitpos + 7);
    } else {
      ShlBelow(result, v % 128, bitpos);
      Varint32Step(v / 128, bitpos + 7, result + Shl(v % 128, bitpos), t);
    }
  }

  /** At most four bits fit a 32-bit word from bit 28 on. */
  lemma ShlFour(v: nat)
    requires Shl(v, 28) < TWO32
    ensures v < 16
  {
    ShlAt(v, 28);
  }

  lemma Varint32RoundTrip(v: nat, t: seq<byte>)
    requires v < TWO32
    ensures DecodeVarint32(EncodeVarint(v) + t) == Some(Parsed(v, t))
  {
    hide Or, Shl, Varint32From, EncodeVarint;
    EncodeVarintHead(v, t);
    if v >= 128 {
      ShlAt(1, 7);
      ShlAt(v / 128, 7);
      Varint32Step(v / 128, 7, v % 128, t);
    }
  }

  // ----- numbers of 33 to 63 bits -----

  /** What is left of a 63-bit number at this bit position. */
  function Room(bitpos: nat): nat {
    if bitpos == 7 then 0x100_0000_0000_0000
    else if bitpos == 14 then 0x2_0000_0000_0000
    else if bitpos == 21 then 0x400_0000_0000
    else if bitpos == 28 then 0x8_0000_0000
    else if bitpos == 35 then 0x1000_0000
    else if bitpos == 42 then 0x20_0000
    else if bitpos == 49 then 0x4000
    else 0x80
  }

  /** The part of it that does not fit 32 bits begins here. */
  function Excess(bitpos: nat): nat {
    if bitpos == 7 then 0x200_0000
    else if bitpos == 14 then 0x4_0000
    else if bitpos == 21 then 0x800
    else if bitpos == 28 then 0x10
    else 1
  }

  predicate SevenStep(bitpos: nat) {
    bitpos % 7 == 0 && 7 <= bitpos <= 56
  }

  lemma {:induction false} Varint32RefusesFrom(v: nat, bitpos: byte, result: nat, t: seq<byte>)
    requires SevenStep(bitpos) && Excess(bitpos) <= v < Room(bitpos)
    ensures Varint32From(EncodeVarint(v) + t, bitpos, result) == None
    decreases v
  {
    hide Or, Shl, Varint32From, EncodeVarint;
    var s := EncodeVarint(v) + t;
    EncodeVarintHead(v, t);
    var step := Varint32Byte(s[0], bitpos, result);
    if step.None? {
      Varint32Stops(s, bitpos, result);
    } else {
      Varint32Unfold(s, bitpos, result, step.value);
      if v >= 128 {
        Varint32RefusesFrom(v / 128, bitpos + 7, step.value, t);
      }
    }
  }

  lemma Varint32Stops(s: seq<byte>, bitpos: byte, result: nat)
    requires s != [] && Varint32Byte(s[0], bitpos, result).None?
    ensures Varint32From(s, bitpos, result) == None
  {
  }

  /** The 32-bit decoder refuses every longer number, up to 63 bits. */
  lemma Varint32RefusesLong(v: nat, t: seq<byte>)
    requires TWO32 <= v < TWO63
    ensures DecodeVarint32(EncodeVarint(v) + t) == None
  {
    hide Varint32From, EncodeVarint;
    EncodeVarintHead(v, t);
    Varint32RefusesFrom(v / 128, 7, v % 128, t);
  }

  // ----- the ten-byte form of a negative int32 -----

  /** All ones from bit 63 - 7 * j up to bit 63. */
  function Ones(j: nat): nat {
    if j == 0 then 1 else 128 * Ones(j - 1) + 127
  }

  /** Above bit 35 a sign-extended number is all ones, and the 32-bit decoder
      skips those bytes. */
  lemma {:induction false} Varint32Ones(j: nat, bitpos: byte, result: nat, t: seq<byte>)
    requires j <= 4 && bitpos == 63 - 7 * j && result / TWO31 != 0
    ensures Varint32From(EncodeVarint(Ones(j)) + t, bitpos, result) == Some(Parsed(result, t))
  {
    hide Varint32From, EncodeVarint;
    var v := Ones(j);
    var s := EncodeVarint(v) + t;
    EncodeVarintHead(v, t);
    if j > 0 {
      OnesPositive(j - 1);
    }
    assert s[0] == if j == 0 then 1 else 255;
    Varint32Unfold(s, bitpos, result, result);
    if j > 0 {
      Varint32Ones(j - 1, bitpos + 7, result, t);
    }
  }

  lemma {:induction false} OnesPositive(j: nat)
    ensures Ones(j) >= 1
  {
    if j > 0 {
      OnesPositive(j - 1);
    }
  }

  /** At bit 28 a byte contributes the low four of its seven bits. */
  lemma Varint32ByteTop(b: byte, result: nat)
    requires result < 0x1000_0000
    ensures Varint32Byte(b, 28, result) == Some(result + 0x1000_0000 * (b % 128 % 16))
  {
    hide Or, Shl;
    var digit := b % 128;
    ShlTop32(digit);
    Mod32(Shl(digit, 28), digit / 16, Shl(digit % 16, 28));
    ShlAt(1, 28);
    OrIsSum(result, digit % 16, 28);
  }

  /** The bits of a sign-extended number above bit 35 are ones. */
  lemma SignExtension(u: nat, result: nat)
    requires result < 0x1000_0000
    requires TWO64 - TWO31 <= result + 0x1000_0000 * u < TWO64
    ensures u / 128 == Ones(4) && u >= 128 && u % 128 % 16 == u % 16 >= 8
    ensures (result + 0x1000_0000 * u) % TWO32 == result + 0x1000_0000 * (u % 16)
  {
    assert Ones(1) == 255 && Ones(2) == 128 * 255 + 127;
    assert Ones(3) == 128 * Ones(2) + 127 && Ones(4) == 128 * Ones(3) + 127;
    assert u / 16 == 8 * (u / 128) + u % 128 / 16;
    Mod32(result + 0x1000_0000 * u, u / 16, result + 0x1000_0000 * (u % 16));
  }

  lemma Varint32NegativeTop(u: nat, result: nat, t: seq<byte>)
    requires result < 0x1000_0000
    requires TWO64 - TWO31 <= result + 0x1000_0000 * u < TWO64
    ensures Varint32From(EncodeVarint(u) + t, 28, result)
         == Some(Parsed((result + 0x1000_0000 * u) % TWO32, t))
  {
    hide Or, Shl, Varint32Byte, Varint32From, EncodeVarint, Ones;
    var s := EncodeVarint(u) + t;
    var low := result + 0x1000_0000 * (u % 16);
    EncodeVarintHead(u, t);
    SignExtension(u, result);
    Varint32ByteTop(s[0], result);
    Varint32Unfold(s, 28, result, low);
    Varint32Ones(4, 35, low, t);
  }

  lemma ShlLarge(u: nat, bitpos: nat)
    requires bitpos == 7 || bitpos == 14 || bitpos == 21
    requires Shl(u, bitpos) >= TWO64 - TWO32
    ensures u >= 128
  {
    ShlAt(u, bitpos);
  }

  lemma ShlBelowWord(bitpos: nat)
    requires bitpos == 7 || bitpos == 14 || bitpos == 21
    ensures Shl(1, bitpos) < TWO31
  {
    ShlAt(1, bitpos);
  }

  /** The digits of a sign-extended number from `bitpos` on. */
  lemma {:induction false} Varint32Negative(u: nat, bitpos: byte, result: nat, t: seq<byte>)
    requires bitpos == 7 || bitpos == 14 || bitpos == 21 || bitpos == 28
    requires result < Shl(1, bitpos)
    requires TWO64 - TWO31 <= result + Shl(u, bitpos) < TWO64
    ensures Varint32From(EncodeVarint(u) + t, bitpos, result)
         == Some(Parsed((result + Shl(u, bitpos)) % TWO32, t))
    decreases 28 - bitpos
  {
    hide Or, Shl, Varint32Byte, Varint32From, EncodeVarint;
    if bitpos == 28 {
      ShlAt(u, 28);
      ShlAt(1, 28);
      Varint32NegativeTop(u, result, t);
    } else {
      var s := EncodeVarint(u) + t;
      EncodeVarintHead(u, t);
      ShlBelowWord(bitpos);
      ShlLarge(u, bitpos);
      ShlSplit(u, bitpos);
      ShlBelow(result, u % 128, bitpos);
      ShlFits(u % 128, bitpos);
      Varint32ByteLow(s[0], bitpos, result);
      Varint32Unfold(s, bitpos, result, result + Shl(u % 128, bitpos));
      Varint32Negative(u / 128, bitpos + 7, result + Shl(u % 128, bitpos), t);
    }
  }

  /** A negative int32 n is written sign-extended as 2^64 + n in ten bytes, and
      the 32-bit decoder reads it as 2^32 + n. */
  lemma Varint32AcceptsNegative(n: int, t: seq<byte>)
    requires -TWO31 <= n < 0
    ensures |EncodeVarint(TWO64 + n)| == 10
    ensures DecodeVarint32(EncodeVarint(TWO64 + n) + t) == Some(Parsed(TWO32 + n, t))
  {
    hide Or, Shl, Varint32From, EncodeVarint;
    var v: nat := TWO64 + n;
    EncodeVarintHead(v, t);
    ShlAt(1, 7);
    ShlAt(v / 128, 7);
    Varint32Negative(v / 128, 7, v % 128, t);
    Mod32(v, TWO32 - 1, TWO32 + n);
    EncodeVarintTenBytes(v);
    ShlAt(1, 63);
    EncodeVarintAtLeast(v, 9);
  }

  lemma {:induction false} EncodeVarintAtLeast(v: nat, digits: nat)
    requires v >= Shl(1, 7 * digits)
    ensures |EncodeVarint(v)| > digits
  {
    if digits > 0 {
      ShlSeven(1, 7 * (digits - 1));
      ShlPositive(7 * (digits - 1));
      EncodeVarintAtLeast(v / 128, digits - 1);
    }
  }

  // ----- the two decoders agree -----

  /** A digit below bit 28: both words take it whole. */
  lemma DigitLow(result: nat, digit: nat, bitpos: nat)
    requires bitpos == 7 || bitpos == 14 || bitpos == 21
    requires result < Shl(1, bitpos) && digit < 128
    ensures Or(result, Shl(digit, bitpos) % TWO64) == Or(result, Shl(digit, bitpos) % TWO32)
         == result + Shl(digit, bitpos) < Shl(1, bitpos + 7)
  {
    ShlFits(digit, bitpos);
    ModSmall(Shl(digit, bitpos), TWO64);
    ModSmall(Shl(digit, bitpos), TWO32);
    ShlBelow(result, digit, bitpos);
    OrIsSum(result, digit, bitpos);
  }

  /** A digit at bit 28: the 32-bit word drops its top three bits. */
  lemma DigitTop(result: nat, digit: nat)
    requires result < Shl(1, 28) && digit < 128
    ensures Or(result, Shl(digit, 28) % TWO64) == result + Shl(digit, 28) < Shl(1, 35)
    ensures Or(result, Shl(digit, 28) % TWO32) == (result + Shl(digit, 28)) % TWO32
  {
    ShlFits(digit, 28);
    ModSmall(Shl(digit, 28), TWO64);
    ShlBelow(result, digit, 28);
    OrIsSum(result, digit, 28);
    OrIsSum(result, digit % 16, 28);
    ShlTop32(digit);
    ShlAt(1, 28);
    Mod32(Shl(digit, 28), digit / 16, Shl(digit % 16, 28));
    Mod32(result + Shl(digit, 28), digit / 16, result + Shl(digit % 16, 28));
  }

  lemma ShlHigh(c: nat, bitpos: nat) returns (high: nat)
    requires bitpos == 35 || bitpos == 42 || bitpos == 49 || bitpos == 56 || bitpos == 63
    ensures Shl(c, bitpos) == TWO32 * high
  {
    ShlAt(c, bitpos);
    high := (if bitpos == 35 then 0x8 else if bitpos == 42 then 0x400 else if bitpos == 49 then 0x2_0000
             else if bitpos == 56 then 0x100_0000 else 0x8000_0000) * c;
  }

  lemma ShlKeepsLow(result: nat, c: nat, bitpos: nat)
    requires bitpos == 35 || bitpos == 42 || bitpos == 49 || bitpos == 56 || bitpos == 63
    ensures (result + Shl(c, bitpos)) % TWO32 == result % TWO32
  {
    var high := ShlHigh(c, bitpos);
    Mod32(result + Shl(c, bitpos), high + result / TWO32, result % TWO32);
  }

  lemma ShlTop64(digit: nat)
    ensures Shl(digit, 63) == TWO64 * (digit / 2) + Shl(digit % 2, 63)
    ensures Shl(digit % 2, 63) < TWO64
  {
    ShlAt(digit, 63);
    ShlAt(digit % 2, 63);
  }

  /** A digit from bit 35 up leaves the low 32 bits of the wide word alone. */
  lemma DigitHigh(result: nat, digit: nat, bitpos: nat)
    requires bitpos == 35 || bitpos == 42 || bitpos == 49 || bitpos == 56 || bitpos == 63
    requires result < Shl(1, bitpos) && digit < 128
    ensures var r := Or(result, Shl(digit, bitpos) % TWO64); r % TWO32 == result % TWO32 && r < Shl(1, bitpos + 7)
  {
    var c := if bitpos == 63 then digit % 2 else digit;
    assert Shl(digit, bitpos) % TWO64 == Shl(c, bitpos) by {
      if bitpos == 63 {
        ShlTop64(digit);
        Mod64(Shl(digit, 63), digit / 2, Shl(digit % 2, 63));
      } else {
        ShlFits(digit, bitpos);
        ModSmall(Shl(digit, bitpos), TWO64);
      }
    }
    OrIsSum(result, c, bitpos);
    ShlKeepsLow(result, c, bitpos);
    ShlBelow(result, c, bitpos);
  }

  lemma ShlBelowNext(x: nat, bitpos: nat)
    requires bitpos == 7 || bitpos == 14 || bitpos == 21
    requires x < Shl(1, bitpos + 7)
    ensures x % TWO32 == x
  {
    ShlAt(1, bitpos + 7);
    ModSmall(x, TWO32);
  }

  /** One byte keeps the two accumulators equal modulo 2^32. */
  lemma {:induction false} VarintByteAgrees(b: byte, bitpos: byte, wide: nat, narrow: nat)
    requires 7 <= bitpos <= 63 && bitpos % 7 == 0
    requires wide < Shl(1, bitpos) && narrow == wide % TWO32
    requires bitpos <= 28 ==> narrow == wide
    requires Varint32Byte(b, bitpos, narrow).Some?
    ensures
      var wide' := Or(wide, Shl(b % 128, bitpos) % TWO64);
      wide' < Shl(1, bitpos + 7)
      && Varint32Byte(b, bitpos, narrow).value == wide' % TWO32
      && (bitpos < 28 ==> wide' % TWO32 == wide')
  {
    hide Or, Shl;
    var digit := b % 128;
    if bitpos < 28 {
      DigitLow(wide, digit, bitpos);
      ShlBelowNext(wide + Shl(digit, bitpos), bitpos);
    } else if bitpos == 28 {
      DigitTop(wide, digit);
    } else {
      DigitHigh(wide, digit, bitpos);
    }
  }

  lemma VarintGoesOn(s: seq<byte>, bitpos: byte, wide: nat, narrow: nat)
    requires Varint64From(s, bitpos, wide).Some? && Varint32From(s, bitpos, narrow).Some?
    ensures s != [] && bitpos < 64 && Varint32Byte(s[0], bitpos, narrow).Some?
  {
    hide Or, Shl;
  }

  lemma {:induction false} VarintLoopsAgree(s: seq<byte>, bitpos: byte, wide: nat, narrow: nat)
    requires 7 <= bitpos <= 70 && bitpos % 7 == 0
    requires wide < Shl(1, bitpos) && narrow == wide % TWO32
    requires bitpos <= 28 ==> narrow == wide
    requires Varint64From(s, bitpos, wide).Some? && Varint32From(s, bitpos, narrow).Some?
    ensures Varint64From(s, bitpos, wide).value.rest == Varint32From(s, bitpos, narrow).value.rest
    ensures Varint64From(s, bitpos, wide).value.value % TWO32 == Varint32From(s, bitpos, narrow).value.value
    decreases |s|
  {
    hide Or, Shl, Varint32Byte, Varint64From, Varint32From;
    VarintGoesOn(s, bitpos, wide, narrow);
    var wide' := Or(wide, Shl(s[0] % 128, bitpos) % TWO64);
    var narrow' := Varint32Byte(s[0], bitpos, narrow).value;
    Varint64Unfold(s, bitpos, wide);
    Varint32Unfold(s, bitpos, narrow, narrow');
    VarintByteAgrees(s[0], bitpos, wide, narrow);
    if s[0] >= 128 {
      VarintLoopsAgree(s[1..], bitpos + 7, wide', narrow');
    }
  }

  /** Whenever both decoders accept a stream they read the same bytes and
      agree modulo 2^32. */
  lemma VarintDecodersAgree(s: seq<byte>)
    requires DecodeVarint64(s).Some? && DecodeVarint32(s).Some?
    ensures DecodeVarint64(s).value.rest == DecodeVarint32(s).value.rest
    ensures DecodeVarint64(s).value.value % TWO32 == DecodeVarint32(s).value.value
  {
    hide Or, Shl, Varint32From;
    assert Shl(s[0] % 128, 0) == s[0] % 128 && DecodeVarint64(s) == Varint64From(s, 0, 0) by {
      ShlAt(s[0] % 128, 0);
    }
    Varint64Unfold(s, 0, 0);
    hide Varint64From;
    OrZero(s[0] % 128);
    ModSmall(s[0] % 128, TWO64);
    ModSmall(s[0] % 128, TWO32);
    ShlAt(1, 7);
    if s[0] >= 128 {
      VarintLoopsAgree(s[1..], 7, s[0] % 128, s[0] % 128);
    }
  }

  // ----- decoders do not look past what they consume -----

  lemma {:induction false} Varint64Local(s: seq<byte>, bitpos: nat, result: nat, t: seq<byte>)
    requires Varint64From(s, bitpos, result).Some?
    ensures
      var r := Varint64From(s, bitpos, result).value;
      Varint64From(s + t, bitpos, result) == Some(Parsed(r.value, r.rest + t))
    decreases |s|
  {
    assert (s + t)[0] == s[0] && (s + t)[1..] == s[1..] + t;
    if s[0] >= 128 {
      Varint64Local(s[1..], bitpos + 7, Or(result, Shl(s[0] % 128, bitpos) % TWO64), t);
    }
  }

  lemma {:induction false} Varint32Local(s: seq<byte>, bitpos: byte, result: nat, t: seq<byte>)
    requires Varint32From(s, bitpos, result).Some?
    ensures
      var r := Varint32From(s, bitpos, result).value;
      Varint32From(s + t, bitpos, result) == Some(Parsed(r.value, r.rest + t))
    decreases |s|
  {
    assert (s + t)[0] == s[0] && (s + t)[1..] == s[1..] + t;
    if s[0] >= 128 {
      Varint32Local(s[1..], (bitpos + 7) % 256, Varint32Byte(s[0], bitpos, result).value, t);
    }
  }

  lemma DecodeVarint32Local(s: seq<byte>, t: seq<byte>)
    requires DecodeVarint32(s).Some?
    ensures
      var r := DecodeVarint32(s).value;
      DecodeVarint32(s + t) == Some(Parsed(r.value, r.rest + t))
  {
    assert (s + t)[0] == s[0] && (s + t)[1..] == s[1..] + t;
    if s[0] >= 128 {
      Varint32Local(s[1..], 7, s[0] % 128, t);
    }
  }

  // ----- decoded values fit their words -----

  lemma {:induction false} Varint32Bound(s: seq<byte>, bitpos: byte, result: nat)
    requires result < TWO32 && Varint32From(s, bitpos, result).Some?
    ensures Varint32From(s, bitpos, result).value.value < TWO32
    decreases |s|
  {
    ShlWord32();
    var x := Shl(s[0] % 128, bitpos) % TWO32;
    OrBound(result, x, 32);
    if s[0] >= 128 {
      Varint32Bound(s[1..], (bitpos + 7) % 256, Varint32Byte(s[0], bitpos, result).value);
    }
  }

  lemma {:induction false} Varint64Bound(s: seq<byte>, bitpos: nat, result: nat)
    requires result < TWO64 && Varint64From(s, bitpos, result).Some?
    ensures Varint64From(s, bitpos, result).value.value < TWO64
    decreases |s|
  {
    ShlWord64();
    var x := Shl(s[0] % 128, bitpos) % TWO64;
    OrBound(result, x, 64);
    if s[0] >= 128 {
      Varint64Bound(s[1..], bitpos + 7, Or(result, x));
    }
  }

  lemma DecodedVarintsFit(s: seq<byte>)
    ensures DecodeVarint32(s).Some? ==> DecodeVarint32(s).value.value < TWO32
    ensures DecodeVarint64(s).Some? ==> DecodeVarint64(s).value.value < TWO64
  {
    if DecodeVarint32(s).Some? && s[0] >= 128 {
      Varint32Bound(s[1..], 7, s[0] % 128);
    }
    if DecodeVarint64(s).Some? {
      Varint64Bound(s, 0, 0);
    }
  }

  // ----- zig-zag -----

  /** pb_encode_svarint's mapping, on the 64-bit two's complement image of v. */
  function ZigZag(v: int): nat
    requires -TWO63 <= v < TWO63
  {
    if v < 0 then TWO64 - 1 - (2 * (v + TWO64)) % TWO64 else 2 * v
  }

  /** pb_decode_svarint's inverse: an odd code is complemented. */
  function UnZigZag(u: nat): int
    requires u < TWO64
  {
    if u % 2 == 1 then TWO64 - 1 - u / 2 - TWO64 else u / 2
  }

  lemma ZigZagRoundTrip(v: int)
    requires -TWO63 <= v < TWO63
    ensures ZigZag(v) < TWO64 && UnZigZag(ZigZag(v)) == v
    ensures forall w | -TWO63 <= w < TWO63 :: ZigZag(w) == ZigZag(v) ==> w == v
  {
    assert v < 0 ==> (2 * (v + TWO64)) % TWO64 == 2 * v + TWO64;
    forall w | -TWO63 <= w < TWO63 && ZigZag(w) == ZigZag(v)
      ensures w == v
    {
      assert w < 0 ==> (2 * (w + TWO64)) % TWO64 == 2 * w + TWO64;
    }
  }
}
