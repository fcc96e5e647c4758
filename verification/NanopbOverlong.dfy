/** What the two varint decoders accept, byte for byte, canonical or not. */
module NanopbOverlong {
  import opened Prelude
  import opened NanopbVarint

  /** A varint of any length: bytes with the top bit, then one without. */
  predicate IsVarint(s: seq<byte>) {
    |s| > 0 && s[|s| - 1] < 128 && forall i :: 0 <= i < |s| - 1 ==> s[i] >= 128
  }

  /** The number its digits stand for. */
  function Value(e: seq<byte>): nat {
    if e == [] then 0 else e[0] % 128 + 128 * Value(e[1..])
  }

  lemma ValueShifted(e: seq<byte>, bitpos: nat)
    requires e != []
    ensures Shl(Value(e), bitpos) == Shl(e[0] % 128, bitpos) + Shl(Value(e[1..]), bitpos + 7)
  {
    hide Shl;
    ShlSeven(Value(e[1..]), bitpos);
    ShlAdd(e[0] % 128, 128 * Value(e[1..]), bitpos);
  }

  lemma Tail(e: seq<byte>, t: seq<byte>)
    requires IsVarint(e)
    ensures e + t != [] && (e + t)[0] == e[0] && (e + t)[1..] == e[1..] + t
    ensures e[0] < 128 <==> |e| == 1
    ensures |e| == 1 ==> e[1..] + t == t
    ensures |e| > 1 ==> IsVarint(e[1..])
  {
  }

  lemma NotEmpty(e: seq<byte>)
    requires IsVarint(e)
    ensures e != []
  {
  }

  // ----- the 64-bit decoder -----

  lemma LastDigit64(result: nat, digit: nat)
    requires result < Shl(1, 63) && digit < 128
    ensures Or(result, Shl(digit, 63) % TWO64) == (result + Shl(digit, 63)) % TWO64
  {
    ShlTop64(digit);
    Mod64(Shl(digit, 63), digit / 2, Shl(digit % 2, 63));
    OrIsSum(result, digit % 2, 63);
    ShlAt(1, 63);
    ShlAt(digit % 2, 63);
    Mod64(result + Shl(digit, 63), digit / 2, result + Shl(digit % 2, 63));
  }

  lemma {:induction false} Loop64(e: seq<byte>, t: seq<byte>, bitpos: nat, result: nat)
    requires IsVarint(e) && bitpos % 7 == 0 && bitpos <= 63 && result < Shl(1, bitpos)
    ensures Varint64From(e + t, bitpos, result)
         == if 7 * |e| + bitpos <= 70 then Some(Parsed((result + Shl(Value(e), bitpos)) % TWO64, t)) else None
    decreases |e|
  {
    hide Or, Shl, Varint64From, Value, IsVarint;
    Tail(e, t);
    assert e != [] by {
      NotEmpty(e);
    }
    var digit := e[0] % 128;
    Varint64Unfold(e + t, bitpos, result);
    ValueShifted(e, bitpos);
    if |e| == 1 {
      assert Value([]) == 0 by {
        EmptyValue();
      }
      assert e[1..] == [];
      ShlZero(bitpos + 7);
    }
    if bitpos == 63 {
      LastDigit64(result, digit);
      TooFar(e[1..] + t, Or(result, Shl(digit, 63) % TWO64));
    } else {
      ShlFits(digit, bitpos);
      ModSmall(Shl(digit, bitpos), TWO64);
      OrIsSum(result, digit, bitpos);
      ShlBelow(result, digit, bitpos);
      if |e| == 1 {
        ShlAt(1, 63);
        ShlGrows(bitpos + 7, 63);
        ModSmall(result + Shl(digit, bitpos), TWO64);
      } else {
        Loop64(e[1..], t, bitpos + 7, result + Shl(digit, bitpos));
      }
    }
  }

  lemma EmptyValue()
    ensures Value([]) == 0
  {
  }

  lemma TooFar(s: seq<byte>, result: nat)
    ensures Varint64From(s, 70, result) == None
  {
  }

  /** A varint of up to ten bytes is read as its number modulo 2^64, whatever
      its last byte; a longer one is refused, even if it stands for less. */
  lemma Varint64Exactly(e: seq<byte>, t: seq<byte>)
    requires IsVarint(e)
    ensures DecodeVarint64(e + t) == if |e| <= 10 then Some(Parsed(Value(e) % TWO64, t)) else None
  {
    ShlAt(Value(e), 0);
    Loop64(e, t, 0, 0);
  }

  // ----- the 32-bit decoder -----

  /** The k-th byte past the fifth adds nothing: its digit is zero, or it is one
      of the sign extension's. */
  predicate Pads(b: byte, k: nat, negative: bool) {
    b % 128 == 0 || (negative && b == if k < 4 then 255 else 1)
  }

  predicate AllPad(e: seq<byte>, k: nat, negative: bool) {
    forall i: nat :: i < |e| ==> Pads(e[i], k + i, negative)
  }

  lemma {:induction false} LoopPadding(e: seq<byte>, t: seq<byte>, k: nat, result: nat)
    requires IsVarint(e) && k + |e| <= 32 && result < TWO32
    ensures Varint32From(e + t, 35 + 7 * k, result)
         == if AllPad(e, k, result >= TWO31) then Some(Parsed(result, t)) else None
    decreases |e|
  {
    hide Or, Shl, Varint32From, IsVarint;
    Tail(e, t);
    var negative := result >= TWO31;
    var bitpos: byte := 35 + 7 * k;
    if Pads(e[0], k, negative) {
      Varint32Unfold(e + t, bitpos, result, result);
      if |e| > 1 {
        LoopPadding(e[1..], t, k + 1, result);
        AllPadNext(e, k, negative);
      }
    } else {
      Varint32Stops(e + t, bitpos, result);
    }
  }

  lemma AllPadNext(e: seq<byte>, k: nat, negative: bool)
    requires e != [] && Pads(e[0], k, negative)
    ensures AllPad(e, k, negative) <==> AllPad(e[1..], k + 1, negative)
  {
    if AllPad(e[1..], k + 1, negative) {
      forall i: nat | i < |e|
        ensures Pads(e[i], k + i, negative)
      {
        assert i > 0 ==> Pads(e[1..][i - 1], k + 1 + (i - 1), negative);
      }
    }
    if AllPad(e, k, negative) {
      forall i: nat | i < |e[1..]|
        ensures Pads(e[1..][i], k + 1 + i, negative)
      {
        assert Pads(e[i + 1], k + (i + 1), negative);
      }
    }
  }

  /** The low 32 bits of what the first n digits add to `result`. */
  function Low(e: seq<byte>, n: nat, bitpos: nat, result: nat): nat {
    (result + Shl(Value(e[..Min(n, |e|)]), bitpos)) % TWO32
  }

  /** n more digits count: the last of them with four bits, if no more follow;
      all others must add nothing. */
  predicate Accepted(e: seq<byte>, n: nat, low: nat)
    requires n > 0
  {
    && (|e| == n ==> e[n - 1] < 16)
    && (|e| > n ==> AllPad(e[n..], 0, low >= TWO31))
  }

  lemma LowNext(e: seq<byte>, n: nat, bitpos: nat, result: nat)
    requires e != [] && n > 0
    ensures Low(e, n, bitpos, result) == Low(e[1..], n - 1, bitpos + 7, result + Shl(e[0] % 128, bitpos))
  {
    hide Shl, Value;
    var head := e[..Min(n, |e|)];
    assert head[1..] == e[1..][..Min(n - 1, |e[1..]|)];
    ValueShifted(head, bitpos);
  }

  lemma LowOne(e: seq<byte>, n: nat, bitpos: nat, result: nat)
    requires e != [] && n > 0 && (n == 1 || |e| == 1)
    ensures Low(e, n, bitpos, result) == (result + Shl(e[0] % 128, bitpos)) % TWO32
  {
    hide Shl;
    LowNext(e, n, bitpos, result);
    assert e[1..][..Min(n - 1, |e[1..]|)] == [];
    ShlZero(bitpos + 7);
  }

  lemma Byte28(b: byte, result: nat)
    requires result < Shl(1, 28)
    ensures Varint32Byte(b, 28, result) == Some((result + Shl(b % 128, 28)) % TWO32)
  {
    hide Or, Shl;
    DigitTop(result, b % 128);
  }

  lemma {:induction false} Loop32(e: seq<byte>, t: seq<byte>, n: nat, bitpos: byte, result: nat)
    requires IsVarint(e) && 1 <= n <= 4 && bitpos == 35 - 7 * n && result < Shl(1, bitpos) && |e| <= n + 32
    ensures
      var low := Low(e, n, bitpos, result);
      Varint32From(e + t, bitpos, result) == if Accepted(e, n, low) then Some(Parsed(low, t)) else None
    decreases n
  {
    hide Or, Shl, Varint32Byte, Varint32From, IsVarint, Low, AllPad;
    Tail(e, t);
    LowNext(e, n, bitpos, result);
    if n == 1 {
      LowOne(e, n, bitpos, result);
      Byte28(e[0], result);
      var low := (result + Shl(e[0] % 128, 28)) % TWO32;
      Varint32Unfold(e + t, 28, result, low);
      if |e| > 1 {
        LoopPadding(e[1..], t, 0, low);
      }
    } else {
      var next := result + Shl(e[0] % 128, bitpos);
      ShlFits(e[0] % 128, bitpos);
      ShlBelow(result, e[0] % 128, bitpos);
      Varint32ByteLow(e[0], bitpos, result);
      Varint32Unfold(e + t, bitpos, result, next);
      if |e| == 1 {
        LowOne(e, n, bitpos, result);
        ShlBelowNext(next, bitpos);
      } else {
        Loop32(e[1..], t, n - 1, bitpos + 7, next);
        assert |e| > n ==> e[1..][n - 1..] == e[n..];
      }
    }
  }

  /** A varint of up to 36 bytes is read as the low 32 bits of its first five
      digits. It is refused exactly if it has five bytes and is 2^32 or more,
      or has more of which one is neither padding nor, in a number whose bit 31
      is set, sign extension. */
  lemma Varint32Exactly(e: seq<byte>, t: seq<byte>)
    requires IsVarint(e) && |e| <= 36
    ensures
      var low := Value(e[..Min(5, |e|)]) % TWO32;
      && (DecodeVarint32(e + t).Some? <==>
            && (|e| == 5 ==> Value(e) < TWO32)
            && forall i: nat :: 5 <= i < |e| ==> Pads(e[i], i - 5, low >= TWO31))
      && (DecodeVarint32(e + t).Some? ==> DecodeVarint32(e + t).value == Parsed(low, t))
  {
    hide DecodeVarint32, IsVarint, Value, Pads, Low, Accepted;
    NotEmpty(e);
    Decode32(e, t);
    LowIs(e);
    if |e| > 1 {
      AcceptedIs(e, Low(e, 5, 0, 0));
    }
  }

  lemma Decode32(e: seq<byte>, t: seq<byte>)
    requires IsVarint(e) && |e| <= 36
    ensures
      var low := Low(e, 5, 0, 0);
      DecodeVarint32(e + t) == if |e| == 1 || Accepted(e[1..], 4, low) then Some(Parsed(low, t)) else None
  {
    hide Or, Shl, Varint32From, IsVarint, Low, Accepted, Value;
    NotEmpty(e);
    Tail(e, t);
    ShlAt(e[0] % 128, 0);
    if |e| == 1 {
      LowOne(e, 5, 0, 0);
    } else {
      LowNext(e, 5, 0, 0);
      ShlAt(1, 7);
      Loop32(e[1..], t, 4, 7, e[0] % 128);
    }
  }

  lemma AcceptedIs(e: seq<byte>, low: nat)
    requires IsVarint(e) && |e| > 1
    ensures Accepted(e[1..], 4, low) <==>
              && (|e| == 5 ==> Value(e) < TWO32)
              && forall i: nat :: 5 <= i < |e| ==> Pads(e[i], i - 5, low >= TWO31)
  {
    hide IsVarint, Value, Pads, AllPad;
    if |e| == 5 {
      FiveDigits(e);
    } else if |e| > 5 {
      assert e[1..][4..] == e[5..];
      PadsFrom(e, low >= TWO31);
    }
  }

  lemma LowIs(e: seq<byte>)
    ensures Low(e, 5, 0, 0) == Value(e[..Min(5, |e|)]) % TWO32
  {
    hide Value;
    ShlAt(Value(e[..Min(5, |e|)]), 0);
  }

  lemma PadsFrom(e: seq<byte>, negative: bool)
    ensures |e| > 5 ==>
              (AllPad(e[5..], 0, negative) <==> forall i: nat :: 5 <= i < |e| ==> Pads(e[i], i - 5, negative))
  {
    if |e| > 5 && AllPad(e[5..], 0, negative) {
      forall i: nat | 5 <= i < |e|
        ensures Pads(e[i], i - 5, negative)
      {
        assert Pads(e[5..][i - 5], 0 + (i - 5), negative);
      }
    }
  }

  lemma FiveDigits(e: seq<byte>)
    requires IsVarint(e) && |e| == 5
    ensures Value(e) < TWO32 <==> e[4] < 16
    ensures e[..5] == e && e[1..][4..] == []
  {
    hide Value;
    assert e[0..] == e && e[5..] == [];
    ValueFrom(e, 0);
    ValueFrom(e, 1);
    ValueFrom(e, 2);
    ValueFrom(e, 3);
    ValueFrom(e, 4);
    EmptyValue();
  }

  lemma ValueFrom(e: seq<byte>, i: nat)
    requires i < |e|
    ensures Value(e[i..]) == e[i] % 128 + 128 * Value(e[i + 1..])
  {
    assert e[i..][1..] == e[i + 1..];
  }

  // ----- unfinished -----

  predicate Unfinished(s: seq<byte>) {
    forall i :: 0 <= i < |s| ==> s[i] >= 128
  }

  lemma {:induction false} Loops64Wait(s: seq<byte>, bitpos: nat, result: nat)
    requires Unfinished(s)
    ensures Varint64From(s, bitpos, result) == None
    decreases |s|
  {
    hide Or, Shl;
    if s != [] && bitpos < 64 {
      Loops64Wait(s[1..], bitpos + 7, Or(result, Shl(s[0] % 128, bitpos) % TWO64));
    }
  }

  lemma {:induction false} Loops32Wait(s: seq<byte>, bitpos: byte, result: nat)
    requires Unfinished(s)
    ensures Varint32From(s, bitpos, result) == None
    decreases |s|
  {
    hide Or, Shl, Varint32Byte;
    if s != [] && Varint32Byte(s[0], bitpos, result).Some? {
      Loops32Wait(s[1..], (bitpos + 7) % 256, Varint32Byte(s[0], bitpos, result).value);
    }
  }

  /** A stream that ends before its varint does is refused. */
  lemma UnfinishedIsRefused(s: seq<byte>)
    requires Unfinished(s)
    ensures DecodeVarint64(s) == None && DecodeVarint32(s) == None
  {
    Loops64Wait(s, 0, 0);
    if s != [] {
      Loops32Wait(s[1..], 7, s[0] % 128);
    }
  }

  // ----- past 36 bytes -----

  /** Bytes that carry a zero digit and go on. */
  function Padding(n: nat): seq<byte> {
    if n == 0 then [] else [128] + Padding(n - 1)
  }

  lemma {:induction false} PaddingPasses(n: nat, s: seq<byte>, bitpos: byte, result: nat)
    requires 35 <= bitpos && bitpos + 7 * n <= 259
    ensures Varint32From(Padding(n) + s, bitpos, result) == Varint32From(s, (bitpos + 7 * n) % 256, result)
    decreases n
  {
    hide Or, Shl, Varint32From;
    if n == 0 {
      assert [] + s == s;
    } else {
      assert ([128] + Padding(n - 1) + s)[1..] == Padding(n - 1) + s;
      Varint32Unfold(Padding(n) + s, bitpos, result, result);
      if n > 1 {
        PaddingPasses(n - 1, s, bitpos + 7, result);
      } else {
        assert Padding(0) + s == s;
      }
    }
  }

  /** The bit position is held in eight bits, so the digit of the 38th byte is
      added in again, at bit 3: this one is read as 8. */
  lemma Varint32Wraps(t: seq<byte>)
    ensures DecodeVarint32([128, 128, 128, 128, 128] + Padding(32) + [1] + t) == Some(Parsed(8, t))
  {
    hide Or, Varint32From, Varint32Byte, Padding;
    var rest := Padding(32) + ([1] + t);
    var s := [128, 128, 128, 128, 128] + Padding(32) + [1] + t;
    assert s[1..] == [128, 128, 128, 128] + rest;
    ZeroByte([128, 128, 128, 128] + rest, 7);
    assert ([128, 128, 128, 128] + rest)[1..] == [128, 128, 128] + rest;
    ZeroByte([128, 128, 128] + rest, 14);
    assert ([128, 128, 128] + rest)[1..] == [128, 128] + rest;
    ZeroByte([128, 128] + rest, 21);
    assert ([128, 128] + rest)[1..] == [128] + rest;
    ZeroByte([128] + rest, 28);
    assert ([128] + rest)[1..] == rest;
    PaddingPasses(32, [1] + t, 35, 0);
    EightAtThree();
    Varint32Unfold([1] + t, 3, 0, 8);
    assert ([1] + t)[1..] == t;
  }

  lemma ZeroByte(s: seq<byte>, bitpos: byte)
    requires s != [] && s[0] == 128 && (bitpos == 7 || bitpos == 14 || bitpos == 21 || bitpos == 28)
    ensures Varint32From(s, bitpos, 0) == Varint32From(s[1..], bitpos + 7, 0)
  {
    hide Varint32From;
    ShlZero(bitpos);
    OrZero(0);
    Varint32Unfold(s, bitpos, 0, 0);
  }

  lemma EightAtThree()
    ensures Varint32Byte(1, 3, 0) == Some(8)
  {
    assert Shl(1, 3) == 2 * Shl(1, 2) == 8;
    OrZero(8);
  }
}
