/// The VarInt sub-codec (the internal static class VarInt of
/// NbtBinaryReader.cs): ZigZag remapping of signed values, and the base-128
/// encoding of Protocol Buffers, seven bits per byte, least significant group
/// first, the high bit of a byte set when another byte follows.
module VarInt {
  import opened Bytes
  import opened Streams

  // ---------------------------------------------------------------------
  // ZigZag

  /** n >> k on a C# int: the arithmetic shift, which copies the sign bit. */
  function ShiftRightArithmetic32(n: bv32, k: nat): bv32
    requires k < 32
  {
    if n & 0x8000_0000 == 0 then n >> k else !((!n) >> k)
  }

  /** n >> k on a C# long. */
  function ShiftRightArithmetic64(n: bv64, k: nat): bv64
    requires k < 64
  {
    if n & 0x8000_0000_0000_0000 == 0 then n >> k else !((!n) >> k)
  }

  /** EncodeZigZag32: (n << 1) ^ (n >> 31), the shift right being arithmetic. */
  function EncodeZigZag32(n: bv32): bv32
  {
    (n << 1) ^ ShiftRightArithmetic32(n, 31)
  }

  /** DecodeZigZag32: (n >> 1) ^ -(n & 1), the shift right being logical. */
  function DecodeZigZag32(n: bv32): bv32
  {
    (n >> 1) ^ (0 - (n & 1))
  }

  function EncodeZigZag64(n: bv64): bv64
  {
    (n << 1) ^ ShiftRightArithmetic64(n, 63)
  }

  function DecodeZigZag64(n: bv64): bv64
  {
    (n >> 1) ^ (0 - (n & 1))
  }

  // The four maps case by case: a non-negative n goes to 2n, a negative n to
  // -2n-1 = !(n << 1); an even code decodes to half of it, an odd one to
  // the complement of half of it.

  lemma EncodeZigZag32NonNegative(n: bv32)
    requires n & 0x8000_0000 == 0
    ensures EncodeZigZag32(n) == n << 1
  {
    assert ShiftRightArithmetic32(n, 31) == 0;
  }

  lemma EncodeZigZag32Negative(n: bv32)
    requires n & 0x8000_0000 != 0
    ensures EncodeZigZag32(n) == !(n << 1)
  {
    assert ShiftRightArithmetic32(n, 31) == 0xFFFF_FFFF;
  }

  lemma DecodeZigZag32Even(n: bv32)
    requires n & 1 == 0
    ensures DecodeZigZag32(n) == n >> 1
  {
  }

  lemma DecodeZigZag32Odd(n: bv32)
    requires n & 1 != 0
    ensures DecodeZigZag32(n) == !(n >> 1)
  {
  }

  lemma EncodeZigZag64NonNegative(n: bv64)
    requires n & 0x8000_0000_0000_0000 == 0
    ensures EncodeZigZag64(n) == n << 1
  {
    assert ShiftRightArithmetic64(n, 63) == 0;
  }

  lemma EncodeZigZag64Negative(n: bv64)
    requires n & 0x8000_0000_0000_0000 != 0
    ensures EncodeZigZag64(n) == !(n << 1)
  {
    assert ShiftRightArithmetic64(n, 63) == 0xFFFF_FFFF_FFFF_FFFF;
  }

  lemma DecodeZigZag64Even(n: bv64)
    requires n & 1 == 0
    ensures DecodeZigZag64(n) == n >> 1
  {
  }

  lemma DecodeZigZag64Odd(n: bv64)
    requires n & 1 != 0
    ensures DecodeZigZag64(n) == !(n >> 1)
  {
  }

  // Bit facts the round trips are assembled from.

  lemma DoubleNonNegative32(n: bv32)
    requires n & 0x8000_0000 == 0
    ensures (n << 1) & 1 == 0 && (n << 1) >> 1 == n
  {
  }

  lemma DoubleNegative32(n: bv32)
    requires n & 0x8000_0000 != 0
    ensures (!(n << 1)) & 1 != 0 && !((!(n << 1)) >> 1) == n
  {
  }

  lemma HalfEven32(n: bv32)
    requires n & 1 == 0
    ensures (n >> 1) & 0x8000_0000 == 0 && (n >> 1) << 1 == n
  {
  }

  lemma HalfOdd32(n: bv32)
    requires n & 1 != 0
    ensures (!(n >> 1)) & 0x8000_0000 != 0 && !((!(n >> 1)) << 1) == n
  {
  }

  lemma DoubleNonNegative64(n: bv64)
    requires n & 0x8000_0000_0000_0000 == 0
    ensures (n << 1) & 1 == 0 && (n << 1) >> 1 == n
  {
  }

  lemma DoubleNegative64(n: bv64)
    requires n & 0x8000_0000_0000_0000 != 0
    ensures (!(n << 1)) & 1 != 0 && !((!(n << 1)) >> 1) == n
  {
  }

  lemma HalfEven64(n: bv64)
    requires n & 1 == 0
    ensures (n >> 1) & 0x8000_0000_0000_0000 == 0 && (n >> 1) << 1 == n
  {
  }

  lemma HalfOdd64(n: bv64)
    requires n & 1 != 0
    ensures (!(n >> 1)) & 0x8000_0000_0000_0000 != 0 && !((!(n >> 1)) << 1) == n
  {
  }

  /** DecodeZigZag32 undoes EncodeZigZag32 on every int. */
  lemma ZigZag32RoundTrip(n: bv32)
    ensures DecodeZigZag32(EncodeZigZag32(n)) == n
  {
    if n & 0x8000_0000 == 0 {
      EncodeZigZag32NonNegative(n);
      DoubleNonNegative32(n);
      DecodeZigZag32Even(n << 1);
    } else {
      EncodeZigZag32Negative(n);
      DoubleNegative32(n);
      DecodeZigZag32Odd(!(n << 1));
    }
  }

  /** Every uint is the ZigZag code of exactly one int: EncodeZigZag32 undoes DecodeZigZag32. */
  lemma ZigZag32Onto(n: bv32)
    ensures EncodeZigZag32(DecodeZigZag32(n)) == n
  {
    if n & 1 == 0 {
      DecodeZigZag32Even(n);
      HalfEven32(n);
      EncodeZigZag32NonNegative(n >> 1);
    } else {
      DecodeZigZag32Odd(n);
      HalfOdd32(n);
      EncodeZigZag32Negative(!(n >> 1));
    }
  }

  lemma ZigZag64RoundTrip(n: bv64)
    ensures DecodeZigZag64(EncodeZigZag64(n)) == n
  {
    if n & 0x8000_0000_0000_0000 == 0 {
      EncodeZigZag64NonNegative(n);
      DoubleNonNegative64(n);
      DecodeZigZag64Even(n << 1);
    } else {
      EncodeZigZag64Negative(n);
      DoubleNegative64(n);
      DecodeZigZag64Odd(!(n << 1));
    }
  }

  lemma ZigZag64Onto(n: bv64)
    ensures EncodeZigZag64(DecodeZigZag64(n)) == n
  {
    if n & 1 == 0 {
      DecodeZigZag64Even(n);
      HalfEven64(n);
      EncodeZigZag64NonNegative(n >> 1);
    } else {
      DecodeZigZag64Odd(n);
      HalfOdd64(n);
      EncodeZigZag64Negative(!(n >> 1));
    }
  }

  lemma SmallNonNegative32(n: bv32)
    requires n & 0x8000_0000 == 0
    ensures n < 0x8000_0000
    ensures n << 1 <= 127 <==> n <= 63
  {
  }

  lemma SmallNegative32(n: bv32)
    requires n & 0x8000_0000 != 0
    ensures n >= 0x8000_0000
    ensures !(n << 1) <= 127 <==> n >= 0xFFFF_FFC0
  {
  }

  lemma SmallNonNegative64(n: bv64)
    requires n & 0x8000_0000_0000_0000 == 0
    ensures n < 0x8000_0000_0000_0000
    ensures n << 1 <= 127 <==> n <= 63
  {
  }

  lemma SmallNegative64(n: bv64)
    requires n & 0x8000_0000_0000_0000 != 0
    ensures n >= 0x8000_0000_0000_0000
    ensures !(n << 1) <= 127 <==> n >= 0xFFFF_FFFF_FFFF_FFC0
  {
  }

  /** The ints -64..63 (the patterns 0..63 and 0xFFFF_FFC0..0xFFFF_FFFF),
      and only they, get a code below 128, which the raw encoding writes as
      a single byte. */
  lemma ZigZag32Small(n: bv32)
    ensures EncodeZigZag32(n) <= 127 <==> (n <= 63 || n >= 0xFFFF_FFC0)
  {
    if n & 0x8000_0000 == 0 {
      EncodeZigZag32NonNegative(n);
      SmallNonNegative32(n);
    } else {
      EncodeZigZag32Negative(n);
      SmallNegative32(n);
    }
  }

  /** The longs -64..63, and only they, get a code below 128. */
  lemma ZigZag64Small(n: bv64)
    ensures EncodeZigZag64(n) <= 127 <==> (n <= 63 || n >= 0xFFFF_FFFF_FFFF_FFC0)
  {
    if n & 0x8000_0000_0000_0000 == 0 {
      EncodeZigZag64NonNegative(n);
      SmallNonNegative64(n);
    } else {
      EncodeZigZag64Negative(n);
      SmallNegative64(n);
    }
  }

  // ---------------------------------------------------------------------
  // Raw base-128 encoding

  /** The bytes WriteRawVarInt32 emits for value: while bits above the low
      seven remain, the low seven with the continuation bit set, then the
      value shifted right by seven; finally the last group alone. */
  function RawVarInt32(value: bv32): seq<byte>
    decreases value
  {
    if value & 0xFFFF_FF80 == 0 then [value as byte]
    else [((value & 0x7F) | 0x80) as byte] + RawVarInt32(value >> 7)
  }

  function RawVarInt64(value: bv64): seq<byte>
    decreases value
  {
    if value & 0xFFFF_FFFF_FFFF_FF80 == 0 then [value as byte]
    else [((value & 0x7F) | 0x80) as byte] + RawVarInt64(value >> 7)
  }

  /** The encoded size of a 32-bit value, by magnitude: one byte per started
      group of seven bits. */
  function VarIntSize32(value: bv32): (r: nat)
    ensures 1 <= r <= 5
  {
    if value < 0x80 then 1
    else if value < 0x4000 then 2
    else if value < 0x20_0000 then 3
    else if value < 0x1000_0000 then 4
    else 5
  }

  function VarIntSize64(value: bv64): (r: nat)
    ensures 1 <= r <= 10
  {
    if value < 0x80 then 1
    else if value < 0x4000 then 2
    else if value < 0x20_0000 then 3
    else if value < 0x1000_0000 then 4
    else if value < 0x8_0000_0000 then 5
    else if value < 0x400_0000_0000 then 6
    else if value < 0x2_0000_0000_0000 then 7
    else if value < 0x100_0000_0000_0000 then 8
    else if value < 0x8000_0000_0000_0000 then 9
    else 10
  }

  lemma SizeOfShifted32(value: bv32)
    requires value & 0xFFFF_FF80 != 0
    ensures value >= 0x80 && VarIntSize32(value >> 7) == VarIntSize32(value) - 1
  {
  }

  lemma SizeOfShifted64(value: bv64)
    requires value & 0xFFFF_FFFF_FFFF_FF80 != 0
    ensures value >= 0x80 && VarIntSize64(value >> 7) == VarIntSize64(value) - 1
  {
  }

  lemma SizeOfSmall32(value: bv32)
    requires value & 0xFFFF_FF80 == 0
    ensures value < 0x80
  {
  }

  lemma SizeOfSmall64(value: bv64)
    requires value & 0xFFFF_FFFF_FFFF_FF80 == 0
    ensures value < 0x80
  {
  }

  /** WriteRawVarInt32 emits VarIntSize32(value) bytes: one exactly when the
      value is below 128, never more than five. */
  lemma {:induction false} RawVarInt32Length(value: bv32)
    ensures |RawVarInt32(value)| == VarIntSize32(value)
    ensures |RawVarInt32(value)| == 1 <==> value < 0x80
    ensures |RawVarInt32(value)| <= 5
    decreases value
  {
    if value & 0xFFFF_FF80 == 0 {
      SizeOfSmall32(value);
    } else {
      SizeOfShifted32(value);
      RawVarInt32Length(value >> 7);
    }
  }

  /** WriteRawVarInt64 emits VarIntSize64(value) bytes: one exactly when the
      value is below 128, never more than ten. */
  lemma {:induction false} RawVarInt64Length(value: bv64)
    ensures |RawVarInt64(value)| == VarIntSize64(value)
    ensures |RawVarInt64(value)| == 1 <==> value < 0x80
    ensures |RawVarInt64(value)| <= 10
    decreases value
  {
    if value & 0xFFFF_FFFF_FFFF_FF80 == 0 {
      SizeOfSmall64(value);
    } else {
      SizeOfShifted64(value);
      RawVarInt64Length(value >> 7);
    }
  }

  // ---------------------------------------------------------------------
  // Raw base-128 decoding

  /** What the do/while loop of ReadRawVarInt32 does on the unread bytes
      rest, once j groups have been read into result: the value it returns
      and the number of further bytes it consumes. The group of pass j is
      shifted left by 7j, a count C# masks to its low five bits for a uint
      (shift, a bv5, is 7j with that wrap-around), and bits shifted beyond
      bit 31 are lost. The group count is checked after the group has been
      merged, the continuation bit after that. */
  function Groups32(rest: seq<byte>, j: nat, shift: bv5, result: bv32, maxSize: int): (r: Result<(bv32, nat)>)
    decreases |rest|
  {
    if |rest| == 0 then Failure(EndOfStream)
    else
      var merged := result | Group32(rest[0], shift);
      if j + 1 > maxSize then Failure(Overflow)
      else if rest[0] & 0x80 == 0x80 then After(1, Groups32(rest[1..], j + 1, shift + 7, merged, maxSize))
      else Success((merged, 1))
  }

  /** The loop of ReadRawVarInt64; the shift count is masked to six bits. */
  function Groups64(rest: seq<byte>, j: nat, shift: bv6, result: bv64, maxSize: int): (r: Result<(bv64, nat)>)
    decreases |rest|
  {
    if |rest| == 0 then Failure(EndOfStream)
    else
      var merged := result | Group64(rest[0], shift);
      if j + 1 > maxSize then Failure(Overflow)
      else if rest[0] & 0x80 == 0x80 then After(1, Groups64(rest[1..], j + 1, shift + 7, merged, maxSize))
      else Success((merged, 1))
  }

  /** ReadRawVarInt32(buf, maxSize) on the unread bytes of buf. */
  function ReadRawVarInt32Spec(rest: seq<byte>, maxSize: int): Result<(bv32, nat)>
  {
    Groups32(rest, 0, 0, 0, maxSize)
  }

  /** ReadRawVarInt64(buf, maxSize) on the unread bytes of buf. */
  function ReadRawVarInt64Spec(rest: seq<byte>, maxSize: int): Result<(bv64, nat)>
  {
    Groups64(rest, 0, 0, 0, maxSize)
  }

  /** The seven payload bits of b, shifted into place. */
  function Group32(b: byte, shift: bv5): bv32
  {
    ((b & 0x7F) as bv32) << shift
  }

  function Group64(b: byte, shift: bv6): bv64
  {
    ((b & 0x7F) as bv64) << shift
  }

  // The bytes of an encoding carry the groups of the value.

  lemma LastByte32(value: bv32)
    requires value & 0xFFFF_FF80 == 0
    ensures (value as byte) & 0x80 == 0 && ((value as byte) & 0x7F) as bv32 == value
  {
  }

  lemma ContinuationByte32(value: bv32)
    ensures value & 0x7F < 0x80
    ensures var b := ((value & 0x7F) | 0x80) as byte; b & 0x80 == 0x80 && (b & 0x7F) as bv32 == value & 0x7F
  {
  }

  lemma LastByte64(value: bv64)
    requires value & 0xFFFF_FFFF_FFFF_FF80 == 0
    ensures (value as byte) & 0x80 == 0 && ((value as byte) & 0x7F) as bv64 == value
  {
  }

  lemma ContinuationByte64(value: bv64)
    ensures value & 0x7F < 0x80
    ensures var b := ((value & 0x7F) | 0x80) as byte; b & 0x80 == 0x80 && (b & 0x7F) as bv64 == value & 0x7F
  {
  }

  lemma GroupsLast32(rest: seq<byte>, j: nat, shift: bv5, result: bv32, maxSize: int)
    requires |rest| > 0 && j + 1 <= maxSize && rest[0] & 0x80 == 0
    ensures Groups32(rest, j, shift, result, maxSize) == Success((result | Group32(rest[0], shift), 1))
  {
  }

  lemma GroupsNext32(rest: seq<byte>, j: nat, shift: bv5, result: bv32, maxSize: int)
    requires |rest| > 0 && j + 1 <= maxSize && rest[0] & 0x80 == 0x80
    ensures Groups32(rest, j, shift, result, maxSize)
         == After(1, Groups32(rest[1..], j + 1, shift + 7, result | Group32(rest[0], shift), maxSize))
  {
  }

  lemma GroupsLast64(rest: seq<byte>, j: nat, shift: bv6, result: bv64, maxSize: int)
    requires |rest| > 0 && j + 1 <= maxSize && rest[0] & 0x80 == 0
    ensures Groups64(rest, j, shift, result, maxSize) == Success((result | Group64(rest[0], shift), 1))
  {
  }

  lemma GroupsNext64(rest: seq<byte>, j: nat, shift: bv6, result: bv64, maxSize: int)
    requires |rest| > 0 && j + 1 <= maxSize && rest[0] & 0x80 == 0x80
    ensures Groups64(rest, j, shift, result, maxSize)
         == After(1, Groups64(rest[1..], j + 1, shift + 7, result | Group64(rest[0], shift), maxSize))
  {
  }

  lemma RawVarInt32Last(v: bv32, tail: seq<byte>)
    requires v & 0xFFFF_FF80 == 0
    ensures |RawVarInt32(v) + tail| > 0 && (RawVarInt32(v) + tail)[0] == v as byte
  {
  }

  lemma RawVarInt32Next(v: bv32, tail: seq<byte>)
    requires v & 0xFFFF_FF80 != 0
    ensures |RawVarInt32(v) + tail| > 0 && (RawVarInt32(v) + tail)[0] == ((v & 0x7F) | 0x80) as byte
    ensures (RawVarInt32(v) + tail)[1..] == RawVarInt32(v >> 7) + tail
  {
    assert RawVarInt32(v) == [((v & 0x7F) | 0x80) as byte] + RawVarInt32(v >> 7);
  }

  // The encoding read back from group J on, for each J in turn: at group J
  // the reader shifts by the constant 7J.

  lemma LastGroup32At4(v: bv32, tail: seq<byte>, acc: bv32, maxSize: int)
    requires v & 0xFFFF_FF80 == 0 && 4 + 1 <= maxSize
    ensures Groups32(RawVarInt32(v) + tail, 4, 28, acc, maxSize) == Success((acc | (v << 28), 1))
  {
    LastByte32(v);
    RawVarInt32Last(v, tail);
    GroupsLast32(RawVarInt32(v) + tail, 4, 28, acc, maxSize);
  }

  lemma RawGroups32At4(v: bv32, tail: seq<byte>, acc: bv32, maxSize: int)
    requires VarIntSize32(v) <= 1 && 4 + VarIntSize32(v) <= maxSize
    ensures Groups32(RawVarInt32(v) + tail, 4, 28, acc, maxSize) == Success((acc | (v << 28), VarIntSize32(v)))
  {
    if v & 0xFFFF_FF80 == 0 {
      SizeOfSmall32(v);
      LastGroup32At4(v, tail, acc, maxSize);
    } else {
      SizeOfShifted32(v);
      assert false;
    }
  }

  lemma LastGroup32At3(v: bv32, tail: seq<byte>, acc: bv32, maxSize: int)
    requires v & 0xFFFF_FF80 == 0 && 3 + 1 <= maxSize
    ensures Groups32(RawVarInt32(v) + tail, 3, 21, acc, maxSize) == Success((acc | (v << 21), 1))
  {
    LastByte32(v);
    RawVarInt32Last(v, tail);
    GroupsLast32(RawVarInt32(v) + tail, 3, 21, acc, maxSize);
  }

  lemma Regroup32At3(acc: bv32, v: bv32)
    ensures (acc | ((v & 0x7F) << 21)) | ((v >> 7) << 28) == acc | (v << 21)
  {
  }

  lemma NextGroup32At3(v: bv32, tail: seq<byte>, acc: bv32, maxSize: int)
    requires v & 0xFFFF_FF80 != 0 && 3 + 1 <= maxSize
    ensures Groups32(RawVarInt32(v) + tail, 3, 21, acc, maxSize)
         == After(1, Groups32(RawVarInt32(v >> 7) + tail, 4, 28, acc | ((v & 0x7F) << 21), maxSize))
  {
    ContinuationByte32(v);
    RawVarInt32Next(v, tail);
    GroupsNext32(RawVarInt32(v) + tail, 3, 21, acc, maxSize);
  }

  lemma RawGroups32At3(v: bv32, tail: seq<byte>, acc: bv32, maxSize: int)
    requires VarIntSize32(v) <= 2 && 3 + VarIntSize32(v) <= maxSize
    ensures Groups32(RawVarInt32(v) + tail, 3, 21, acc, maxSize) == Success((acc | (v << 21), VarIntSize32(v)))
  {
    if v & 0xFFFF_FF80 == 0 {
      SizeOfSmall32(v);
      LastGroup32At3(v, tail, acc, maxSize);
    } else {
      SizeOfShifted32(v);
      NextGroup32At3(v, tail, acc, maxSize);
      var acc' := acc | ((v & 0x7F) << 21);
      RawGroups32At4(v >> 7, tail, acc', maxSize);
      Regroup32At3(acc, v);
      assert acc' | ((v >> 7) << 28) == acc | (v << 21);
      assert VarIntSize32(v >> 7) + 1 == VarIntSize32(v);
    }
  }

  lemma LastGroup32At2(v: bv32, tail: seq<byte>, acc: bv32, maxSize: int)
    requires v & 0xFFFF_FF80 == 0 && 2 + 1 <= maxSize
    ensures Groups32(RawVarInt32(v) + tail, 2, 14, acc, maxSize) == Success((acc | (v << 14), 1))
  {
    LastByte32(v);
    RawVarInt32Last(v, tail);
    GroupsLast32(RawVarInt32(v) + tail, 2, 14, acc, maxSize);
  }

  lemma Regroup32At2(acc: bv32, v: bv32)
    ensures (acc | ((v & 0x7F) << 14)) | ((v >> 7) << 21) == acc | (v << 14)
  {
  }

  lemma NextGroup32At2(v: bv32, tail: seq<byte>, acc: bv32, maxSize: int)
    requires v & 0xFFFF_FF80 != 0 && 2 + 1 <= maxSize
    ensures Groups32(RawVarInt32(v) + tail, 2, 14, acc, maxSize)
         == After(1, Groups32(RawVarInt32(v >> 7) + tail, 3, 21, acc | ((v & 0x7F) << 14), maxSize))
  {
    ContinuationByte32(v);
    RawVarInt32Next(v, tail);
    GroupsNext32(RawVarInt32(v) + tail, 2, 14, acc, maxSize);
  }

  lemma RawGroups32At2(v: bv32, tail: seq<byte>, acc: bv32, maxSize: int)
    requires VarIntSize32(v) <= 3 && 2 + VarIntSize32(v) <= maxSize
    ensures Groups32(RawVarInt32(v) + tail, 2, 14, acc, maxSize) == Success((acc | (v << 14), VarIntSize32(v)))
  {
    if v & 0xFFFF_FF80 == 0 {
      SizeOfSmall32(v);
      LastGroup32At2(v, tail, acc, maxSize);
    } else {
      SizeOfShifted32(v);
      NextGroup32At2(v, tail, acc, maxSize);
      var acc' := acc | ((v & 0x7F) << 14);
      RawGroups32At3(v >> 7, tail, acc', maxSize);
      Regroup32At2(acc, v);
      assert acc' | ((v >> 7) << 21) == acc | (v << 14);
      assert VarIntSize32(v >> 7) + 1 == VarIntSize32(v);
    }
  }

  lemma LastGroup32At1(v: bv32, tail: seq<byte>, acc: bv32, maxSize: int)
    requires v & 0xFFFF_FF80 == 0 && 1 + 1 <= maxSize
    ensures Groups32(RawVarInt32(v) + tail, 1, 7, acc, maxSize) == Success((acc | (v << 7), 1))
  {
    LastByte32(v);
    RawVarInt32Last(v, tail);
    GroupsLast32(RawVarInt32(v) + tail, 1, 7, acc, maxSize);
  }

  lemma Regroup32At1(acc: bv32, v: bv32)
    ensures (acc | ((v & 0x7F) << 7)) | ((v >> 7) << 14) == acc | (v << 7)
  {
  }

  lemma NextGroup32At1(v: bv32, tail: seq<byte>, acc: bv32, maxSize: int)
    requires v & 0xFFFF_FF80 != 0 && 1 + 1 <= maxSize
    ensures Groups32(RawVarInt32(v) + tail, 1, 7, acc, maxSize)
         == After(1, Groups32(RawVarInt32(v >> 7) + tail, 2, 14, acc | ((v & 0x7F) << 7), maxSize))
  {
    ContinuationByte32(v);
    RawVarInt32Next(v, tail);
    GroupsNext32(RawVarInt32(v) + tail, 1, 7, acc, maxSize);
  }

  lemma RawGroups32At1(v: bv32, tail: seq<byte>, acc: bv32, maxSize: int)
    requires VarIntSize32(v) <= 4 && 1 + VarIntSize32(v) <= maxSize
    ensures Groups32(RawVarInt32(v) + tail, 1, 7, acc, maxSize) == Success((acc | (v << 7), VarIntSize32(v)))
  {
    if v & 0xFFFF_FF80 == 0 {
      SizeOfSmall32(v);
      LastGroup32At1(v, tail, acc, maxSize);
    } else {
      SizeOfShifted32(v);
      NextGroup32At1(v, tail, acc, maxSize);
      var acc' := acc | ((v & 0x7F) << 7);
      RawGroups32At2(v >> 7, tail, acc', maxSize);
      Regroup32At1(acc, v);
      assert acc' | ((v >> 7) << 14) == acc | (v << 7);
      assert VarIntSize32(v >> 7) + 1 == VarIntSize32(v);
    }
  }

  lemma LastGroup32At0(v: bv32, tail: seq<byte>, acc: bv32, maxSize: int)
    requires v & 0xFFFF_FF80 == 0 && 0 + 1 <= maxSize
    ensures Groups32(RawVarInt32(v) + tail, 0, 0, acc, maxSize) == Success((acc | (v << 0), 1))
  {
    LastByte32(v);
    RawVarInt32Last(v, tail);
    GroupsLast32(RawVarInt32(v) + tail, 0, 0, acc, maxSize);
  }

  lemma Regroup32At0(acc: bv32, v: bv32)
    ensures (acc | ((v & 0x7F) << 0)) | ((v >> 7) << 7) == acc | (v << 0)
  {
  }

  lemma NextGroup32At0(v: bv32, tail: seq<byte>, acc: bv32, maxSize: int)
    requires v & 0xFFFF_FF80 != 0 && 0 + 1 <= maxSize
    ensures Groups32(RawVarInt32(v) + tail, 0, 0, acc, maxSize)
         == After(1, Groups32(RawVarInt32(v >> 7) + tail, 1, 7, acc | ((v & 0x7F) << 0), maxSize))
  {
    ContinuationByte32(v);
    RawVarInt32Next(v, tail);
    GroupsNext32(RawVarInt32(v) + tail, 0, 0, acc, maxSize);
  }

  lemma RawGroups32At0(v: bv32, tail: seq<byte>, acc: bv32, maxSize: int)
    requires VarIntSize32(v) <= 5 && 0 + VarIntSize32(v) <= maxSize
    ensures Groups32(RawVarInt32(v) + tail, 0, 0, acc, maxSize) == Success((acc | (v << 0), VarIntSize32(v)))
  {
    if v & 0xFFFF_FF80 == 0 {
      SizeOfSmall32(v);
      LastGroup32At0(v, tail, acc, maxSize);
    } else {
      SizeOfShifted32(v);
      NextGroup32At0(v, tail, acc, maxSize);
      var acc' := acc | ((v & 0x7F) << 0);
      RawGroups32At1(v >> 7, tail, acc', maxSize);
      Regroup32At0(acc, v);
      assert acc' | ((v >> 7) << 7) == acc | (v << 0);
      assert VarIntSize32(v >> 7) + 1 == VarIntSize32(v);
    }
  }

  lemma RawVarInt64Last(v: bv64, tail: seq<byte>)
    requires v & 0xFFFF_FFFF_FFFF_FF80 == 0
    ensures |RawVarInt64(v) + tail| > 0 && (RawVarInt64(v) + tail)[0] == v as byte
  {
  }

  lemma RawVarInt64Next(v: bv64, tail: seq<byte>)
    requires v & 0xFFFF_FFFF_FFFF_FF80 != 0
    ensures |RawVarInt64(v) + tail| > 0 && (RawVarInt64(v) + tail)[0] == ((v & 0x7F) | 0x80) as byte
    ensures (RawVarInt64(v) + tail)[1..] == RawVarInt64(v >> 7) + tail
  {
    assert RawVarInt64(v) == [((v & 0x7F) | 0x80) as byte] + RawVarInt64(v >> 7);
  }

  // The encoding read back from group J on, for each J in turn: at group J
  // the reader shifts by the constant 7J.

  lemma LastGroup64At9(v: bv64, tail: seq<byte>, acc: bv64, maxSize: int)
    requires v & 0xFFFF_FFFF_FFFF_FF80 == 0 && 9 + 1 <= maxSize
    ensures Groups64(RawVarInt64(v) + tail, 9, 63, acc, maxSize) == Success((acc | (v << 63), 1))
  {
    LastByte64(v);
    RawVarInt64Last(v, tail);
    GroupsLast64(RawVarInt64(v) + tail, 9, 63, acc, maxSize);
  }

  lemma RawGroups64At9(v: bv64, tail: seq<byte>, acc: bv64, maxSize: int)
    requires VarIntSize64(v) <= 1 && 9 + VarIntSize64(v) <= maxSize
    ensures Groups64(RawVarInt64(v) + tail, 9, 63, acc, maxSize) == Success((acc | (v << 63), VarIntSize64(v)))
  {
    if v & 0xFFFF_FFFF_FFFF_FF80 == 0 {
      SizeOfSmall64(v);
      LastGroup64At9(v, tail, acc, maxSize);
    } else {
      SizeOfShifted64(v);
      assert false;
    }
  }

  lemma LastGroup64At8(v: bv64, tail: seq<byte>, acc: bv64, maxSize: int)
    requires v & 0xFFFF_FFFF_FFFF_FF80 == 0 && 8 + 1 <= maxSize
    ensures Groups64(RawVarInt64(v) + tail, 8, 56, acc, maxSize) == Success((acc | (v << 56), 1))
  {
    LastByte64(v);
    RawVarInt64Last(v, tail);
    GroupsLast64(RawVarInt64(v) + tail, 8, 56, acc, maxSize);
  }

  lemma Regroup64At8(acc: bv64, v: bv64)
    ensures (acc | ((v & 0x7F) << 56)) | ((v >> 7) << 63) == acc | (v << 56)
  {
  }

  lemma NextGroup64At8(v: bv64, tail: seq<byte>, acc: bv64, maxSize: int)
    requires v & 0xFFFF_FFFF_FFFF_FF80 != 0 && 8 + 1 <= maxSize
    ensures Groups64(RawVarInt64(v) + tail, 8, 56, acc, maxSize)
         == After(1, Groups64(RawVarInt64(v >> 7) + tail, 9, 63, acc | ((v & 0x7F) << 56), maxSize))
  {
    ContinuationByte64(v);
    RawVarInt64Next(v, tail);
    GroupsNext64(RawVarInt64(v) + tail, 8, 56, acc, maxSize);
  }

  lemma RawGroups64At8(v: bv64, tail: seq<byte>, acc: bv64, maxSize: int)
    requires VarIntSize64(v) <= 2 && 8 + VarIntSize64(v) <= maxSize
    ensures Groups64(RawVarInt64(v) + tail, 8, 56, acc, maxSize) == Success((acc | (v << 56), VarIntSize64(v)))
  {
    if v & 0xFFFF_FFFF_FFFF_FF80 == 0 {
      SizeOfSmall64(v);
      LastGroup64At8(v, tail, acc, maxSize);
    } else {
      SizeOfShifted64(v);
      NextGroup64At8(v, tail, acc, maxSize);
      var acc' := acc | ((v & 0x7F) << 56);
      RawGroups64At9(v >> 7, tail, acc', maxSize);
      Regroup64At8(acc, v);
      assert acc' | ((v >> 7) << 63) == acc | (v << 56);
      assert VarIntSize64(v >> 7) + 1 == VarIntSize64(v);
    }
  }

  lemma LastGroup64At7(v: bv64, tail: seq<byte>, acc: bv64, maxSize: int)
    requires v & 0xFFFF_FFFF_FFFF_FF80 == 0 && 7 + 1 <= maxSize
    ensures Groups64(RawVarInt64(v) + tail, 7, 49, acc, maxSize) == Success((acc | (v << 49), 1))
  {
    LastByte64(v);
    RawVarInt64Last(v, tail);
    GroupsLast64(RawVarInt64(v) + tail, 7, 49, acc, maxSize);
  }

  lemma Regroup64At7(acc: bv64, v: bv64)
    ensures (acc | ((v & 0x7F) << 49)) | ((v >> 7) << 56) == acc | (v << 49)
  {
  }

  lemma NextGroup64At7(v: bv64, tail: seq<byte>, acc: bv64, maxSize: int)
    requires v & 0xFFFF_FFFF_FFFF_FF80 != 0 && 7 + 1 <= maxSize
    ensures Groups64(RawVarInt64(v) + tail, 7, 49, acc, maxSize)
         == After(1, Groups64(RawVarInt64(v >> 7) + tail, 8, 56, acc | ((v & 0x7F) << 49), maxSize))
  {
    ContinuationByte64(v);
    RawVarInt64Next(v, tail);
    GroupsNext64(RawVarInt64(v) + tail, 7, 49, acc, maxSize);
  }

  lemma RawGroups64At7(v: bv64, tail: seq<byte>, acc: bv64, maxSize: int)
    requires VarIntSize64(v) <= 3 && 7 + VarIntSize64(v) <= maxSize
    ensures Groups64(RawVarInt64(v) + tail, 7, 49, acc, maxSize) == Success((acc | (v << 49), VarIntSize64(v)))
  {
    if v & 0xFFFF_FFFF_FFFF_FF80 == 0 {
      SizeOfSmall64(v);
      LastGroup64At7(v, tail, acc, maxSize);
    } else {
      SizeOfShifted64(v);
      NextGroup64At7(v, tail, acc, maxSize);
      var acc' := acc | ((v & 0x7F) << 49);
      RawGroups64At8(v >> 7, tail, acc', maxSize);
      Regroup64At7(acc, v);
      assert acc' | ((v >> 7) << 56) == acc | (v << 49);
      assert VarIntSize64(v >> 7) + 1 == VarIntSize64(v);
    }
  }

  lemma LastGroup64At6(v: bv64, tail: seq<byte>, acc: bv64, maxSize: int)
    requires v & 0xFFFF_FFFF_FFFF_FF80 == 0 && 6 + 1 <= maxSize
    ensures Groups64(RawVarInt64(v) + tail, 6, 42, acc, maxSize) == Success((acc | (v << 42), 1))
  {
    LastByte64(v);
    RawVarInt64Last(v, tail);
    GroupsLast64(RawVarInt64(v) + tail, 6, 42, acc, maxSize);
  }

  lemma Regroup64At6(acc: bv64, v: bv64)
    ensures (acc | ((v & 0x7F) << 42)) | ((v >> 7) << 49) == acc | (v << 42)
  {
  }

  lemma NextGroup64At6(v: bv64, tail: seq<byte>, acc: bv64, maxSize: int)
    requires v & 0xFFFF_FFFF_FFFF_FF80 != 0 && 6 + 1 <= maxSize
    ensures Groups64(RawVarInt64(v) + tail, 6, 42, acc, maxSize)
         == After(1, Groups64(RawVarInt64(v >> 7) + tail, 7, 49, acc | ((v & 0x7F) << 42), maxSize))
  {
    ContinuationByte64(v);
    RawVarInt64Next(v, tail);
    GroupsNext64(RawVarInt64(v) + tail, 6, 42, acc, maxSize);
  }

  lemma RawGroups64At6(v: bv64, tail: seq<byte>, acc: bv64, maxSize: int)
    requires VarIntSize64(v) <= 4 && 6 + VarIntSize64(v) <= maxSize
    ensures Groups64(RawVarInt64(v) + tail, 6, 42, acc, maxSize) == Success((acc | (v << 42), VarIntSize64(v)))
  {
    if v & 0xFFFF_FFFF_FFFF_FF80 == 0 {
      SizeOfSmall64(v);
      LastGroup64At6(v, tail, acc, maxSize);
    } else {
      SizeOfShifted64(v);
      NextGroup64At6(v, tail, acc, maxSize);
      var acc' := acc | ((v & 0x7F) << 42);
      RawGroups64At7(v >> 7, tail, acc', maxSize);
      Regroup64At6(acc, v);
      assert acc' | ((v >> 7) << 49) == acc | (v << 42);
      assert VarIntSize64(v >> 7) + 1 == VarIntSize64(v);
    }
  }

  lemma LastGroup64At5(v: bv64, tail: seq<byte>, acc: bv64, maxSize: int)
    requires v & 0xFFFF_FFFF_FFFF_FF80 == 0 && 5 + 1 <= maxSize
    ensures Groups64(RawVarInt64(v) + tail, 5, 35, acc, maxSize) == Success((acc | (v << 35), 1))
  {
    LastByte64(v);
    RawVarInt64Last(v, tail);
    GroupsLast64(RawVarInt64(v) + tail, 5, 35, acc, maxSize);
  }

  lemma Regroup64At5(acc: bv64, v: bv64)
    ensures (acc | ((v & 0x7F) << 35)) | ((v >> 7) << 42) == acc | (v << 35)
  {
  }

  lemma NextGroup64At5(v: bv64, tail: seq<byte>, acc: bv64, maxSize: int)
    requires v & 0xFFFF_FFFF_FFFF_FF80 != 0 && 5 + 1 <= maxSize
    ensures Groups64(RawVarInt64(v) + tail, 5, 35, acc, maxSize)
         == After(1, Groups64(RawVarInt64(v >> 7) + tail, 6, 42, acc | ((v & 0x7F) << 35), maxSize))
  {
    ContinuationByte64(v);
    RawVarInt64Next(v, tail);
    GroupsNext64(RawVarInt64(v) + tail, 5, 35, acc, maxSize);
  }

  lemma RawGroups64At5(v: bv64, tail: seq<byte>, acc: bv64, maxSize: int)
    requires VarIntSize64(v) <= 5 && 5 + VarIntSize64(v) <= maxSize
    ensures Groups64(RawVarInt64(v) + tail, 5, 35, acc, maxSize) == Success((acc | (v << 35), VarIntSize64(v)))
  {
    if v & 0xFFFF_FFFF_FFFF_FF80 == 0 {
      SizeOfSmall64(v);
      LastGroup64At5(v, tail, acc, maxSize);
    } else {
      SizeOfShifted64(v);
      NextGroup64At5(v, tail, acc, maxSize);
      var acc' := acc | ((v & 0x7F) << 35);
      RawGroups64At6(v >> 7, tail, acc', maxSize);
      Regroup64At5(acc, v);
      assert acc' | ((v >> 7) << 42) == acc | (v << 35);
      assert VarIntSize64(v >> 7) + 1 == VarIntSize64(v);
    }
  }

  lemma LastGroup64At4(v: bv64, tail: seq<byte>, acc: bv64, maxSize: int)
    requires v & 0xFFFF_FFFF_FFFF_FF80 == 0 && 4 + 1 <= maxSize
    ensures Groups64(RawVarInt64(v) + tail, 4, 28, acc, maxSize) == Success((acc | (v << 28), 1))
  {
    LastByte64(v);
    RawVarInt64Last(v, tail);
    GroupsLast64(RawVarInt64(v) + tail, 4, 28, acc, maxSize);
  }

  lemma Regroup64At4(acc: bv64, v: bv64)
    ensures (acc | ((v & 0x7F) << 28)) | ((v >> 7) << 35) == acc | (v << 28)
  {
  }

  lemma NextGroup64At4(v: bv64, tail: seq<byte>, acc: bv64, maxSize: int)
    requires v & 0xFFFF_FFFF_FFFF_FF80 != 0 && 4 + 1 <= maxSize
    ensures Groups64(RawVarInt64(v) + tail, 4, 28, acc, maxSize)
         == After(1, Groups64(RawVarInt64(v >> 7) + tail, 5, 35, acc | ((v & 0x7F) << 28), maxSize))
  {
    ContinuationByte64(v);
    RawVarInt64Next(v, tail);
    GroupsNext64(RawVarInt64(v) + tail, 4, 28, acc, maxSize);
  }

  lemma RawGroups64At4(v: bv64, tail: seq<byte>, acc: bv64, maxSize: int)
    requires VarIntSize64(v) <= 6 && 4 + VarIntSize64(v) <= maxSize
    ensures Groups64(RawVarInt64(v) + tail, 4, 28, acc, maxSize) == Success((acc | (v << 28), VarIntSize64(v)))
  {
    if v & 0xFFFF_FFFF_FFFF_FF80 == 0 {
      SizeOfSmall64(v);
      LastGroup64At4(v, tail, acc, maxSize);
    } else {
      SizeOfShifted64(v);
      NextGroup64At4(v, tail, acc, maxSize);
      var acc' := acc | ((v & 0x7F) << 28);
      RawGroups64At5(v >> 7, tail, acc', maxSize);
      Regroup64At4(acc, v);
      assert acc' | ((v >> 7) << 35) == acc | (v << 28);
      assert VarIntSize64(v >> 7) + 1 == VarIntSize64(v);
    }
  }

  lemma LastGroup64At3(v: bv64, tail: seq<byte>, acc: bv64, maxSize: int)
    requires v & 0xFFFF_FFFF_FFFF_FF80 == 0 && 3 + 1 <= maxSize
    ensures Groups64(RawVarInt64(v) + tail, 3, 21, acc, maxSize) == Success((acc | (v << 21), 1))
  {
    LastByte64(v);
    RawVarInt64Last(v, tail);
    GroupsLast64(RawVarInt64(v) + tail, 3, 21, acc, maxSize);
  }

  lemma Regroup64At3(acc: bv64, v: bv64)
    ensures (acc | ((v & 0x7F) << 21)) | ((v >> 7) << 28) == acc | (v << 21)
  {
  }

  lemma NextGroup64At3(v: bv64, tail: seq<byte>, acc: bv64, maxSize: int)
    requires v & 0xFFFF_FFFF_FFFF_FF80 != 0 && 3 + 1 <= maxSize
    ensures Groups64(RawVarInt64(v) + tail, 3, 21, acc, maxSize)
         == After(1, Groups64(RawVarInt64(v >> 7) + tail, 4, 28, acc | ((v & 0x7F) << 21), maxSize))
  {
    ContinuationByte64(v);
    RawVarInt64Next(v, tail);
    GroupsNext64(RawVarInt64(v) + tail, 3, 21, acc, maxSize);
  }

  lemma RawGroups64At3(v: bv64, tail: seq<byte>, acc: bv64, maxSize: int)
    requires VarIntSize64(v) <= 7 && 3 + VarIntSize64(v) <= maxSize
    ensures Groups64(RawVarInt64(v) + tail, 3, 21, acc, maxSize) == Success((acc | (v << 21), VarIntSize64(v)))
  {
    if v & 0xFFFF_FFFF_FFFF_FF80 == 0 {
      SizeOfSmall64(v);
      LastGroup64At3(v, tail, acc, maxSize);
    } else {
      SizeOfShifted64(v);
      NextGroup64At3(v, tail, acc, maxSize);
      var acc' := acc | ((v & 0x7F) << 21);
      RawGroups64At4(v >> 7, tail, acc', maxSize);
      Regroup64At3(acc, v);
      assert acc' | ((v >> 7) << 28) == acc | (v << 21);
      assert VarIntSize64(v >> 7) + 1 == VarIntSize64(v);
    }
  }

  lemma LastGroup64At2(v: bv64, tail: seq<byte>, acc: bv64, maxSize: int)
    requires v & 0xFFFF_FFFF_FFFF_FF80 == 0 && 2 + 1 <= maxSize
    ensures Groups64(RawVarInt64(v) + tail, 2, 14, acc, maxSize) == Success((acc | (v << 14), 1))
  {
    LastByte64(v);
    RawVarInt64Last(v, tail);
    GroupsLast64(RawVarInt64(v) + tail, 2, 14, acc, maxSize);
  }

  lemma Regroup64At2(acc: bv64, v: bv64)
    ensures (acc | ((v & 0x7F) << 14)) | ((v >> 7) << 21) == acc | (v << 14)
  {
  }

  lemma NextGroup64At2(v: bv64, tail: seq<byte>, acc: bv64, maxSize: int)
    requires v & 0xFFFF_FFFF_FFFF_FF80 != 0 && 2 + 1 <= maxSize
    ensures Groups64(RawVarInt64(v) + tail, 2, 14, acc, maxSize)
         == After(1, Groups64(RawVarInt64(v >> 7) + tail, 3, 21, acc | ((v & 0x7F) << 14), maxSize))
  {
    ContinuationByte64(v);
    RawVarInt64Next(v, tail);
    GroupsNext64(RawVarInt64(v) + tail, 2, 14, acc, maxSize);
  }

  lemma RawGroups64At2(v: bv64, tail: seq<byte>, acc: bv64, maxSize: int)
    requires VarIntSize64(v) <= 8 && 2 + VarIntSize64(v) <= maxSize
    ensures Groups64(RawVarInt64(v) + tail, 2, 14, acc, maxSize) == Success((acc | (v << 14), VarIntSize64(v)))
  {
    if v & 0xFFFF_FFFF_FFFF_FF80 == 0 {
      SizeOfSmall64(v);
      LastGroup64At2(v, tail, acc, maxSize);
    } else {
      SizeOfShifted64(v);
      NextGroup64At2(v, tail, acc, maxSize);
      var acc' := acc | ((v & 0x7F) << 14);
      RawGroups64At3(v >> 7, tail, acc', maxSize);
      Regroup64At2(acc, v);
      assert acc' | ((v >> 7) << 21) == acc | (v << 14);
      assert VarIntSize64(v >> 7) + 1 == VarIntSize64(v);
    }
  }

  lemma LastGroup64At1(v: bv64, tail: seq<byte>, acc: bv64, maxSize: int)
    requires v & 0xFFFF_FFFF_FFFF_FF80 == 0 && 1 + 1 <= maxSize
    ensures Groups64(RawVarInt64(v) + tail, 1, 7, acc, maxSize) == Success((acc | (v << 7), 1))
  {
    LastByte64(v);
    RawVarInt64Last(v, tail);
    GroupsLast64(RawVarInt64(v) + tail, 1, 7, acc, maxSize);
  }

  lemma Regroup64At1(acc: bv64, v: bv64)
    ensures (acc | ((v & 0x7F) << 7)) | ((v >> 7) << 14) == acc | (v << 7)
  {
  }

  lemma NextGroup64At1(v: bv64, tail: seq<byte>, acc: bv64, maxSize: int)
    requires v & 0xFFFF_FFFF_FFFF_FF80 != 0 && 1 + 1 <= maxSize
    ensures Groups64(RawVarInt64(v) + tail, 1, 7, acc, maxSize)
         == After(1, Groups64(RawVarInt64(v >> 7) + tail, 2, 14, acc | ((v & 0x7F) << 7), maxSize))
  {
    ContinuationByte64(v);
    RawVarInt64Next(v, tail);
    GroupsNext64(RawVarInt64(v) + tail, 1, 7, acc, maxSize);
  }

  lemma RawGroups64At1(v: bv64, tail: seq<byte>, acc: bv64, maxSize: int)
    requires VarIntSize64(v) <= 9 && 1 + VarIntSize64(v) <= maxSize
    ensures Groups64(RawVarInt64(v) + tail, 1, 7, acc, maxSize) == Success((acc | (v << 7), VarIntSize64(v)))
  {
    if v & 0xFFFF_FFFF_FFFF_FF80 == 0 {
      SizeOfSmall64(v);
      LastGroup64At1(v, tail, acc, maxSize);
    } else {
      SizeOfShifted64(v);
      NextGroup64At1(v, tail, acc, maxSize);
      var acc' := acc | ((v & 0x7F) << 7);
      RawGroups64At2(v >> 7, tail, acc', maxSize);
      Regroup64At1(acc, v);
      assert acc' | ((v >> 7) << 14) == acc | (v << 7);
      assert VarIntSize64(v >> 7) + 1 == VarIntSize64(v);
    }
  }

  lemma LastGroup64At0(v: bv64, tail: seq<byte>, acc: bv64, maxSize: int)
    requires v & 0xFFFF_FFFF_FFFF_FF80 == 0 && 0 + 1 <= maxSize
    ensures Groups64(RawVarInt64(v) + tail, 0, 0, acc, maxSize) == Success((acc | (v << 0), 1))
  {
    LastByte64(v);
    RawVarInt64Last(v, tail);
    GroupsLast64(RawVarInt64(v) + tail, 0, 0, acc, maxSize);
  }

  lemma Regroup64At0(acc: bv64, v: bv64)
    ensures (acc | ((v & 0x7F) << 0)) | ((v >> 7) << 7) == acc | (v << 0)
  {
  }

  lemma NextGroup64At0(v: bv64, tail: seq<byte>, acc: bv64, maxSize: int)
    requires v & 0xFFFF_FFFF_FFFF_FF80 != 0 && 0 + 1 <= maxSize
    ensures Groups64(RawVarInt64(v) + tail, 0, 0, acc, maxSize)
         == After(1, Groups64(RawVarInt64(v >> 7) + tail, 1, 7, acc | ((v & 0x7F) << 0), maxSize))
  {
    ContinuationByte64(v);
    RawVarInt64Next(v, tail);
    GroupsNext64(RawVarInt64(v) + tail, 0, 0, acc, maxSize);
  }

  lemma RawGroups64At0(v: bv64, tail: seq<byte>, acc: bv64, maxSize: int)
    requires VarIntSize64(v) <= 10 && 0 + VarIntSize64(v) <= maxSize
    ensures Groups64(RawVarInt64(v) + tail, 0, 0, acc, maxSize) == Success((acc | (v << 0), VarIntSize64(v)))
  {
    if v & 0xFFFF_FFFF_FFFF_FF80 == 0 {
      SizeOfSmall64(v);
      LastGroup64At0(v, tail, acc, maxSize);
    } else {
      SizeOfShifted64(v);
      NextGroup64At0(v, tail, acc, maxSize);
      var acc' := acc | ((v & 0x7F) << 0);
      RawGroups64At1(v >> 7, tail, acc', maxSize);
      Regroup64At0(acc, v);
      assert acc' | ((v >> 7) << 7) == acc | (v << 0);
      assert VarIntSize64(v >> 7) + 1 == VarIntSize64(v);
    }
  }

  /** ReadRawVarInt32 inverts WriteRawVarInt32: after the encoding of v, with
      any bytes behind it, the reader returns v and stops right after the
      encoding, provided maxSize admits that many groups. */
  lemma VarInt32RoundTrip(v: bv32, tail: seq<byte>, maxSize: int)
    requires maxSize >= VarIntSize32(v)
    ensures ReadRawVarInt32Spec(RawVarInt32(v) + tail, maxSize) == Success((v, |RawVarInt32(v)|))
  {
    RawGroups32At0(v, tail, 0, maxSize);
    RawVarInt32Length(v);
  }

  /** ReadRawVarInt64 inverts WriteRawVarInt64. */
  lemma VarInt64RoundTrip(v: bv64, tail: seq<byte>, maxSize: int)
    requires maxSize >= VarIntSize64(v)
    ensures ReadRawVarInt64Spec(RawVarInt64(v) + tail, maxSize) == Success((v, |RawVarInt64(v)|))
  {
    RawGroups64At0(v, tail, 0, maxSize);
    RawVarInt64Length(v);
  }

  // ---------------------------------------------------------------------
  // The reader's failures

  /** Every byte carries the continuation bit. */
  predicate Continues(bs: seq<byte>)
  {
    forall i :: 0 <= i < |bs| ==> bs[i] & 0x80 == 0x80
  }

  lemma {:induction false} GroupsFailure32(rest: seq<byte>, j: nat, shift: bv5, result: bv32, maxSize: int)
    requires j <= maxSize
    ensures Groups32(rest, j, shift, result, maxSize) == Failure(EndOfStream) <==>
              j + |rest| <= maxSize && Continues(rest)
    ensures Groups32(rest, j, shift, result, maxSize) == Failure(Overflow) <==>
              j + |rest| > maxSize && Continues(rest[..maxSize - j])
    decreases |rest|
  {
    if |rest| > 0 && j + 1 <= maxSize {
      if rest[0] & 0x80 == 0x80 {
        GroupsNext32(rest, j, shift, result, maxSize);
        GroupsFailure32(rest[1..], j + 1, shift + 7, result | Group32(rest[0], shift), maxSize);
        assert Continues(rest) <==> Continues(rest[1..]) by {
          if Continues(rest[1..]) {
            forall i | 0 <= i < |rest| ensures rest[i] & 0x80 == 0x80 {
              if i > 0 { assert rest[i] == rest[1..][i - 1]; }
            }
          }
        }
        if j + |rest| > maxSize {
          assert rest[1..][..maxSize - (j + 1)] == rest[1..maxSize - j];
          assert Continues(rest[..maxSize - j]) <==> Continues(rest[1..maxSize - j]) by {
            if Continues(rest[1..maxSize - j]) {
              forall i | 0 <= i < maxSize - j ensures rest[i] & 0x80 == 0x80 {
                if i > 0 { assert rest[i] == rest[1..maxSize - j][i - 1]; }
              }
            }
          }
        }
      } else {
        GroupsLast32(rest, j, shift, result, maxSize);
        assert !Continues(rest);
        if j + |rest| > maxSize {
          assert rest[..maxSize - j][0] == rest[0];
        }
      }
    }
  }

  lemma {:induction false} GroupsFailure64(rest: seq<byte>, j: nat, shift: bv6, result: bv64, maxSize: int)
    requires j <= maxSize
    ensures Groups64(rest, j, shift, result, maxSize) == Failure(EndOfStream) <==>
              j + |rest| <= maxSize && Continues(rest)
    ensures Groups64(rest, j, shift, result, maxSize) == Failure(Overflow) <==>
              j + |rest| > maxSize && Continues(rest[..maxSize - j])
    decreases |rest|
  {
    if |rest| > 0 && j + 1 <= maxSize {
      if rest[0] & 0x80 == 0x80 {
        GroupsNext64(rest, j, shift, result, maxSize);
        GroupsFailure64(rest[1..], j + 1, shift + 7, result | Group64(rest[0], shift), maxSize);
        assert Continues(rest) <==> Continues(rest[1..]) by {
          if Continues(rest[1..]) {
            forall i | 0 <= i < |rest| ensures rest[i] & 0x80 == 0x80 {
              if i > 0 { assert rest[i] == rest[1..][i - 1]; }
            }
          }
        }
        if j + |rest| > maxSize {
          assert rest[1..][..maxSize - (j + 1)] == rest[1..maxSize - j];
          assert Continues(rest[..maxSize - j]) <==> Continues(rest[1..maxSize - j]) by {
            if Continues(rest[1..maxSize - j]) {
              forall i | 0 <= i < maxSize - j ensures rest[i] & 0x80 == 0x80 {
                if i > 0 { assert rest[i] == rest[1..maxSize - j][i - 1]; }
              }
            }
          }
        }
      } else {
        GroupsLast64(rest, j, shift, result, maxSize);
        assert !Continues(rest);
        if j + |rest| > maxSize {
          assert rest[..maxSize - j][0] == rest[0];
        }
      }
    }
  }

  /** ReadRawVarInt32 throws EndOfStreamException exactly when the stream
      ends while every byte so far, at most maxSize of them, asked for more;
      and OverflowException exactly when the first maxSize bytes all ask for
      more and a further byte exists. */
  lemma ReadRawVarInt32Failures(rest: seq<byte>, maxSize: nat)
    ensures ReadRawVarInt32Spec(rest, maxSize) == Failure(EndOfStream) <==> |rest| <= maxSize && Continues(rest)
    ensures ReadRawVarInt32Spec(rest, maxSize) == Failure(Overflow) <==> |rest| > maxSize && Continues(rest[..maxSize])
  {
    GroupsFailure32(rest, 0, 0, 0, maxSize);
  }

  lemma ReadRawVarInt64Failures(rest: seq<byte>, maxSize: nat)
    ensures ReadRawVarInt64Spec(rest, maxSize) == Failure(EndOfStream) <==> |rest| <= maxSize && Continues(rest)
    ensures ReadRawVarInt64Spec(rest, maxSize) == Failure(Overflow) <==> |rest| > maxSize && Continues(rest[..maxSize])
  {
    GroupsFailure64(rest, 0, 0, 0, maxSize);
  }

  /** Only the group count is checked: the fifth group of a 32-bit value
      lands at bit 28, so its three high bits are dropped and two different
      five-byte inputs read as the same value. */
  lemma FifthGroupTruncated()
    ensures ReadRawVarInt32Spec([0xFF, 0xFF, 0xFF, 0xFF, 0x7F], 5) == Success((0xFFFF_FFFF, 5))
    ensures ReadRawVarInt32Spec([0xFF, 0xFF, 0xFF, 0xFF, 0x0F], 5) == Success((0xFFFF_FFFF, 5))
  {
    var a: seq<byte> := [0xFF, 0xFF, 0xFF, 0xFF, 0x7F];
    var b: seq<byte> := [0xFF, 0xFF, 0xFF, 0xFF, 0x0F];
    assert Groups32(a[4..], 4, 28, 0x0FFF_FFFF, 5) == Success((0xFFFF_FFFF, 1));
    assert Groups32(b[4..], 4, 28, 0x0FFF_FFFF, 5) == Success((0xFFFF_FFFF, 1));
    assert Groups32(a[3..], 3, 21, 0x1F_FFFF, 5) == Success((0xFFFF_FFFF, 2)) by { assert a[3..][1..] == a[4..]; }
    assert Groups32(b[3..], 3, 21, 0x1F_FFFF, 5) == Success((0xFFFF_FFFF, 2)) by { assert b[3..][1..] == b[4..]; }
    assert Groups32(a[2..], 2, 14, 0x3FFF, 5) == Success((0xFFFF_FFFF, 3)) by { assert a[2..][1..] == a[3..]; }
    assert Groups32(b[2..], 2, 14, 0x3FFF, 5) == Success((0xFFFF_FFFF, 3)) by { assert b[2..][1..] == b[3..]; }
    assert Groups32(a[1..], 1, 7, 0x7F, 5) == Success((0xFFFF_FFFF, 4)) by { assert a[1..][1..] == a[2..]; }
    assert Groups32(b[1..], 1, 7, 0x7F, 5) == Success((0xFFFF_FFFF, 4)) by { assert b[1..][1..] == b[2..]; }
  }

  // ---------------------------------------------------------------------
  // The stream operations

  /** WriteRawVarInt32: the loop emits the encoding of value. */
  method WriteRawVarInt32(buf: OutputStream, value: bv32)
    requires buf.canWrite
    modifies buf
    ensures buf.written == old(buf.written) + RawVarInt32(value)
    ensures buf.writeCounts == old(buf.writeCounts)
  {
    var v := value;
    while v & 0xFFFF_FF80 != 0
      invariant buf.written + RawVarInt32(v) == old(buf.written) + RawVarInt32(value)
      invariant buf.writeCounts == old(buf.writeCounts)
      decreases v
    {
      buf.WriteByte(((v & 0x7F) | 0x80) as byte);
      v := v >> 7;
    }
    buf.WriteByte(v as byte);
  }

  /** WriteRawVarInt64: the loop emits the encoding of value. */
  method WriteRawVarInt64(buf: OutputStream, value: bv64)
    requires buf.canWrite
    modifies buf
    ensures buf.written == old(buf.written) + RawVarInt64(value)
    ensures buf.writeCounts == old(buf.writeCounts)
  {
    var v := value;
    while v & 0xFFFF_FFFF_FFFF_FF80 != 0
      invariant buf.written + RawVarInt64(v) == old(buf.written) + RawVarInt64(value)
      invariant buf.writeCounts == old(buf.writeCounts)
      decreases v
    {
      buf.WriteByte(((v & 0x7F) | 0x80) as byte);
      v := v >> 7;
    }
    buf.WriteByte(v as byte);
  }

  // One pass of the loop of ReadRawVarInt32, after j passes: it fails,
  // returns, or leaves the rest to the next pass.

  lemma PassOverflow32(rest: seq<byte>, j: nat, shift: bv5, result: bv32, maxSize: int)
    requires |rest| > 0 && j + 1 > maxSize
    ensures After(j, Groups32(rest, j, shift, result, maxSize)) == Failure(Overflow)
  {
  }

  lemma PassLast32(rest: seq<byte>, j: nat, shift: bv5, result: bv32, maxSize: int)
    requires |rest| > 0 && j + 1 <= maxSize && rest[0] & 0x80 != 0x80
    ensures After(j, Groups32(rest, j, shift, result, maxSize)) == Success((result | Group32(rest[0], shift), j + 1))
  {
  }

  lemma PassNext32(rest: seq<byte>, j: nat, shift: bv5, result: bv32, maxSize: int)
    requires |rest| > 0 && j + 1 <= maxSize && rest[0] & 0x80 == 0x80
    ensures After(j, Groups32(rest, j, shift, result, maxSize))
         == After(j + 1, Groups32(rest[1..], j + 1, shift + 7, result | Group32(rest[0], shift), maxSize))
  {
    GroupsNext32(rest, j, shift, result, maxSize);
  }

  // One pass of the loop of ReadRawVarInt64, after j passes: it fails,
  // returns, or leaves the rest to the next pass.

  lemma PassOverflow64(rest: seq<byte>, j: nat, shift: bv6, result: bv64, maxSize: int)
    requires |rest| > 0 && j + 1 > maxSize
    ensures After(j, Groups64(rest, j, shift, result, maxSize)) == Failure(Overflow)
  {
  }

  lemma PassLast64(rest: seq<byte>, j: nat, shift: bv6, result: bv64, maxSize: int)
    requires |rest| > 0 && j + 1 <= maxSize && rest[0] & 0x80 != 0x80
    ensures After(j, Groups64(rest, j, shift, result, maxSize)) == Success((result | Group64(rest[0], shift), j + 1))
  {
  }

  lemma PassNext64(rest: seq<byte>, j: nat, shift: bv6, result: bv64, maxSize: int)
    requires |rest| > 0 && j + 1 <= maxSize && rest[0] & 0x80 == 0x80
    ensures After(j, Groups64(rest, j, shift, result, maxSize))
         == After(j + 1, Groups64(rest[1..], j + 1, shift + 7, result | Group64(rest[0], shift), maxSize))
  {
    GroupsNext64(rest, j, shift, result, maxSize);
  }

  /** ReadRawVarInt32: reads bytes one at a time, merging their groups,
      until a byte without the continuation bit; fails at the end of the
      stream or once more than maxSize groups have been read. */
  method ReadRawVarInt32(buf: InputStream, maxSize: int) returns (r: Result<bv32>)
    modifies buf
    ensures ReadAs(r, buf.position - old(buf.position), ReadRawVarInt32Spec(old(buf.Rest()), maxSize))
    ensures buf.readCounts == old(buf.readCounts)
  {
    var result: bv32 := 0;
    var j: nat := 0;
    var shift: bv5 := 0;
    while true
      invariant buf.position == old(buf.position) + j
      invariant ReadRawVarInt32Spec(old(buf.Rest()), maxSize) == After(j, Groups32(buf.Rest(), j, shift, result, maxSize))
      invariant buf.readCounts == old(buf.readCounts)
      decreases buf.Remaining()
    {
      ghost var rest, j0, shift0, result0 := buf.Rest(), j, shift, result;
      var b0 := buf.ReadByte();
      if b0 < 0 {
        assert ReadRawVarInt32Spec(old(buf.Rest()), maxSize) == Failure(EndOfStream);
        return Failure(EndOfStream);
      }
      var b := ToByte(b0, rest[0]);
      TopBit(b);
      result := result | Group32(b, shift);
      j := j + 1;
      shift := shift + 7;
      if j > maxSize {
        PassOverflow32(rest, j0, shift0, result0, maxSize);
        assert ReadRawVarInt32Spec(old(buf.Rest()), maxSize) == Failure(Overflow);
        return Failure(Overflow);
      }
      if b0 < 0x80 {
        PassLast32(rest, j0, shift0, result0, maxSize);
        assert ReadRawVarInt32Spec(old(buf.Rest()), maxSize) == Success((result, j));
        return Success(result);
      }
      PassNext32(rest, j0, shift0, result0, maxSize);
    }
  }

  /** ReadRawVarInt64: the same loop over 64 bits. */
  method ReadRawVarInt64(buf: InputStream, maxSize: int) returns (r: Result<bv64>)
    modifies buf
    ensures ReadAs(r, buf.position - old(buf.position), ReadRawVarInt64Spec(old(buf.Rest()), maxSize))
    ensures buf.readCounts == old(buf.readCounts)
  {
    var result: bv64 := 0;
    var j: nat := 0;
    var shift: bv6 := 0;
    while true
      invariant buf.position == old(buf.position) + j
      invariant ReadRawVarInt64Spec(old(buf.Rest()), maxSize) == After(j, Groups64(buf.Rest(), j, shift, result, maxSize))
      invariant buf.readCounts == old(buf.readCounts)
      decreases buf.Remaining()
    {
      ghost var rest, j0, shift0, result0 := buf.Rest(), j, shift, result;
      var b0 := buf.ReadByte();
      if b0 < 0 {
        assert ReadRawVarInt64Spec(old(buf.Rest()), maxSize) == Failure(EndOfStream);
        return Failure(EndOfStream);
      }
      var b := ToByte(b0, rest[0]);
      TopBit(b);
      result := result | Group64(b, shift);
      j := j + 1;
      shift := shift + 7;
      if j > maxSize {
        PassOverflow64(rest, j0, shift0, result0, maxSize);
        assert ReadRawVarInt64Spec(old(buf.Rest()), maxSize) == Failure(Overflow);
        return Failure(Overflow);
      }
      if b0 < 0x80 {
        PassLast64(rest, j0, shift0, result0, maxSize);
        assert ReadRawVarInt64Spec(old(buf.Rest()), maxSize) == Success((result, j));
        return Success(result);
      }
      PassNext64(rest, j0, shift0, result0, maxSize);
    }
  }

  // ---------------------------------------------------------------------
  // The public 32-bit wrappers: Int32 and UInt32 send the two's-complement
  // bits as they are (the C# casts between int and uint change no bit),
  // SInt32 sends the ZigZag code. Every read allows 5 groups.

  /** What ReadSInt32 does on the unread bytes rest. */
  function ReadSInt32Spec(rest: seq<byte>): Result<(bv32, nat)>
  {
    match ReadRawVarInt32Spec(rest, 5)
    case Success(vn) => Success((DecodeZigZag32(vn.0), vn.1))
    case Failure(e) => Failure(e)
  }

  /** WriteInt32 / WriteUInt32. */
  method WriteInt32(stream: OutputStream, value: bv32)
    requires stream.canWrite
    modifies stream
    ensures stream.written == old(stream.written) + RawVarInt32(value)
    ensures stream.writeCounts == old(stream.writeCounts)
  {
    WriteRawVarInt32(stream, value);
  }

  /** ReadInt32 / ReadUInt32. */
  method ReadInt32(stream: InputStream) returns (r: Result<bv32>)
    modifies stream
    ensures ReadAs(r, stream.position - old(stream.position), ReadRawVarInt32Spec(old(stream.Rest()), 5))
    ensures stream.readCounts == old(stream.readCounts)
  {
    r := ReadRawVarInt32(stream, 5);
  }

  /** WriteSInt32: the ZigZag code, as a raw varint. */
  method WriteSInt32(stream: OutputStream, value: bv32)
    requires stream.canWrite
    modifies stream
    ensures stream.written == old(stream.written) + RawVarInt32(EncodeZigZag32(value))
    ensures stream.writeCounts == old(stream.writeCounts)
  {
    WriteRawVarInt32(stream, EncodeZigZag32(value));
  }

  /** ReadSInt32: a raw varint of at most 5 groups, ZigZag-decoded. */
  method ReadSInt32(stream: InputStream) returns (r: Result<bv32>)
    modifies stream
    ensures ReadAs(r, stream.position - old(stream.position), ReadSInt32Spec(old(stream.Rest())))
    ensures stream.readCounts == old(stream.readCounts)
  {
    var raw := ReadRawVarInt32(stream, 5);
    match raw
    case Success(n) => r := Success(DecodeZigZag32(n));
    case Failure(e) => r := Failure(e);
  }

  /** Every value WriteInt32 emits reads back with ReadInt32, whatever follows. */
  lemma Int32RoundTrip(v: bv32, tail: seq<byte>)
    ensures ReadRawVarInt32Spec(RawVarInt32(v) + tail, 5) == Success((v, |RawVarInt32(v)|))
  {
    RawVarInt32Length(v);
    VarInt32RoundTrip(v, tail, 5);
  }

  /** Every value WriteSInt32 emits reads back with ReadSInt32, whatever follows. */
  lemma SInt32RoundTrip(v: bv32, tail: seq<byte>)
    ensures ReadSInt32Spec(RawVarInt32(EncodeZigZag32(v)) + tail) == Success((v, |RawVarInt32(EncodeZigZag32(v))|))
  {
    Int32RoundTrip(EncodeZigZag32(v), tail);
    ZigZag32RoundTrip(v);
  }

  /** The SInt32 image of a value takes one byte exactly when the value is
      in -64..63, and never more than 5. */
  lemma SInt32Length(v: bv32)
    ensures 1 <= |RawVarInt32(EncodeZigZag32(v))| <= 5
    ensures |RawVarInt32(EncodeZigZag32(v))| == 1 <==> (v <= 63 || v >= 0xFFFF_FFC0)
  {
    RawVarInt32Length(EncodeZigZag32(v));
    ZigZag32Small(v);
  }

  /** The Int32 image of a negative value always takes the full 5 bytes. */
  lemma NegativeInt32Length(v: bv32)
    requires v >= 0x8000_0000
    ensures |RawVarInt32(v)| == 5
  {
    RawVarInt32Length(v);
  }

  // ---------------------------------------------------------------------
  // The public 64-bit wrappers: Int64 and UInt64 send the two's-complement
  // bits as they are (the C# casts between int and uint change no bit),
  // SInt64 sends the ZigZag code. Every read allows 10 groups.

  /** What ReadSInt64 does on the unread bytes rest. */
  function ReadSInt64Spec(rest: seq<byte>): Result<(bv64, nat)>
  {
    match ReadRawVarInt64Spec(rest, 10)
    case Success(vn) => Success((DecodeZigZag64(vn.0), vn.1))
    case Failure(e) => Failure(e)
  }

  /** WriteInt64 / WriteUInt64. */
  method WriteInt64(stream: OutputStream, value: bv64)
    requires stream.canWrite
    modifies stream
    ensures stream.written == old(stream.written) + RawVarInt64(value)
    ensures stream.writeCounts == old(stream.writeCounts)
  {
    WriteRawVarInt64(stream, value);
  }

  /** ReadInt64 / ReadUInt64. */
  method ReadInt64(stream: InputStream) returns (r: Result<bv64>)
    modifies stream
    ensures ReadAs(r, stream.position - old(stream.position), ReadRawVarInt64Spec(old(stream.Rest()), 10))
    ensures stream.readCounts == old(stream.readCounts)
  {
    r := ReadRawVarInt64(stream, 10);
  }

  /** WriteSInt64: the ZigZag code, as a raw varint. */
  method WriteSInt64(stream: OutputStream, value: bv64)
    requires stream.canWrite
    modifies stream
    ensures stream.written == old(stream.written) + RawVarInt64(EncodeZigZag64(value))
    ensures stream.writeCounts == old(stream.writeCounts)
  {
    WriteRawVarInt64(stream, EncodeZigZag64(value));
  }

  /** ReadSInt64: a raw varint of at most 10 groups, ZigZag-decoded. */
  method ReadSInt64(stream: InputStream) returns (r: Result<bv64>)
    modifies stream
    ensures ReadAs(r, stream.position - old(stream.position), ReadSInt64Spec(old(stream.Rest())))
    ensures stream.readCounts == old(stream.readCounts)
  {
    var raw := ReadRawVarInt64(stream, 10);
    match raw
    case Success(n) => r := Success(DecodeZigZag64(n));
    case Failure(e) => r := Failure(e);
  }

  /** Every value WriteInt64 emits reads back with ReadInt64, whatever follows. */
  lemma Int64RoundTrip(v: bv64, tail: seq<byte>)
    ensures ReadRawVarInt64Spec(RawVarInt64(v) + tail, 10) == Success((v, |RawVarInt64(v)|))
  {
    RawVarInt64Length(v);
    VarInt64RoundTrip(v, tail, 10);
  }

  /** Every value WriteSInt64 emits reads back with ReadSInt64, whatever follows. */
  lemma SInt64RoundTrip(v: bv64, tail: seq<byte>)
    ensures ReadSInt64Spec(RawVarInt64(EncodeZigZag64(v)) + tail) == Success((v, |RawVarInt64(EncodeZigZag64(v))|))
  {
    Int64RoundTrip(EncodeZigZag64(v), tail);
    ZigZag64RoundTrip(v);
  }

  /** The SInt64 image of a value takes one byte exactly when the value is
      in -64..63, and never more than 10. */
  lemma SInt64Length(v: bv64)
    ensures 1 <= |RawVarInt64(EncodeZigZag64(v))| <= 10
    ensures |RawVarInt64(EncodeZigZag64(v))| == 1 <==> (v <= 63 || v >= 0xFFFF_FFFF_FFFF_FFC0)
  {
    RawVarInt64Length(EncodeZigZag64(v));
    ZigZag64Small(v);
  }

  /** The Int64 image of a negative value always takes the full 10 bytes. */
  lemma NegativeInt64Length(v: bv64)
    requires v >= 0x8000_0000_0000_0000
    ensures |RawVarInt64(v)| == 10
  {
    RawVarInt64Length(v);
  }
}
