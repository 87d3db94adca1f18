/// The writer and the reader together: for the same byte order and the same
/// integer-encoding mode, every read undoes the matching write, whatever
/// bytes follow it, and SkipString consumes exactly what ReadString would.
module Codec {
  import opened Bytes
  import opened Streams
  import VarInt
  import Utf8
  import opened NbtWriter
  import opened NbtReader

  /** The reader's Swap helpers compute what the writer's do. */
  lemma SwapHelpersAgree(v16: bv16, v32: bv32)
    ensures Swap16(v16) == SwapInt16(v16)
    ensures Swap32(v32) == SwapInt32(v32)
  {
  }

  /** The front of image + tail is the image. */
  lemma FrontOf(image: seq<byte>, tail: seq<byte>)
    ensures (image + tail)[..|image|] == image
  {
  }

  lemma Int16RoundTrip(v: bv16, swap: bool, tail: seq<byte>)
    ensures ReadInt16Spec(WireOrder16(v, swap) + tail, swap) == Success((v, 2))
  {
    FrontOf(WireOrder16(v, swap), tail);
    LittleEndian16Inverse(v, LittleEndian16(v));
    LittleEndian16Inverse(Swap16(v), LittleEndian16(v));
    Swap16Reverses(v);
    BigEndian16IsReversed(v);
    if swap {
      calc {
        FromLittleEndian16(BigEndian16(v));
        FromLittleEndian16(LittleEndian16(Swap16(v)));
        Swap16(v);
      }
      Swap16Involution(v);
    }
  }

  lemma Word32RoundTrip(v: bv32, swap: bool, tail: seq<byte>)
    ensures ReadInt32Spec(WireOrder32(v, swap) + tail, swap, false) == Success((v, 4))
  {
    FrontOf(WireOrder32(v, swap), tail);
    LittleEndian32Inverse(v, LittleEndian32(v));
    LittleEndian32Inverse(Swap32(v), LittleEndian32(v));
    Swap32Reverses(v);
    BigEndian32IsReversed(v);
    if swap {
      Swap32Involution(v);
    }
  }

  /** Write(int) then ReadInt32, in either mode. */
  lemma Int32RoundTrip(v: bv32, swap: bool, useVarInt: bool, tail: seq<byte>)
    ensures ReadInt32Spec(Int32Image(v, swap, useVarInt) + tail, swap, useVarInt)
         == Success((v, |Int32Image(v, swap, useVarInt)|))
  {
    if useVarInt {
      VarInt.SInt32RoundTrip(v, tail);
    } else {
      Word32RoundTrip(v, swap, tail);
    }
  }

  lemma Int64RoundTrip(v: bv64, swap: bool, tail: seq<byte>)
    ensures ReadInt64Spec(WireOrder64(v, swap) + tail, swap) == Success((v, 8))
  {
    FrontOf(WireOrder64(v, swap), tail);
    LittleEndian64Inverse(v, LittleEndian64(v));
    LittleEndian64Inverse(Swap64(v), LittleEndian64(v));
    Swap64Reverses(v);
    BigEndian64IsReversed(v);
    if swap {
      Swap64Involution(v);
    }
  }

  /** Write(float) then ReadSingle, on a little-endian host or without
      swapping; the big-endian host that swaps is a finding. */
  lemma SingleRoundTrip(bits: bv32, swap: bool, hostLittleEndian: bool, tail: seq<byte>)
    requires hostLittleEndian || !swap
    ensures ReadSingleSpec(WireOrder32(bits, swap) + tail, swap, hostLittleEndian) == Success((bits, 4))
  {
    FrontOf(WireOrder32(bits, swap), tail);
    LittleEndian32Inverse(bits, LittleEndian32(bits));
    BigEndian32IsReversed(bits);
    ReverseTwice(LittleEndian32(bits));
  }

  lemma DoubleRoundTrip(bits: bv64, swap: bool, hostLittleEndian: bool, tail: seq<byte>)
    requires hostLittleEndian || !swap
    ensures ReadDoubleSpec(WireOrder64(bits, swap) + tail, swap, hostLittleEndian) == Success((bits, 8))
  {
    FrontOf(WireOrder64(bits, swap), tail);
    LittleEndian64Inverse(bits, LittleEndian64(bits));
    BigEndian64IsReversed(bits);
    ReverseTwice(LittleEndian64(bits));
  }

  lemma ReverseTwice(s: seq<byte>)
    ensures Reverse(Reverse(s)) == s
  {
  }

  // ---------------------------------------------------------------------
  // Strings

  /** The prefix Write(string) puts before n bytes reads back as n in the
      fixed-width mode and as n modulo 256 in VarInt mode. */
  lemma LengthRoundTrip(n: nat, swap: bool, useVarInt: bool, tail: seq<byte>)
    requires n <= MaxStringLength
    ensures ReadLengthSpec(StringPrefix(n, swap, useVarInt) + tail, swap, useVarInt)
         == Success((if useVarInt then n % 0x100 else n, |StringPrefix(n, swap, useVarInt)|))
  {
    if useVarInt {
      LowByteValue(n);
    } else {
      Int16RoundTrip(LowUShort(n), swap, tail);
      LowUShortValue(n);
    }
  }

  lemma SmallModulo(n: int)
    requires 0 <= n < 0x100
    ensures n % 0x100 == n
  {
  }

  /** One call of the short-string loop delivers the whole body when the
      stream hands over at least that many bytes per call. */
  lemma FillInOneCall(avail: nat, maxRead: Positive, length: nat)
    requires length < StringBufferSize && length <= avail && length <= maxRead
    ensures FillAsWritten(avail, maxRead, length, 0) == Success(length)
  {
    if length > 0 {
      assert FillAsWritten(avail, maxRead, length, 0) == FillAsWritten(avail - length, maxRead, length, length);
    }
  }

  /** The body of an encoded string, whatever follows it. */
  lemma BodyRoundTrip(s: string, maxRead: Positive, tail: seq<byte>)
    requires Utf8.ByteCount(s) < StringBufferSize ==> Utf8.ByteCount(s) <= maxRead
    ensures ReadBodySpec(Utf8.Encode(s) + tail, Utf8.ByteCount(s), maxRead) == Success((s, Utf8.ByteCount(s)))
  {
    var n := Utf8.ByteCount(s);
    FrontOf(Utf8.Encode(s), tail);
    Utf8.DecodeEncode(s);
    if n < StringBufferSize {
      FillInOneCall(|Utf8.Encode(s) + tail|, maxRead, n);
    }
  }

  /** ReadString on a prefix that reads back as length, then a body that
      reads back as value. */
  lemma ReadStringParts(prefix: seq<byte>, body: seq<byte>, swap: bool, useVarInt: bool, maxRead: Positive,
                        length: nat, value: string)
    requires ReadLengthSpec(prefix + body, swap, useVarInt) == Success((length, |prefix|))
    requires ReadBodySpec(body, length, maxRead) == Success((value, length))
    ensures ReadStringSpec(prefix + body, swap, useVarInt, maxRead) == Success((value, |prefix| + length))
  {
    assert (prefix + body)[|prefix|..] == body;
  }

  /** SkipString on a prefix that reads back as length, then a body. */
  lemma SkipStringParts(prefix: seq<byte>, body: seq<byte>, swap: bool, useVarInt: bool, canSeek: bool, length: nat)
    requires ReadLengthSpec(prefix + body, swap, useVarInt) == Success((length, |prefix|))
    requires length <= |body|
    ensures SkipStringSpec(prefix + body, swap, useVarInt, canSeek) == Success(|prefix| + length)
  {
  }

  /** The image of a string that Write(string) accepts, as prefix and body. */
  lemma ImageParts(s: string, swap: bool, useVarInt: bool, tail: seq<byte>)
    requires StringImage(s, swap, useVarInt).Success?
    ensures StringImage(s, swap, useVarInt).value + tail
         == StringPrefix(Utf8.ByteCount(s), swap, useVarInt) + (Utf8.Encode(s) + tail)
    ensures |StringImage(s, swap, useVarInt).value|
         == |StringPrefix(Utf8.ByteCount(s), swap, useVarInt)| + Utf8.ByteCount(s)
  {
    AppendAssociative(StringPrefix(Utf8.ByteCount(s), swap, useVarInt), Utf8.Encode(s), tail);
  }

  /** Write(string) then ReadString: the string comes back and exactly its
      image is consumed, provided the VarInt-mode prefix did not wrap and,
      for bodies shorter than the conversion buffer, the stream hands over
      the whole body in one call. */
  lemma StringRoundTrip(s: string, swap: bool, useVarInt: bool, maxRead: Positive, tail: seq<byte>)
    requires StringImage(s, swap, useVarInt).Success?
    requires useVarInt ==> Utf8.ByteCount(s) < 0x100
    requires Utf8.ByteCount(s) < StringBufferSize ==> Utf8.ByteCount(s) <= maxRead
    ensures ReadStringSpec(StringImage(s, swap, useVarInt).value + tail, swap, useVarInt, maxRead)
         == Success((s, |StringImage(s, swap, useVarInt).value|))
  {
    var n := Utf8.ByteCount(s);
    var prefix := StringPrefix(n, swap, useVarInt);
    var body := Utf8.Encode(s) + tail;
    ImageParts(s, swap, useVarInt, tail);
    LengthRoundTrip(n, swap, useVarInt, body);
    if useVarInt {
      SmallModulo(n);
    }
    BodyRoundTrip(s, maxRead, tail);
    ReadStringParts(prefix, body, swap, useVarInt, maxRead, n, s);
    ReadStringTransfer(StringImage(s, swap, useVarInt).value, tail, prefix, body, swap, useVarInt, maxRead, s, n);
  }

  /** ReadString on two spellings of the same bytes. */
  lemma ReadStringTransfer(image: seq<byte>, tail: seq<byte>, prefix: seq<byte>, body: seq<byte>, swap: bool, useVarInt: bool, maxRead: Positive, s: string, n: nat)
    requires image + tail == prefix + body
    requires |image| == |prefix| + n
    requires ReadStringSpec(prefix + body, swap, useVarInt, maxRead) == Success((s, |prefix| + n))
    ensures ReadStringSpec(image + tail, swap, useVarInt, maxRead) == Success((s, |image|))
  {
  }

  /** SkipString over what Write(string) wrote consumes exactly the image,
      on any stream: skipping needs no read-size condition, only that the
      VarInt-mode prefix did not wrap. */
  lemma SkipStringRoundTrip(s: string, swap: bool, useVarInt: bool, canSeek: bool, tail: seq<byte>)
    requires StringImage(s, swap, useVarInt).Success?
    requires useVarInt ==> Utf8.ByteCount(s) < 0x100
    ensures SkipStringSpec(StringImage(s, swap, useVarInt).value + tail, swap, useVarInt, canSeek)
         == Success(|StringImage(s, swap, useVarInt).value|)
  {
    var n := Utf8.ByteCount(s);
    var prefix := StringPrefix(n, swap, useVarInt);
    var body := Utf8.Encode(s) + tail;
    ImageParts(s, swap, useVarInt, tail);
    LengthRoundTrip(n, swap, useVarInt, body);
    if useVarInt {
      SmallModulo(n);
    }
    SkipStringParts(prefix, body, swap, useVarInt, canSeek, n);
    SkipStringTransfer(StringImage(s, swap, useVarInt).value, tail, prefix, body, swap, useVarInt, canSeek, n);
  }

  /** SkipString on two spellings of the same bytes. */
  lemma SkipStringTransfer(image: seq<byte>, tail: seq<byte>, prefix: seq<byte>, body: seq<byte>, swap: bool, useVarInt: bool, canSeek: bool, n: nat)
    requires image + tail == prefix + body
    requires |image| == |prefix| + n
    requires SkipStringSpec(prefix + body, swap, useVarInt, canSeek) == Success(|prefix| + n)
    ensures SkipStringSpec(image + tail, swap, useVarInt, canSeek) == Success(|image|)
  {
  }

  /** Whenever ReadString succeeds on a stream that hands over at least
      StringBufferSize bytes per call, SkipString succeeds on the same bytes
      and consumes exactly as many. */
  lemma SkipMatchesRead(rest: seq<byte>, swap: bool, useVarInt: bool, maxRead: Positive, canSeek: bool)
    requires maxRead >= StringBufferSize
    requires ReadStringSpec(rest, swap, useVarInt, maxRead).Success?
    ensures SkipStringSpec(rest, swap, useVarInt, canSeek) == Success(ReadStringSpec(rest, swap, useVarInt, maxRead).value.1)
  {
    var (length, k) := ReadLengthSpec(rest, swap, useVarInt).value;
    BodyConsumesLength(rest[k..], length, maxRead);
  }

  /** With calls of at least StringBufferSize bytes, a body read that
      succeeds consumes exactly the body. */
  lemma BodyConsumesLength(body: seq<byte>, length: nat, maxRead: Positive)
    requires maxRead >= StringBufferSize
    requires ReadBodySpec(body, length, maxRead).Success?
    ensures ReadBodySpec(body, length, maxRead).value.1 == length <= |body|
  {
    if length < StringBufferSize {
      FillConsumesLength(|body|, maxRead, length);
    }
  }

  /** With calls of at least StringBufferSize bytes, the short-string loop
      consumes exactly the body when it succeeds. */
  lemma FillConsumesLength(avail: nat, maxRead: Positive, length: nat)
    requires length < StringBufferSize && maxRead >= StringBufferSize
    requires FillAsWritten(avail, maxRead, length, 0).Success?
    ensures FillAsWritten(avail, maxRead, length, 0) == Success(length) && length <= avail
  {
    if length > 0 {
      var n := Min(Min(length, avail), maxRead);
      assert FillAsWritten(avail, maxRead, length, 0) == FillAsWritten(avail - n, maxRead, length, n);
    }
  }
}
