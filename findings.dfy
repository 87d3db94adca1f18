/// Four places where the codec as written departs from what it evidently
/// means to do. For each: the behaviour as written, exhibited on a concrete
/// input or for a whole class of inputs, and a corrected definition with the
/// intended property proved about it.
module Findings {
  import opened Bytes
  import opened Streams
  import Utf8
  import opened NbtWriter
  import opened NbtReader
  import Codec

  // ---------------------------------------------------------------------
  // 1. In VarInt mode Write(string) writes the UTF-8 length through a
  //    (byte) cast, so a body of 256 bytes or more gets a prefix that
  //    reads back as its length modulo 256.

  /** As written: every string of 256 to 32767 UTF-8 bytes is accepted in
      VarInt mode, and its prefix reads back as a different length. */
  lemma VarIntPrefixWraps(s: string, swap: bool, tail: seq<byte>)
    requires 0x100 <= Utf8.ByteCount(s) <= MaxStringLength
    ensures StringImage(s, swap, true).Success?
    ensures ReadLengthSpec(StringImage(s, swap, true).value + tail, swap, true)
         == Success((Utf8.ByteCount(s) % 0x100, 1))
    ensures Utf8.ByteCount(s) % 0x100 != Utf8.ByteCount(s)
  {
    var n := Utf8.ByteCount(s);
    Codec.ImageParts(s, swap, true, tail);
    Codec.LengthRoundTrip(n, swap, true, Utf8.Encode(s) + tail);
  }

  /** A string of ASCII characters takes one byte per character. */
  lemma {:induction false} AsciiByteCount(s: string)
    requires forall i :: 0 <= i < |s| ==> s[i] as int < 0x80
    ensures Utf8.ByteCount(s) == |s|
  {
    if |s| > 0 {
      AsciiByteCount(s[1..]);
    }
  }

  /** As written, on a concrete input: 256 letters 'a' are written in VarInt
      mode with the prefix 0, which ReadString takes for the empty string,
      leaving the 256 letters to be read as whatever comes next. */
  lemma VarIntPrefixWrapsExample(maxRead: Positive)
    ensures var s := seq(256, i => 'a');
            StringImage(s, false, true).Success? &&
            ReadStringSpec(StringImage(s, false, true).value, false, true, maxRead) == Success(("", 1))
  {
    var s := seq(256, i => 'a');
    AsciiByteCount(s);
    var image := StringImage(s, false, true).value;
    assert image[0] == 0 by {
      Codec.ImageParts(s, false, true, []);
      assert image == image + [];
    }
    assert ReadLengthSpec(image, false, true) == Success((0, 1));
    assert ReadBodySpec(image[1..], 0, maxRead) == Success((Utf8.Decode([]), 0));
  }

  /** The longest body a one-byte VarInt-mode prefix can describe. */
  const MaxVarIntStringLength: int := 0xFF

  /** Corrected Write(string): a body too long for the prefix of the mode in
      use is refused with NbtFormat instead of being written with a wrapped
      prefix. */
  function StringImageIntended(s: string, swap: bool, useVarInt: bool): Result<seq<byte>>
  {
    var n := Utf8.ByteCount(s);
    if n > (if useVarInt then MaxVarIntStringLength else MaxStringLength) then Failure(NbtFormat)
    else Success(StringPrefix(n, swap, useVarInt) + Utf8.Encode(s))
  }

  /** The corrected write refuses exactly the strings whose length the prefix
      cannot carry, and writes the others as the written code does. */
  lemma StringImageIntendedAgrees(s: string, swap: bool, useVarInt: bool)
    ensures StringImageIntended(s, swap, useVarInt).Failure?
        <==> Utf8.ByteCount(s) > (if useVarInt then MaxVarIntStringLength else MaxStringLength)
    ensures StringImageIntended(s, swap, useVarInt).Success?
        ==> StringImage(s, swap, useVarInt) == StringImageIntended(s, swap, useVarInt)
    ensures StringImage(s, swap, useVarInt).Success? && StringImageIntended(s, swap, useVarInt).Failure?
        ==> useVarInt && Utf8.ByteCount(s) > MaxVarIntStringLength
  {
  }

  // ---------------------------------------------------------------------
  // 2. ReadString's short-string loop asks every call for `length` bytes at
  //    offset `read`, not for the `length - read` still missing. A stream
  //    that hands over fewer bytes than asked makes the loop read past the
  //    body, or ask for more than the 64-byte buffer holds.

  /** As written: three bytes wanted, two per call, ten available: the
      second call takes two more, so four bytes are consumed. */
  lemma FillOvershootsExample()
    ensures FillAsWritten(10, 2, 3, 0) == Success(4)
  {
    FillAsWrittenStep(10, 2, 3, 0, 2);
    FillAsWrittenStep(8, 2, 3, 2, 2);
  }

  /** As written, at the level of ReadString in VarInt mode: the string
      "abc" with its prefix is four bytes, ReadString consumes five of
      them and SkipString four. */
  lemma StringOvershootExample()
    ensures var rest: seq<byte> := [3, 97, 98, 99, 100, 101, 102, 103, 104, 105];
            ReadStringSpec(rest, false, true, 2).Success? &&
            ReadStringSpec(rest, false, true, 2).value.1 == 5 &&
            SkipStringSpec(rest, false, true, false) == Success(4)
  {
    var rest: seq<byte> := [3, 97, 98, 99, 100, 101, 102, 103, 104, 105];
    assert ReadLengthSpec(rest, false, true) == Success((3, 1));
    FillAsWrittenStep(9, 2, 3, 0, 2);
    FillAsWrittenStep(7, 2, 3, 2, 2);
    assert FillAsWritten(|rest[1..]|, 2, 3, 0) == Success(4);
  }

  /** As written: forty bytes wanted, thirty per call: the second call asks
      for forty bytes at offset thirty of the 64-byte buffer, which throws
      ArgumentException although all forty are there. */
  lemma FillRefusesExample()
    ensures FillAsWritten(100, 30, 40, 0) == Failure(InvalidArgument)
  {
    FillAsWrittenStep(100, 30, 40, 0, 30);
  }

  /** What a stream hands over, call by call: the call-th Read returns the
      least of the count asked for, the bytes left and sizes(call). Any
      stream that returns between 1 and the count asked for while bytes
      remain behaves as some schedule does. */
  type Schedule = nat -> Positive

  /** Corrected short-string loop: each call asks for the bytes still
      missing, which always fit the buffer behind those already read. The
      stream hands over what sizes gives from call number `call` on. */
  function FillIntended(avail: nat, sizes: Schedule, call: nat, length: nat, read: nat): (r: Result<nat>)
    ensures r.Success? ==> length <= r.value <= read + avail
    decreases length - read
  {
    if read >= length then Success(read)
    else
      var n := Min(Min(length - read, avail), sizes(call));
      if n == 0 then Failure(EndOfStream) else FillIntended(avail - n, sizes, call + 1, length, read + n)
  }

  /** The corrected loop consumes exactly the body when the stream holds it
      and reports EndOfStream when it does not, whatever count the stream
      hands over on each call. */
  lemma {:induction false} FillIntendedExact(avail: nat, sizes: Schedule, call: nat, length: nat, read: nat)
    requires read <= length
    ensures FillIntended(avail, sizes, call, length, read)
         == if read + avail >= length then Success(length) else Failure(EndOfStream)
    decreases length - read
  {
    if read < length {
      var n := Min(Min(length - read, avail), sizes(call));
      if n > 0 {
        FillIntendedExact(avail - n, sizes, call + 1, length, read + n);
      }
    }
  }

  /** The examples on which the written loop overshoots or throws are read
      exactly by the corrected loop, and so is a body arriving one byte,
      then two, then three bytes per call. */
  lemma FillIntendedExample()
    ensures FillIntended(100, _ => 30, 0, 40, 0) == Success(40)
    ensures FillIntended(10, _ => 2, 0, 3, 0) == Success(3)
    ensures FillIntended(10, k => k + 1, 0, 6, 0) == Success(6)
  {
    FillIntendedExact(100, _ => 30, 0, 40, 0);
    FillIntendedExact(10, _ => 2, 0, 3, 0);
    FillIntendedExact(10, k => k + 1, 0, 6, 0);
  }

  /** The string body as the corrected ReadString reads it, the stream
      handing over sizes(0), sizes(1), ... on the body's calls. */
  function ReadBodyIntendedSpec(rest: seq<byte>, length: nat, sizes: Schedule): Result<(string, nat)>
  {
    if length < StringBufferSize then
      match FillIntended(|rest|, sizes, 0, length, 0)
      case Failure(e) => Failure(e)
      case Success(total) => Success((Utf8.Decode(rest[..length]), total))
    else if |rest| < length then Failure(EndOfStream)
    else Success((Utf8.Decode(rest[..length]), length))
  }

  /** Whatever the stream hands over on each call, the corrected body read
      yields the first `length` bytes and consumes exactly them. */
  lemma ReadBodyIntendedExact(rest: seq<byte>, length: nat, sizes: Schedule)
    ensures ReadBodyIntendedSpec(rest, length, sizes)
         == if |rest| < length then Failure(EndOfStream) else Success((Utf8.Decode(rest[..length]), length))
  {
    FillIntendedExact(|rest|, sizes, 0, length, 0);
  }

  /** The corrected ReadString: prefix as written, body read as intended. */
  function ReadStringIntendedSpec(rest: seq<byte>, swap: bool, useVarInt: bool, sizes: Schedule): Result<(string, nat)>
  {
    match ReadLengthSpec(rest, swap, useVarInt)
    case Failure(e) => Failure(e)
    case Success(lk) =>
      var (length, k) := lk;
      if length < 0 then Failure(NbtFormat)
      else After(k, ReadBodyIntendedSpec(rest[k..], length, sizes))
  }

  /** On a stream that cannot seek, SkipString succeeds exactly when the
      corrected ReadString does, and then consumes as many bytes, whatever
      the stream hands over on each call. On a seekable stream a successful
      read implies a skip of the same size. */
  lemma SkipMatchesReadIntended(rest: seq<byte>, swap: bool, useVarInt: bool, sizes: Schedule, canSeek: bool)
    ensures !canSeek ==>
      (SkipStringSpec(rest, swap, useVarInt, false).Success?
       <==> ReadStringIntendedSpec(rest, swap, useVarInt, sizes).Success?)
    ensures ReadStringIntendedSpec(rest, swap, useVarInt, sizes).Success? ==>
      SkipStringSpec(rest, swap, useVarInt, canSeek) == Success(ReadStringIntendedSpec(rest, swap, useVarInt, sizes).value.1)
  {
    match ReadLengthSpec(rest, swap, useVarInt)
    case Failure(_) =>
    case Success(lk) =>
      var (length, k) := lk;
      if length >= 0 {
        ReadBodyIntendedExact(rest[k..], length, sizes);
      }
  }

  /** The body of an encoded string, whatever the stream hands over on each
      call. */
  lemma BodyRoundTripIntended(s: string, sizes: Schedule, tail: seq<byte>)
    ensures ReadBodyIntendedSpec(Utf8.Encode(s) + tail, Utf8.ByteCount(s), sizes) == Success((s, Utf8.ByteCount(s)))
  {
    Codec.FrontOf(Utf8.Encode(s), tail);
    Utf8.DecodeEncode(s);
    ReadBodyIntendedExact(Utf8.Encode(s) + tail, Utf8.ByteCount(s), sizes);
  }

  /** Corrected writer and corrected reader together: every string the
      write accepts comes back, consuming exactly its image, in both modes
      and whatever the stream hands over on each call. */
  lemma StringRoundTripIntended(s: string, swap: bool, useVarInt: bool, sizes: Schedule, tail: seq<byte>)
    requires StringImageIntended(s, swap, useVarInt).Success?
    ensures ReadStringIntendedSpec(StringImageIntended(s, swap, useVarInt).value + tail, swap, useVarInt, sizes)
         == Success((s, |StringImageIntended(s, swap, useVarInt).value|))
  {
    var n := Utf8.ByteCount(s);
    var prefix := StringPrefix(n, swap, useVarInt);
    var body := Utf8.Encode(s) + tail;
    var image := StringImageIntended(s, swap, useVarInt).value;
    StringImageIntendedAgrees(s, swap, useVarInt);
    Codec.ImageParts(s, swap, useVarInt, tail);
    Codec.LengthRoundTrip(n, swap, useVarInt, body);
    if useVarInt {
      Codec.SmallModulo(n);
    }
    BodyRoundTripIntended(s, sizes, tail);
    IntendedParts(prefix, body, swap, useVarInt, sizes, n, s);
    IntendedTransfer(image, tail, prefix, body, swap, useVarInt, sizes, s, n);
  }

  /** The corrected ReadString on a prefix and a body. */
  lemma IntendedParts(prefix: seq<byte>, body: seq<byte>, swap: bool, useVarInt: bool, sizes: Schedule,
                      length: nat, value: string)
    requires ReadLengthSpec(prefix + body, swap, useVarInt) == Success((length, |prefix|))
    requires ReadBodyIntendedSpec(body, length, sizes) == Success((value, length))
    ensures ReadStringIntendedSpec(prefix + body, swap, useVarInt, sizes) == Success((value, |prefix| + length))
  {
    assert (prefix + body)[|prefix|..] == body;
    IntendedFromLength(prefix + body, swap, useVarInt, sizes, length, |prefix|, value);
  }

  /** The corrected ReadString, once the prefix gave the length. */
  lemma IntendedFromLength(rest: seq<byte>, swap: bool, useVarInt: bool, sizes: Schedule,
                           length: nat, k: nat, value: string)
    requires k <= |rest| && ReadLengthSpec(rest, swap, useVarInt) == Success((length, k))
    requires ReadBodyIntendedSpec(rest[k..], length, sizes) == Success((value, length))
    ensures ReadStringIntendedSpec(rest, swap, useVarInt, sizes) == Success((value, k + length))
  {
  }

  /** The corrected ReadString on two spellings of the same bytes. */
  lemma IntendedTransfer(image: seq<byte>, tail: seq<byte>, prefix: seq<byte>, body: seq<byte>, swap: bool, useVarInt: bool,
                         sizes: Schedule, s: string, n: nat)
    requires image + tail == prefix + body
    requires |image| == |prefix| + n
    requires ReadStringIntendedSpec(prefix + body, swap, useVarInt, sizes) == Success((s, |prefix| + n))
    ensures ReadStringIntendedSpec(image + tail, swap, useVarInt, sizes) == Success((s, |image|))
  {
  }

  // ---------------------------------------------------------------------
  // 3. When swapping, ReadSingle and ReadDouble reverse the bytes and hand
  //    them to BitConverter, which reads them in the byte order of the
  //    host. That is right on a little-endian host only: on a big-endian
  //    host the value comes back byte-reversed. The corrected reads follow
  //    the integer reads; with the corrected swapNeeded of finding 4 they
  //    then follow the byte order asked for on every host.

  /** As written: on a big-endian host that swaps, ReadSingle returns the
      byte-reversed bits of every float Write(float) wrote. */
  lemma BigEndianHostSingle(bits: bv32, tail: seq<byte>)
    ensures ReadSingleSpec(WireOrder32(bits, true) + tail, true, false) == Success((Swap32(bits), 4))
  {
    Codec.FrontOf(WireOrder32(bits, true), tail);
    Codec.ReverseTwice(BigEndian32(bits));
    BigEndian32IsReversed(bits);
    Swap32Reverses(bits);
    LittleEndian32Inverse(Swap32(bits), LittleEndian32(bits));
  }

  /** As written, on a concrete input: 1.0f (bits 0x3F800000) comes back as
      the bits 0x0000803F. */
  lemma BigEndianHostSingleExample()
    ensures ReadSingleSpec(WireOrder32(0x3F80_0000, true), true, false) == Success((0x0000_803F, 4))
  {
    BigEndianHostSingle(0x3F80_0000, []);
    assert WireOrder32(0x3F80_0000, true) + [] == WireOrder32(0x3F80_0000, true);
  }

  lemma BigEndianHostDouble(bits: bv64, tail: seq<byte>)
    ensures ReadDoubleSpec(WireOrder64(bits, true) + tail, true, false) == Success((Swap64(bits), 8))
  {
    Codec.FrontOf(WireOrder64(bits, true), tail);
    Codec.ReverseTwice(BigEndian64(bits));
    BigEndian64IsReversed(bits);
    Swap64Reverses(bits);
    LittleEndian64Inverse(Swap64(bits), LittleEndian64(bits));
  }

  /** Corrected ReadSingle: when swapping, the four bytes are big-endian,
      on any host. */
  function ReadSingleIntendedSpec(rest: seq<byte>, swap: bool): Result<(bv32, nat)>
  {
    if |rest| < 4 then Failure(EndOfStream)
    else if swap then Success((FromLittleEndian32(Reverse(rest[..4])), 4))
    else Success((FromLittleEndian32(rest[..4]), 4))
  }

  /** Corrected ReadDouble. */
  function ReadDoubleIntendedSpec(rest: seq<byte>, swap: bool): Result<(bv64, nat)>
  {
    if |rest| < 8 then Failure(EndOfStream)
    else if swap then Success((FromLittleEndian64(Reverse(rest[..8])), 8))
    else Success((FromLittleEndian64(rest[..8]), 8))
  }

  /** The corrected float read decodes the bytes as the integer read does,
      and is what the written code computes on a little-endian host. */
  lemma SingleIntendedAgrees(rest: seq<byte>, swap: bool)
    ensures ReadSingleIntendedSpec(rest, swap) == ReadInt32Spec(rest, swap, false)
    ensures ReadSingleIntendedSpec(rest, swap) == ReadSingleSpec(rest, swap, true)
  {
    if |rest| >= 4 && swap {
      var v := FromLittleEndian32(rest[..4]);
      LittleEndian32Inverse(v, rest[..4]);
      Swap32Reverses(v);
      LittleEndian32Inverse(Swap32(v), LittleEndian32(v));
    }
  }

  lemma DoubleIntendedAgrees(rest: seq<byte>, swap: bool)
    ensures ReadDoubleIntendedSpec(rest, swap) == ReadInt64Spec(rest, swap)
    ensures ReadDoubleIntendedSpec(rest, swap) == ReadDoubleSpec(rest, swap, true)
  {
    if |rest| >= 8 && swap {
      var v := FromLittleEndian64(rest[..8]);
      LittleEndian64Inverse(v, rest[..8]);
      Swap64Reverses(v);
      LittleEndian64Inverse(Swap64(v), LittleEndian64(v));
    }
  }

  /** Write(float) then the corrected ReadSingle, on any host. */
  lemma SingleRoundTripIntended(bits: bv32, swap: bool, tail: seq<byte>)
    ensures ReadSingleIntendedSpec(WireOrder32(bits, swap) + tail, swap) == Success((bits, 4))
  {
    SingleIntendedAgrees(WireOrder32(bits, swap) + tail, swap);
    Codec.Word32RoundTrip(bits, swap, tail);
  }

  lemma DoubleRoundTripIntended(bits: bv64, swap: bool, tail: seq<byte>)
    ensures ReadDoubleIntendedSpec(WireOrder64(bits, swap) + tail, swap) == Success((bits, 8))
  {
    DoubleIntendedAgrees(WireOrder64(bits, swap) + tail, swap);
    Codec.Int64RoundTrip(bits, swap, tail);
  }

  // ---------------------------------------------------------------------
  // 4. Both constructors set swapNeeded from the host's byte order, but the
  //    writes are made of shifts and the inherited reads are little-endian
  //    on every host. On a big-endian host every fixed-width value is
  //    therefore written and read in the order opposite to the one asked
  //    for, and files do not move between hosts.

  /** The image of v in the opposite order is the image of the
      byte-reversed v. */
  lemma WireOrderOpposite16(v: bv16, swap: bool)
    ensures WireOrder16(v, !swap) == WireOrder16(Swap16(v), swap)
  {
    Swap16Reverses(v);
    BigEndian16IsReversed(v);
    BigEndian16IsReversed(Swap16(v));
    Codec.ReverseTwice(LittleEndian16(v));
  }

  lemma WireOrderOpposite32(v: bv32, swap: bool)
    ensures WireOrder32(v, !swap) == WireOrder32(Swap32(v), swap)
  {
    Swap32Reverses(v);
    BigEndian32IsReversed(v);
    BigEndian32IsReversed(Swap32(v));
    Codec.ReverseTwice(LittleEndian32(v));
  }

  lemma WireOrderOpposite64(v: bv64, swap: bool)
    ensures WireOrder64(v, !swap) == WireOrder64(Swap64(v), swap)
  {
    Swap64Reverses(v);
    BigEndian64IsReversed(v);
    BigEndian64IsReversed(Swap64(v));
    Codec.ReverseTwice(LittleEndian64(v));
  }

  /** As written: what a big-endian host writes, a little-endian host that
      asks for the same byte order reads back byte-reversed, for every
      value and in both orders. */
  lemma BigEndianHostFilesSwapped(v16: bv16, v32: bv32, v64: bv64, bigEndian: bool, tail: seq<byte>)
    ensures ReadInt16Spec(WireOrder16(v16, SwapNeeded(false, bigEndian)) + tail, SwapNeeded(true, bigEndian))
         == Success((Swap16(v16), 2))
    ensures ReadInt32Spec(WireOrder32(v32, SwapNeeded(false, bigEndian)) + tail, SwapNeeded(true, bigEndian), false)
         == Success((Swap32(v32), 4))
    ensures ReadInt64Spec(WireOrder64(v64, SwapNeeded(false, bigEndian)) + tail, SwapNeeded(true, bigEndian))
         == Success((Swap64(v64), 8))
  {
    WireOrderOpposite16(v16, bigEndian);
    WireOrderOpposite32(v32, bigEndian);
    WireOrderOpposite64(v64, bigEndian);
    Codec.Int16RoundTrip(Swap16(v16), bigEndian, tail);
    Codec.Word32RoundTrip(Swap32(v32), bigEndian, tail);
    Codec.Int64RoundTrip(Swap64(v64), bigEndian, tail);
  }

  /** As written, on a concrete input: a big-endian writer on a big-endian
      host writes the short 0x0102 as [0x02, 0x01], whose big-endian reading
      on a little-endian host is 0x0201. */
  lemma BigEndianHostFilesSwappedExample()
    ensures WireOrder16(0x0102, SwapNeeded(false, true)) == [0x02, 0x01] != BigEndian16(0x0102)
    ensures ReadInt16Spec([0x02, 0x01], SwapNeeded(true, true)) == Success((0x0201, 2))
  {
    BigEndianHostFilesSwapped(0x0102, 0, 0, true, []);
    assert WireOrder16(0x0102, SwapNeeded(false, true)) + [] == [0x02, 0x01];
  }

  /** As written, on the writer itself: built for big-endian output on a
      big-endian host, Write(short), Write(int) and Write(long) emit the
      little-endian images. */
  method BigEndianHostWriter(output: OutputStream, v16: bv16, v32: bv32, v64: bv64)
    requires output.canWrite
    modifies output
    ensures output.written == old(output.written) + LittleEndian16(v16) + LittleEndian32(v32) + LittleEndian64(v64)
  {
    var writer := new NbtBinaryWriter(output, true, false);
    writer.WriteInt16(v16);
    writer.WriteInt32(v32);
    writer.WriteInt64(v64);
  }

  /** Corrected constructors: the shifts and the inherited reads are
      little-endian on every host, so swapping is needed exactly for
      big-endian output, whatever the host. */
  function SwapNeededIntended(hostLittleEndian: bool, bigEndian: bool): bool
  {
    bigEndian
  }

  /** With the corrected swapNeeded, the fixed-width images are in the byte
      order asked for on every host. */
  lemma IntendedByteOrder(v16: bv16, v32: bv32, v64: bv64, hostLittleEndian: bool, bigEndian: bool)
    ensures WireOrder16(v16, SwapNeededIntended(hostLittleEndian, bigEndian))
         == if bigEndian then BigEndian16(v16) else LittleEndian16(v16)
    ensures WireOrder32(v32, SwapNeededIntended(hostLittleEndian, bigEndian))
         == if bigEndian then BigEndian32(v32) else LittleEndian32(v32)
    ensures WireOrder64(v64, SwapNeededIntended(hostLittleEndian, bigEndian))
         == if bigEndian then BigEndian64(v64) else LittleEndian64(v64)
  {
  }

  /** The corrected constructors together with the corrected float reads
      (finding 3): whatever one host writes, any other host asking for the
      same byte order reads back, integers and floats alike. */
  lemma CrossHostRoundTripIntended(v16: bv16, v32: bv32, v64: bv64, f32: bv32, f64: bv64,
                                   writerHost: bool, readerHost: bool, bigEndian: bool, tail: seq<byte>)
    ensures ReadInt16Spec(WireOrder16(v16, SwapNeededIntended(writerHost, bigEndian)) + tail,
                          SwapNeededIntended(readerHost, bigEndian)) == Success((v16, 2))
    ensures ReadInt32Spec(WireOrder32(v32, SwapNeededIntended(writerHost, bigEndian)) + tail,
                          SwapNeededIntended(readerHost, bigEndian), false) == Success((v32, 4))
    ensures ReadInt64Spec(WireOrder64(v64, SwapNeededIntended(writerHost, bigEndian)) + tail,
                          SwapNeededIntended(readerHost, bigEndian)) == Success((v64, 8))
    ensures ReadSingleIntendedSpec(WireOrder32(f32, SwapNeededIntended(writerHost, bigEndian)) + tail,
                                   SwapNeededIntended(readerHost, bigEndian)) == Success((f32, 4))
    ensures ReadDoubleIntendedSpec(WireOrder64(f64, SwapNeededIntended(writerHost, bigEndian)) + tail,
                                   SwapNeededIntended(readerHost, bigEndian)) == Success((f64, 8))
  {
    Codec.Int16RoundTrip(v16, bigEndian, tail);
    Codec.Word32RoundTrip(v32, bigEndian, tail);
    Codec.Int64RoundTrip(v64, bigEndian, tail);
    SingleRoundTripIntended(f32, bigEndian, tail);
    DoubleRoundTripIntended(f64, bigEndian, tail);
  }
}
