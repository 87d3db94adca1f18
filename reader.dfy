/// NbtBinaryReader (src/CoreFNBT/NbtBinaryReader.cs): reads NBT primitives
/// from a stream, undoing the byte order chosen once per instance, decodes
/// length-prefixed UTF-8 strings and skips over values unread.
module NbtReader {
  import opened Bytes
  import opened Streams
  import VarInt
  import Utf8

  /** Size of the buffer the fixed-width reads fill: sizeof(double). */
  const FixedBufferSize: int := 8

  /** Size of the conversion buffer short strings are read into. */
  const StringBufferSize: int := 64

  /** Size of the buffer Skip discards bytes into on a stream that cannot seek. */
  const SeekBufferSize: int := 8 * 1024

  // ---------------------------------------------------------------------
  // The static Swap helpers. The C# shifts of short and int values are
  // arithmetic, but every shifted-in bit is masked off again, so logical
  // shifts on the bit patterns compute the same.

  /** Swap(short). */
  function Swap16(v: bv16): bv16
  {
    ((v >> 8) & 0x00FF) | ((v << 8) & 0xFF00)
  }

  /** Swap(int), on the uint view of the value. */
  function Swap32(v: bv32): bv32
  {
    ((v >> 24) & 0x0000_00FF) | ((v >> 8) & 0x0000_FF00) |
    ((v << 8) & 0x00FF_0000) | ((v << 24) & 0xFF00_0000)
  }

  /** Swap(long): each half swapped, the halves exchanged. The masks with
      uint.MaxValue undo the sign extension of the int results. */
  function Swap64(v: bv64): bv64
  {
    ((Swap32((v & 0xFFFF_FFFF) as bv32) as bv64) << 32) | (Swap32((v >> 32) as bv32) as bv64)
  }

  lemma Swap16Reverses(v: bv16)
    ensures LittleEndian16(Swap16(v)) == Reverse(LittleEndian16(v))
  {
  }

  lemma Swap16Involution(v: bv16)
    ensures Swap16(Swap16(v)) == v
  {
  }

  lemma Swap32Reverses(v: bv32)
    ensures LittleEndian32(Swap32(v)) == Reverse(LittleEndian32(v))
  {
  }

  lemma Swap32Involution(v: bv32)
    ensures Swap32(Swap32(v)) == v
  {
  }

  /** The little-endian image of a long is those of its low and high halves. */
  lemma LittleEndian64Halves(v: bv64)
    ensures LittleEndian64(v) == LittleEndian32((v & 0xFFFF_FFFF) as bv32) + LittleEndian32((v >> 32) as bv32)
  {
  }

  lemma JoinHalves(lo: bv32, hi: bv32)
    ensures (((hi as bv64) << 32) | (lo as bv64)) & 0xFFFF_FFFF == lo as bv64
    ensures ((((hi as bv64) << 32) | (lo as bv64)) & 0xFFFF_FFFF) as bv32 == lo
    ensures ((((hi as bv64) << 32) | (lo as bv64)) >> 32) as bv32 == hi
  {
  }

  lemma ReverseFours(a: seq<byte>, b: seq<byte>)
    requires |a| == 4 && |b| == 4
    ensures Reverse(a + b) == Reverse(b) + Reverse(a)
  {
  }

  lemma Swap64Reverses(v: bv64)
    ensures LittleEndian64(Swap64(v)) == Reverse(LittleEndian64(v))
  {
    var lo, hi := (v & 0xFFFF_FFFF) as bv32, (v >> 32) as bv32;
    JoinHalves(Swap32(hi), Swap32(lo));
    LittleEndian64Halves(Swap64(v));
    LittleEndian64Halves(v);
    Swap32Reverses(lo);
    Swap32Reverses(hi);
    ReverseFours(LittleEndian32(lo), LittleEndian32(hi));
  }

  lemma Swap64Involution(v: bv64)
    ensures Swap64(Swap64(v)) == v
  {
  }

  // ---------------------------------------------------------------------
  // What each read yields from the unread bytes of the stream, and how many
  // bytes it consumes. The inherited BinaryReader reads decode little-endian.

  /** BitConverter.ToSingle: four bytes in the byte order of the host. */
  function HostOrder32(b: seq<byte>, hostLittleEndian: bool): bv32
    requires |b| == 4
  {
    if hostLittleEndian then FromLittleEndian32(b) else FromLittleEndian32(Reverse(b))
  }

  /** BitConverter.ToDouble: eight bytes in the byte order of the host. */
  function HostOrder64(b: seq<byte>, hostLittleEndian: bool): bv64
    requires |b| == 8
  {
    if hostLittleEndian then FromLittleEndian64(b) else FromLittleEndian64(Reverse(b))
  }

  /** BinaryReader.ReadByte. */
  function ReadByteSpec(rest: seq<byte>): Result<(byte, nat)>
  {
    if |rest| == 0 then Failure(EndOfStream) else Success((rest[0], 1))
  }

  /** ReadTagType: a byte no greater than IntArray. */
  function ReadTagTypeSpec(rest: seq<byte>): Result<(byte, nat)>
  {
    if |rest| == 0 then Failure(EndOfStream)
    else if rest[0] > IntArray then Failure(NbtFormat)
    else Success((rest[0], 1))
  }

  function ReadInt16Spec(rest: seq<byte>, swap: bool): Result<(bv16, nat)>
  {
    if |rest| < 2 then Failure(EndOfStream)
    else
      var v := FromLittleEndian16(rest[..2]);
      Success((if swap then Swap16(v) else v, 2))
  }

  function ReadInt32Spec(rest: seq<byte>, swap: bool, useVarInt: bool): Result<(bv32, nat)>
  {
    if useVarInt then VarInt.ReadSInt32Spec(rest)
    else if |rest| < 4 then Failure(EndOfStream)
    else
      var v := FromLittleEndian32(rest[..4]);
      Success((if swap then Swap32(v) else v, 4))
  }

  function ReadInt64Spec(rest: seq<byte>, swap: bool): Result<(bv64, nat)>
  {
    if |rest| < 8 then Failure(EndOfStream)
    else
      var v := FromLittleEndian64(rest[..8]);
      Success((if swap then Swap64(v) else v, 8))
  }

  /** ReadSingle, as the IEEE-754 bits of the float: when swapping, the four
      bytes reversed and then read in host order. */
  function ReadSingleSpec(rest: seq<byte>, swap: bool, hostLittleEndian: bool): Result<(bv32, nat)>
  {
    if |rest| < 4 then Failure(EndOfStream)
    else if swap then Success((HostOrder32(Reverse(rest[..4]), hostLittleEndian), 4))
    else Success((FromLittleEndian32(rest[..4]), 4))
  }

  /** ReadDouble, as the IEEE-754 bits of the double. */
  function ReadDoubleSpec(rest: seq<byte>, swap: bool, hostLittleEndian: bool): Result<(bv64, nat)>
  {
    if |rest| < 8 then Failure(EndOfStream)
    else if swap then Success((HostOrder64(Reverse(rest[..8]), hostLittleEndian), 8))
    else Success((FromLittleEndian64(rest[..8]), 8))
  }

  /** The length prefix of a string: one unsigned byte in VarInt mode, a
      signed short otherwise. */
  function ReadLengthSpec(rest: seq<byte>, swap: bool, useVarInt: bool): (r: Result<(int, nat)>)
    ensures r.Success? ==> r.value.1 == (if useVarInt then 1 else 2) <= |rest|
    ensures r.Success? && useVarInt ==> 0 <= r.value.0 < 0x100
    ensures r.Failure? <==> |rest| < (if useVarInt then 1 else 2)
  {
    if useVarInt then
      if |rest| == 0 then Failure(EndOfStream) else Success((rest[0] as int, 1))
    else
      match ReadInt16Spec(rest, swap)
      case Success(vn) => Success((Signed16(vn.0), 2))
      case Failure(e) => Failure(e)
  }

  /** The bytes the short-string loop of ReadString consumes, having read
      `read` of a `length`-byte body, with `avail` bytes left in a stream
      whose every call delivers exactly the least of the count asked for,
      the bytes left and maxRead. Every call asks for `length`
      bytes at offset `read` of the 64-byte buffer: one that does not fit
      throws ArgumentException, one that returns nothing EndOfStream. */
  function FillAsWritten(avail: nat, maxRead: Positive, length: nat, read: nat): (r: Result<nat>)
    ensures r.Success? ==> length <= r.value <= read + avail
    ensures r.Success? && read <= StringBufferSize ==> r.value <= StringBufferSize
    decreases length - read
  {
    if read >= length then Success(read)
    else if read + length > StringBufferSize then Failure(InvalidArgument)
    else
      var n := Min(Min(length, avail), maxRead);
      if n == 0 then Failure(EndOfStream) else FillAsWritten(avail - n, maxRead, length, read + n)
  }

  /** One call of the short-string loop. */
  lemma FillAsWrittenStep(avail: nat, maxRead: Positive, length: nat, read: nat, n: nat)
    requires read < length && read + length <= StringBufferSize
    requires n == Min(Min(length, avail), maxRead) && n > 0
    ensures FillAsWritten(avail, maxRead, length, read) == FillAsWritten(avail - n, maxRead, length, read + n)
  {
  }

  /** A buffer holding rest[..read] holds every shorter prefix of rest. */
  lemma ShorterPrefix(buf: seq<byte>, rest: seq<byte>, read: nat, length: nat)
    requires length <= read <= |buf| && read <= |rest| && buf[..read] == rest[..read]
    ensures buf[..length] == rest[..length]
  {
    assert buf[..length] == buf[..read][..length];
    assert rest[..length] == rest[..read][..length];
  }

  /** The calls of the short-string loop that end it. */
  lemma FillAsWrittenEnds(avail: nat, maxRead: Positive, length: nat, read: nat)
    ensures read >= length ==> FillAsWritten(avail, maxRead, length, read) == Success(read)
    ensures read < length && read + length > StringBufferSize ==>
      FillAsWritten(avail, maxRead, length, read) == Failure(InvalidArgument)
    ensures read < length && read + length <= StringBufferSize && Min(Min(length, avail), maxRead) == 0 ==>
      FillAsWritten(avail, maxRead, length, read) == Failure(EndOfStream)
  {
  }

  /** The body of a string of the given length, as ReadString reads it:
      the decoded bytes and the bytes consumed. The body is the first
      `length` bytes even when the short-string loop consumes more. */
  function ReadBodySpec(rest: seq<byte>, length: nat, maxRead: Positive): Result<(string, nat)>
  {
    if length < StringBufferSize then
      match FillAsWritten(|rest|, maxRead, length, 0)
      case Failure(e) => Failure(e)
      case Success(total) => Success((Utf8.Decode(rest[..length]), total))
    else if |rest| < length then Failure(EndOfStream)
    else Success((Utf8.Decode(rest[..length]), length))
  }

  /** ReadString: the decoded body and the bytes consumed, prefix included. */
  function ReadStringSpec(rest: seq<byte>, swap: bool, useVarInt: bool, maxRead: Positive): Result<(string, nat)>
  {
    match ReadLengthSpec(rest, swap, useVarInt)
    case Failure(e) => Failure(e)
    case Success(lk) =>
      var (length, k) := lk;
      if length < 0 then Failure(NbtFormat)
      else After(k, ReadBodySpec(rest[k..], length, maxRead))
  }

  /** FillBuffer(numBytes) into the 8-byte buffer. A first call that returns
      nothing (always, for numBytes == 0) throws EndOfStream; a count past
      the buffer throws ArgumentException. */
  function FillOutcome(avail: nat, numBytes: nat): Outcome
  {
    if numBytes == 0 then Fail(EndOfStream)
    else if numBytes > FixedBufferSize then Fail(InvalidArgument)
    else if avail < numBytes then Fail(EndOfStream)
    else Pass
  }

  /** Skip(n): a negative count is refused; a seekable stream moves its
      position however far that takes it; otherwise the n bytes must be
      there to be read. */
  function SkipOutcome(n: int, canSeek: bool, avail: nat): Outcome
  {
    if n < 0 then Fail(ArgumentOutOfRange)
    else if canSeek || n <= avail then Pass
    else Fail(EndOfStream)
  }

  /** SkipString: the bytes consumed, prefix included. */
  function SkipStringSpec(rest: seq<byte>, swap: bool, useVarInt: bool, canSeek: bool): Result<nat>
  {
    match ReadLengthSpec(rest, swap, useVarInt)
    case Failure(e) => Failure(e)
    case Success(lk) =>
      var (length, k) := lk;
      if length < 0 then Failure(NbtFormat)
      else match SkipOutcome(length, canSeek, |rest| - k)
        case Pass => Success(k + length)
        case Fail(e) => Failure(e)
  }

  /** One Read of n bytes into a buffer already holding rest[..read] in
      front: the buffer then holds rest[..read + n] and the stream has moved
      past them. */
  lemma ReadAdvances(rest: seq<byte>, read: nat, n: nat, restBefore: seq<byte>, restAfter: seq<byte>,
                     bufBefore: seq<byte>, bufAfter: seq<byte>)
    requires read + n <= |rest| && read + n <= |bufAfter| == |bufBefore|
    requires restBefore == rest[read..] && restAfter == restBefore[n..]
    requires bufBefore[..read] == rest[..read]
    requires bufAfter[..read] == bufBefore[..read] && bufAfter[read..read + n] == restBefore[..n]
    ensures restAfter == rest[read + n..] && bufAfter[..read + n] == rest[..read + n]
  {
    assert bufAfter[..read + n] == bufAfter[..read] + bufAfter[read..read + n];
    assert rest[..read + n] == rest[..read] + rest[read..][..n];
  }

  class NbtBinaryReader {
    const stream: InputStream
    const swapNeeded: bool
    const hostLittleEndian: bool
    const buffer: array<byte>
    const stringConversionBuffer: array<byte>
    var seekBuffer: array?<byte>
    var useVarInt: bool

    ghost predicate Valid()
      reads this
    {
      && buffer.Length == FixedBufferSize
      && stringConversionBuffer.Length == StringBufferSize
      && (seekBuffer != null ==> seekBuffer.Length == SeekBufferSize)
    }

    /** new NbtBinaryReader(input, bigEndian) on a host of the given byte
        order. */
    constructor (input: InputStream, bigEndian: bool, hostLittleEndian: bool)
      ensures Valid() && fresh(buffer) && fresh(stringConversionBuffer) && seekBuffer == null
      ensures stream == input && swapNeeded == SwapNeeded(hostLittleEndian, bigEndian)
      ensures this.hostLittleEndian == hostLittleEndian && !useVarInt
    {
      stream := input;
      swapNeeded := SwapNeeded(hostLittleEndian, bigEndian);
      this.hostLittleEndian := hostLittleEndian;
      buffer := new byte[FixedBufferSize];
      stringConversionBuffer := new byte[StringBufferSize];
      seekBuffer := null;
      useVarInt := false;
    }

    /** BinaryReader.ReadByte: EndOfStream instead of -1. */
    method ReadByte() returns (r: Result<byte>)
      modifies stream
      ensures ReadAs(r, stream.position - old(stream.position), ReadByteSpec(old(stream.Rest())))
      ensures stream.readCounts == old(stream.readCounts)
    {
      ghost var rest := stream.Rest();
      var b0 := stream.ReadByte();
      if b0 < 0 {
        return Failure(EndOfStream);
      }
      var b := ToByte(b0, rest[0]);
      r := Success(b);
    }

    /** ReadTagType. BinaryReader.ReadByte already throws at the end of the
        stream, so the source's test for a negative type never succeeds. */
    method ReadTagType() returns (r: Result<byte>)
      modifies stream
      ensures ReadAs(r, stream.position - old(stream.position), ReadTagTypeSpec(old(stream.Rest())))
      ensures stream.readCounts == old(stream.readCounts)
    {
      var t := ReadByte();
      if t.Failure? {
        return t;
      }
      if t.value > IntArray {
        return Failure(NbtFormat);
      }
      r := t;
    }

    /** One BaseStream.Read call of a loop that has already read rest[..offset]
        into buf, with a call log that so far asked for at most bound bytes
        per call. */
    method ReadInto(buf: array<byte>, offset: nat, count: nat, ghost rest: seq<byte>, ghost log: seq<int>, ghost bound: int)
        returns (r: Result<nat>)
      requires offset <= |rest| && stream.Rest() == rest[offset..]
      requires offset <= buf.Length && buf[..offset] == rest[..offset]
      requires ExtendedByCalls(log, stream.readCounts, bound) && count <= bound
      modifies stream, buf
      ensures r.Failure? <==> offset + count > buf.Length
      ensures r.Failure? ==>
        r.error == InvalidArgument && stream.position == old(stream.position) && stream.readCounts == old(stream.readCounts)
      ensures r.Success? ==>
        && r.value == Min(Min(count, |rest| - offset), stream.maxRead)
        && stream.position == old(stream.position) + r.value
        && stream.Rest() == rest[offset + r.value..]
        && buf[..offset + r.value] == rest[..offset + r.value]
      ensures r.Success? ==> r.value <= count && offset + r.value <= |rest|
      ensures r.Success? ==> (r.value == 0 <==> count == 0 || offset == |rest|)
      ensures ExtendedByCalls(log, stream.readCounts, bound)
    {
      ghost var restBefore, bufBefore, logBefore := stream.Rest(), buf[..], stream.readCounts;
      r := stream.Read(buf, offset, count);
      if r.Success? {
        ReadAdvances(rest, offset, r.value, restBefore, stream.Rest(), bufBefore, buf[..]);
        ExtendedByOneCall(log, logBefore, count, bound);
      }
    }

    /** FillBuffer: reads numBytes into the front of the buffer, call after
        call, each call asking for what is still missing. */
    method FillBuffer(numBytes: nat) returns (r: Outcome)
      requires Valid()
      modifies stream, buffer
      ensures r == FillOutcome(old(stream.Remaining()), numBytes)
      ensures r.Pass? ==> stream.position == old(stream.position) + numBytes
      ensures r.Pass? ==> buffer[..numBytes] == old(stream.Rest())[..numBytes]
      ensures ExtendedByCalls(old(stream.readCounts), stream.readCounts, numBytes)
    {
      ghost var rest := stream.Rest();
      var offset := 0;
      while true
        invariant 0 <= offset <= numBytes && (offset == 0 || offset < numBytes)
        invariant offset > 0 ==> numBytes <= FixedBufferSize
        invariant offset <= |rest| && stream.position == old(stream.position) + offset
        invariant stream.Rest() == rest[offset..]
        invariant buffer[..offset] == rest[..offset]
        invariant ExtendedByCalls(old(stream.readCounts), stream.readCounts, numBytes)
        decreases numBytes - offset
      {
        var num := ReadInto(buffer, offset, numBytes - offset, rest, old(stream.readCounts), numBytes);
        if num.Failure? {
          return Fail(num.error);
        }
        if num.value == 0 {
          return Fail(EndOfStream);
        }
        offset := offset + num.value;
        if offset >= numBytes {
          return Pass;
        }
      }
    }

    /** The inherited BinaryReader.ReadInt16: two bytes, little-endian. */
    method BaseReadInt16() returns (r: Result<bv16>)
      requires Valid()
      modifies stream, buffer
      ensures ReadAs(r, stream.position - old(stream.position), ReadInt16Spec(old(stream.Rest()), false))
      ensures ExtendedByCalls(old(stream.readCounts), stream.readCounts, 2)
    {
      var o := FillBuffer(2);
      if o.Fail? {
        return Failure(o.error);
      }
      r := Success(FromLittleEndian16(buffer[..2]));
    }

    /** The inherited BinaryReader.ReadInt32 and ReadSingle: four bytes,
        little-endian. */
    method BaseReadWord32() returns (r: Result<bv32>)
      requires Valid()
      modifies stream, buffer
      ensures ReadAs(r, stream.position - old(stream.position), ReadInt32Spec(old(stream.Rest()), false, false))
      ensures ExtendedByCalls(old(stream.readCounts), stream.readCounts, 4)
    {
      var o := FillBuffer(4);
      if o.Fail? {
        return Failure(o.error);
      }
      r := Success(FromLittleEndian32(buffer[..4]));
    }

    /** The inherited BinaryReader.ReadInt64 and ReadDouble: eight bytes,
        little-endian. */
    method BaseReadWord64() returns (r: Result<bv64>)
      requires Valid()
      modifies stream, buffer
      ensures ReadAs(r, stream.position - old(stream.position), ReadInt64Spec(old(stream.Rest()), false))
      ensures ExtendedByCalls(old(stream.readCounts), stream.readCounts, 8)
    {
      var o := FillBuffer(8);
      if o.Fail? {
        return Failure(o.error);
      }
      r := Success(FromLittleEndian64(buffer[..8]));
    }

    method ReadInt16() returns (r: Result<bv16>)
      requires Valid()
      modifies stream, buffer
      ensures ReadAs(r, stream.position - old(stream.position), ReadInt16Spec(old(stream.Rest()), swapNeeded))
      ensures ExtendedByCalls(old(stream.readCounts), stream.readCounts, 2)
    {
      r := BaseReadInt16();
      if swapNeeded && r.Success? {
        r := Success(Swap16(r.value));
      }
    }

    method ReadInt32() returns (r: Result<bv32>)
      requires Valid()
      modifies stream, buffer
      ensures ReadAs(r, stream.position - old(stream.position), ReadInt32Spec(old(stream.Rest()), swapNeeded, useVarInt))
      ensures ExtendedByCalls(old(stream.readCounts), stream.readCounts, 4)
    {
      if useVarInt {
        r := ReadVarInt();
      } else {
        r := BaseReadWord32();
        if swapNeeded && r.Success? {
          r := Success(Swap32(r.value));
        }
      }
    }

    /** ReadVarInt: the ZigZag varint, whatever the byte order. */
    method ReadVarInt() returns (r: Result<bv32>)
      modifies stream
      ensures ReadAs(r, stream.position - old(stream.position), VarInt.ReadSInt32Spec(old(stream.Rest())))
      ensures stream.readCounts == old(stream.readCounts)
    {
      r := VarInt.ReadSInt32(stream);
    }

    method ReadInt64() returns (r: Result<bv64>)
      requires Valid()
      modifies stream, buffer
      ensures ReadAs(r, stream.position - old(stream.position), ReadInt64Spec(old(stream.Rest()), swapNeeded))
      ensures ExtendedByCalls(old(stream.readCounts), stream.readCounts, 8)
    {
      r := BaseReadWord64();
      if swapNeeded && r.Success? {
        r := Success(Swap64(r.value));
      }
    }

    /** Array.Reverse(buffer, 0, count), in place. */
    method ReverseBuffer(count: nat)
      requires count <= buffer.Length
      modifies buffer
      ensures buffer[..count] == Reverse(old(buffer[..count]))
      ensures buffer[count..] == old(buffer[count..])
    {
      var i := 0;
      while i < count / 2
        invariant 0 <= i <= count / 2
        invariant forall k :: 0 <= k < i ==> buffer[k] == old(buffer[count - 1 - k])
        invariant forall k :: count - i <= k < count ==> buffer[k] == old(buffer[count - 1 - k])
        invariant forall k :: i <= k < count - i ==> buffer[k] == old(buffer[k])
        invariant buffer[count..] == old(buffer[count..])
      {
        buffer[i], buffer[count - 1 - i] := buffer[count - 1 - i], buffer[i];
        i := i + 1;
      }
    }

    /** ReadSingle, returning the IEEE-754 bits of the float. */
    method ReadSingle() returns (r: Result<bv32>)
      requires Valid()
      modifies stream, buffer
      ensures ReadAs(r, stream.position - old(stream.position), ReadSingleSpec(old(stream.Rest()), swapNeeded, hostLittleEndian))
      ensures ExtendedByCalls(old(stream.readCounts), stream.readCounts, 4)
    {
      if swapNeeded {
        var o := FillBuffer(4);
        if o.Fail? {
          return Failure(o.error);
        }
        ReverseBuffer(4);
        r := Success(HostOrder32(buffer[..4], hostLittleEndian));
      } else {
        r := BaseReadWord32();
      }
    }

    /** ReadDouble, returning the IEEE-754 bits of the double. */
    method ReadDouble() returns (r: Result<bv64>)
      requires Valid()
      modifies stream, buffer
      ensures ReadAs(r, stream.position - old(stream.position), ReadDoubleSpec(old(stream.Rest()), swapNeeded, hostLittleEndian))
      ensures ExtendedByCalls(old(stream.readCounts), stream.readCounts, 8)
    {
      if swapNeeded {
        var o := FillBuffer(8);
        if o.Fail? {
          return Failure(o.error);
        }
        ReverseBuffer(buffer.Length);
        r := Success(HostOrder64(buffer[..8], hostLittleEndian));
      } else {
        r := BaseReadWord64();
      }
    }

    /** The length prefix shared by ReadString and SkipString. */
    method ReadLength() returns (r: Result<int>)
      requires Valid()
      modifies stream, buffer
      ensures ReadAs(r, stream.position - old(stream.position), ReadLengthSpec(old(stream.Rest()), swapNeeded, useVarInt))
      ensures ExtendedByCalls(old(stream.readCounts), stream.readCounts, 2)
    {
      if useVarInt {
        var b := ReadByte();
        if b.Failure? {
          return Failure(b.error);
        }
        r := Success(b.value as int);
      } else {
        var v := ReadInt16();
        if v.Failure? {
          return Failure(v.error);
        }
        r := Success(Signed16(v.value));
      }
    }

    /** One pass of the short-string loop, having read rest[..read] with
        avail bytes left: the call fails, ends the loop, or moves it on as
        FillAsWritten does. */
    method FillStep(length: nat, read: nat, ghost rest: seq<byte>, ghost avail: nat, ghost log: seq<int>)
        returns (got: Result<nat>)
      requires Valid() && read < length < StringBufferSize
      requires read <= |rest| && avail == |rest| - read && stream.Rest() == rest[read..]
      requires stringConversionBuffer[..read] == rest[..read]
      requires ExtendedByCalls(log, stream.readCounts, length)
      modifies stream, stringConversionBuffer
      ensures got.Failure? ==> FillAsWritten(avail, stream.maxRead, length, read) == Failure(got.error)
      ensures got.Success? && got.value == 0 ==> FillAsWritten(avail, stream.maxRead, length, read) == Failure(EndOfStream)
      ensures got.Success? && got.value > 0 ==>
        && read + got.value <= StringBufferSize && got.value <= avail
        && FillAsWritten(avail, stream.maxRead, length, read)
           == FillAsWritten(avail - got.value, stream.maxRead, length, read + got.value)
        && stream.position == old(stream.position) + got.value
        && stream.Rest() == rest[read + got.value..]
        && stringConversionBuffer[..read + got.value] == rest[..read + got.value]
      ensures ExtendedByCalls(log, stream.readCounts, length)
    {
      got := ReadInto(stringConversionBuffer, read, length, rest, log, length);
      FillAsWrittenEnds(avail, stream.maxRead, length, read);
      if got.Success? && got.value > 0 {
        FillAsWrittenStep(avail, stream.maxRead, length, read, got.value);
      }
    }

    /** The short-string loop of ReadString: reads a length-byte body into
        the conversion buffer, asking for length bytes at every call. */
    method FillStringBuffer(length: nat) returns (r: Result<nat>)
      requires Valid() && length < StringBufferSize
      modifies stream, stringConversionBuffer
      ensures r == FillAsWritten(old(stream.Remaining()), stream.maxRead, length, 0)
      ensures r.Success? ==> stream.position == old(stream.position) + r.value
      ensures r.Success? ==> stringConversionBuffer[..length] == old(stream.Rest())[..length]
      ensures ExtendedByCalls(old(stream.readCounts), stream.readCounts, length)
    {
      ghost var rest := stream.Rest();
      var read := 0;
      ghost var avail: nat := |rest|;
      ghost var outcome := FillAsWritten(avail, stream.maxRead, length, 0);
      while read < length
        invariant 0 <= read <= StringBufferSize && read <= |rest| && avail == |rest| - read
        invariant stream.position == old(stream.position) + read
        invariant stream.Rest() == rest[read..]
        invariant stringConversionBuffer[..read] == rest[..read]
        invariant outcome == FillAsWritten(avail, stream.maxRead, length, read)
        invariant ExtendedByCalls(old(stream.readCounts), stream.readCounts, length)
        decreases length - read
      {
        var got := FillStep(length, read, rest, avail, old(stream.readCounts));
        if got.Failure? {
          return Failure(got.error);
        }
        if got.value == 0 {
          return Failure(EndOfStream);
        }
        read := read + got.value;
        avail := avail - got.value;
      }
      FillAsWrittenEnds(avail, stream.maxRead, length, read);
      ShorterPrefix(stringConversionBuffer[..], rest, read, length);
      r := Success(read);
    }

    /** BinaryReader.ReadBytes(count): up to count bytes, fewer only when
        the stream ends first. */
    method ReadBytes(count: nat) returns (data: seq<byte>)
      modifies stream
      ensures data == old(stream.Rest())[..Min(count, old(stream.Remaining()))]
      ensures stream.position == old(stream.position) + |data|
      ensures ExtendedByCalls(old(stream.readCounts), stream.readCounts, count)
    {
      ghost var rest := stream.Rest();
      var result := new byte[count];
      var numRead := 0;
      var left := count;
      while left > 0
        invariant 0 <= numRead <= |rest| && numRead + left == count && 0 <= left
        invariant stream.position == old(stream.position) + numRead
        invariant stream.Rest() == rest[numRead..]
        invariant result[..numRead] == rest[..numRead]
        invariant ExtendedByCalls(old(stream.readCounts), stream.readCounts, count)
      {
        var got := ReadInto(result, numRead, left, rest, old(stream.readCounts), count);
        if got.value == 0 {
          assert numRead == |rest|;
          break;
        }
        numRead := numRead + got.value;
        left := left - got.value;
      }
      assert numRead == Min(count, |rest|);
      data := result[..numRead];
    }

    /** The body of ReadString: bodies shorter than the conversion buffer
        are read into it, longer ones into an array of their own. */
    method ReadBody(length: nat) returns (r: Result<string>)
      requires Valid()
      modifies stream, stringConversionBuffer
      ensures ReadAs(r, stream.position - old(stream.position), ReadBodySpec(old(stream.Rest()), length, stream.maxRead))
    {
      if length < stringConversionBuffer.Length {
        var total := FillStringBuffer(length);
        if total.Failure? {
          return Failure(total.error);
        }
        r := Success(Utf8.Decode(stringConversionBuffer[0..length]));
      } else {
        var data := ReadBytes(length);
        if |data| < length {
          return Failure(EndOfStream);
        }
        r := Success(Utf8.Decode(data));
      }
    }

    /** ReadString: the length prefix, then the body decoded as UTF-8. */
    method ReadString() returns (r: Result<string>)
      requires Valid()
      modifies stream, buffer, stringConversionBuffer
      ensures ReadAs(r, stream.position - old(stream.position), ReadStringSpec(old(stream.Rest()), swapNeeded, useVarInt, stream.maxRead))
    {
      ghost var rest := stream.Rest();
      var length := ReadLength();
      if length.Failure? {
        return Failure(length.error);
      }
      if length.value < 0 {
        return Failure(NbtFormat);
      }
      assert stream.Rest() == rest[stream.position - old(stream.position)..];
      r := ReadBody(length.value);
    }

    /** Skip: moves the position of a seekable stream; otherwise reads and
        discards, at most SeekBufferSize bytes per call and never past the
        count, allocating the discard buffer on first use. */
    method Skip(bytesToSkip: int) returns (r: Outcome)
      requires Valid()
      modifies this, stream, seekBuffer
      ensures Valid() && useVarInt == old(useVarInt)
      ensures r == SkipOutcome(bytesToSkip, stream.canSeek, old(stream.Remaining()))
      ensures r.Pass? ==> stream.position == old(stream.position) + bytesToSkip
      ensures r == Fail(EndOfStream) ==> stream.Rest() == []
      ensures ExtendedByCalls(old(stream.readCounts), stream.readCounts, SeekBufferSize)
    {
      if bytesToSkip < 0 {
        return Fail(ArgumentOutOfRange);
      }
      if stream.canSeek {
        stream.Seek(bytesToSkip);
        return Pass;
      }
      if bytesToSkip != 0 {
        if seekBuffer == null {
          seekBuffer := new byte[SeekBufferSize];
        }
        var discard := seekBuffer;
        ghost var avail := stream.Remaining();
        var skipped := 0;
        while skipped < bytesToSkip
          modifies stream, discard
          invariant 0 <= skipped <= bytesToSkip && skipped <= avail
          invariant stream.position == old(stream.position) + skipped
          invariant stream.Remaining() == avail - skipped
          invariant ExtendedByCalls(old(stream.readCounts), stream.readCounts, SeekBufferSize)
        {
          ghost var log := stream.readCounts;
          var bytesToRead := Min(SeekBufferSize, bytesToSkip - skipped);
          var got := stream.Read(discard, 0, bytesToRead);
          ExtendedByOneCall(old(stream.readCounts), log, bytesToRead, SeekBufferSize);
          if got.value == 0 {
            return Fail(EndOfStream);
          }
          skipped := skipped + got.value;
        }
      }
      r := Pass;
    }

    /** SkipString: the prefix, then Skip over the body. */
    method SkipString() returns (r: Outcome)
      requires Valid()
      modifies this, stream, buffer, seekBuffer
      ensures Valid()
      ensures r == (var s := SkipStringSpec(old(stream.Rest()), swapNeeded, old(useVarInt), stream.canSeek);
                    if s.Success? then Pass else Fail(s.error))
      ensures r.Pass? ==>
        stream.position == old(stream.position) + SkipStringSpec(old(stream.Rest()), swapNeeded, old(useVarInt), stream.canSeek).value
    {
      ghost var rest := stream.Rest();
      var length := ReadLength();
      if length.Failure? {
        return Fail(length.error);
      }
      if length.value < 0 {
        return Fail(NbtFormat);
      }
      assert stream.Rest() == rest[stream.position - old(stream.position)..];
      r := Skip(length.value);
    }
  }
}
