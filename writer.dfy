/// NbtBinaryWriter (src/CoreFNBT/NbtBinaryWriter.cs): writes NBT primitives
/// to a stream, in the byte order chosen once per instance, through a
/// 256-byte conversion buffer.
module NbtWriter {
  import opened Bytes
  import opened Streams
  import VarInt
  import Utf8

  /** The largest count one Stream.Write call of Write(byte[], int, int) gets. */
  const MaxWriteChunk: int := 512 * 1024 * 1024

  /** Size of the conversion buffer. */
  const BufferSize: int := 256

  /** Characters encoded per round of the chunked string path: a character
      takes at most four bytes. */
  const MaxBufferedStringLength: int := BufferSize / 4

  /** Longest string, in UTF-8 bytes, that Write(string) accepts. */
  const MaxStringLength: int := 32767

  // ---------------------------------------------------------------------
  // The static swap helpers.

  /** SwapInt16: exchanges the two bytes of a short. */
  function SwapInt16(v: bv16): bv16
  {
    ((v & 0xFF) << 8) | ((v >> 8) & 0xFF)
  }

  /** SwapInt32: swaps each half, then exchanges the halves. The C# casts to
      short keep the low sixteen bits; the masks with 0xffff undo the sign
      extension back to int. */
  function SwapInt32(v: bv32): bv32
  {
    ((SwapInt16((v & 0xFFFF) as bv16) as bv32) << 16) | (SwapInt16((v >> 16) as bv16) as bv32)
  }

  lemma SwapInt16Reverses(v: bv16)
    ensures LittleEndian16(SwapInt16(v)) == Reverse(LittleEndian16(v))
  {
  }

  lemma SwapInt16Involution(v: bv16)
    ensures SwapInt16(SwapInt16(v)) == v
  {
  }

  lemma SwapInt32Reverses(v: bv32)
    ensures LittleEndian32(SwapInt32(v)) == Reverse(LittleEndian32(v))
  {
  }

  lemma SwapInt32Involution(v: bv32)
    ensures SwapInt32(SwapInt32(v)) == v
  {
  }

  // ---------------------------------------------------------------------
  // What each write appends.

  /** Write(int): the ZigZag varint in VarInt mode, four bytes otherwise. */
  function Int32Image(value: bv32, swap: bool, useVarInt: bool): seq<byte>
  {
    if useVarInt then VarInt.RawVarInt32(VarInt.EncodeZigZag32(value)) else WireOrder32(value, swap)
  }

  /** The length prefix of a string of n UTF-8 bytes: the (byte) cast of n
      in VarInt mode, the (ushort) cast of n otherwise. */
  function StringPrefix(n: nat, swap: bool, useVarInt: bool): seq<byte>
  {
    if useVarInt then [LowByte(n)] else WireOrder16(LowUShort(n), swap)
  }

  /** What Write(string) appends, or the exception it throws. */
  function StringImage(s: string, swap: bool, useVarInt: bool): Result<seq<byte>>
  {
    var n := Utf8.ByteCount(s);
    if n > MaxStringLength then Failure(NbtFormat)
    else Success(StringPrefix(n, swap, useVarInt) + Utf8.Encode(s))
  }

  /** Bytes of data[offset..] that Write(byte[], offset, count) gets out in
      whole chunks before the chunk that runs past the end of the array. */
  function WholeChunks(length: int, offset: int): (r: nat)
    ensures 0 <= offset <= length ==> r <= length - offset
  {
    if 0 <= offset <= length then (length - offset) / MaxWriteChunk * MaxWriteChunk else 0
  }

  /** What Write(byte[], offset, count) gets out before it throws
      ArgumentException: the whole chunks of data[offset..] before the
      chunk that runs past the end of the array. */
  function WrittenBeforeFailure(data: seq<byte>, offset: int): seq<byte>
  {
    if 0 <= offset <= |data| then data[offset..offset + WholeChunks(|data|, offset)] else []
  }

  /** What Write(byte[], offset, count) returns: the first Stream.Write
      call checks a null array before the range. */
  function WriteBytesOutcome(isNull: bool, length: int, offset: int, count: int): Outcome
  {
    if count <= 0 then Pass
    else if isNull then Fail(ArgumentNull)
    else if offset < 0 then Fail(ArgumentOutOfRange)
    else if length - offset < count then Fail(InvalidArgument)
    else Pass
  }

  class NbtBinaryWriter {
    const stream: OutputStream
    const swapNeeded: bool
    const buffer: array<byte>
    var useVarInt: bool

    ghost predicate Valid()
    {
      stream.canWrite && buffer.Length == BufferSize
    }

    /** The constructor, for a stream already known to be writable. */
    constructor (input: OutputStream, bigEndian: bool, hostLittleEndian: bool)
      requires input.canWrite
      ensures Valid() && fresh(buffer)
      ensures stream == input && swapNeeded == SwapNeeded(hostLittleEndian, bigEndian) && !useVarInt
    {
      stream := input;
      swapNeeded := SwapNeeded(hostLittleEndian, bigEndian);
      buffer := new byte[BufferSize];
      useVarInt := false;
    }

    /** new NbtBinaryWriter(input, bigEndian): throws ArgumentNullException
        for a null stream, ArgumentException for a read-only one. */
    static method Create(input: OutputStream?, bigEndian: bool, hostLittleEndian: bool)
      returns (r: Result<NbtBinaryWriter>)
      ensures input == null ==> r == Failure(ArgumentNull)
      ensures input != null && !input.canWrite ==> r == Failure(InvalidArgument)
      ensures input != null && input.canWrite ==>
        && r.Success? && fresh(r.value) && r.value.Valid()
        && r.value.stream == input && r.value.swapNeeded == SwapNeeded(hostLittleEndian, bigEndian)
    {
      if input == null {
        return Failure(ArgumentNull);
      }
      if !input.canWrite {
        return Failure(InvalidArgument);
      }
      var w := new NbtBinaryWriter(input, bigEndian, hostLittleEndian);
      r := Success(w);
    }

    /** Write(byte). */
    method WriteByte(value: byte)
      requires Valid()
      modifies stream
      ensures stream.written == old(stream.written) + [value]
      ensures stream.writeCounts == old(stream.writeCounts)
    {
      stream.WriteByte(value);
    }

    /** Write(NbtTagType): the tag type's byte. */
    method WriteTagType(value: byte)
      requires Valid()
      modifies stream
      ensures stream.written == old(stream.written) + [value]
      ensures stream.writeCounts == old(stream.writeCounts)
    {
      stream.WriteByte(value);
    }

    /** Write(short) and Write(ushort), whose bodies are the same. */
    method WriteInt16(value: bv16)
      requires Valid()
      modifies stream, buffer
      ensures stream.written == old(stream.written) + WireOrder16(value, swapNeeded)
      ensures stream.writeCounts == old(stream.writeCounts) + [2]
    {
      if swapNeeded {
        buffer[0] := (value >> 8) as byte;
        buffer[1] := (value & 0xFF) as byte;
      } else {
        buffer[0] := (value & 0xFF) as byte;
        buffer[1] := (value >> 8) as byte;
      }
      assert buffer[0..2] == WireOrder16(value, swapNeeded);
      var _ := stream.Write(buffer, 0, 2);
    }

    /** The four-byte branch of Write(int), and Write(float) on the bits of
        the float. */
    method WriteWord32(value: bv32)
      requires Valid()
      modifies stream, buffer
      ensures stream.written == old(stream.written) + WireOrder32(value, swapNeeded)
      ensures stream.writeCounts == old(stream.writeCounts) + [4]
    {
      if swapNeeded {
        buffer[0] := (value >> 24) as byte;
        buffer[1] := ((value >> 16) & 0xFF) as byte;
        buffer[2] := ((value >> 8) & 0xFF) as byte;
        buffer[3] := (value & 0xFF) as byte;
      } else {
        buffer[0] := (value & 0xFF) as byte;
        buffer[1] := ((value >> 8) & 0xFF) as byte;
        buffer[2] := ((value >> 16) & 0xFF) as byte;
        buffer[3] := (value >> 24) as byte;
      }
      assert buffer[0..4] == WireOrder32(value, swapNeeded);
      var _ := stream.Write(buffer, 0, 4);
    }

    /** Write(long), and Write(double) on the bits of the double. */
    method WriteWord64(value: bv64)
      requires Valid()
      modifies stream, buffer
      ensures stream.written == old(stream.written) + WireOrder64(value, swapNeeded)
      ensures stream.writeCounts == old(stream.writeCounts) + [8]
    {
      if swapNeeded {
        buffer[0] := (value >> 56) as byte;
        buffer[1] := ((value >> 48) & 0xFF) as byte;
        buffer[2] := ((value >> 40) & 0xFF) as byte;
        buffer[3] := ((value >> 32) & 0xFF) as byte;
        buffer[4] := ((value >> 24) & 0xFF) as byte;
        buffer[5] := ((value >> 16) & 0xFF) as byte;
        buffer[6] := ((value >> 8) & 0xFF) as byte;
        buffer[7] := (value & 0xFF) as byte;
      } else {
        buffer[0] := (value & 0xFF) as byte;
        buffer[1] := ((value >> 8) & 0xFF) as byte;
        buffer[2] := ((value >> 16) & 0xFF) as byte;
        buffer[3] := ((value >> 24) & 0xFF) as byte;
        buffer[4] := ((value >> 32) & 0xFF) as byte;
        buffer[5] := ((value >> 40) & 0xFF) as byte;
        buffer[6] := ((value >> 48) & 0xFF) as byte;
        buffer[7] := (value >> 56) as byte;
      }
      assert buffer[0..8] == WireOrder64(value, swapNeeded);
      var _ := stream.Write(buffer, 0, 8);
    }

    /** Write(int). */
    method WriteInt32(value: bv32)
      requires Valid()
      modifies stream, buffer
      ensures stream.written == old(stream.written) + Int32Image(value, swapNeeded, useVarInt)
      ensures stream.writeCounts == old(stream.writeCounts) + (if useVarInt then [] else [4])
    {
      if useVarInt {
        WriteVarInt(value);
      } else {
        WriteWord32(value);
      }
    }

    /** WriteVarInt: the ZigZag varint, whatever the byte order. */
    method WriteVarInt(value: bv32)
      requires Valid()
      modifies stream
      ensures stream.written == old(stream.written) + VarInt.RawVarInt32(VarInt.EncodeZigZag32(value))
      ensures stream.writeCounts == old(stream.writeCounts)
    {
      VarInt.WriteSInt32(stream, value);
    }

    /** Write(long). */
    method WriteInt64(value: bv64)
      requires Valid()
      modifies stream, buffer
      ensures stream.written == old(stream.written) + WireOrder64(value, swapNeeded)
      ensures stream.writeCounts == old(stream.writeCounts) + [8]
    {
      WriteWord64(value);
    }

    /** Write(float), given the IEEE-754 bits of the float. */
    method WriteSingle(bits: bv32)
      requires Valid()
      modifies stream, buffer
      ensures stream.written == old(stream.written) + WireOrder32(bits, swapNeeded)
      ensures stream.writeCounts == old(stream.writeCounts) + [4]
    {
      WriteWord32(bits);
    }

    /** Write(double), given the IEEE-754 bits of the double. */
    method WriteDouble(bits: bv64)
      requires Valid()
      modifies stream, buffer
      ensures stream.written == old(stream.written) + WireOrder64(bits, swapNeeded)
      ensures stream.writeCounts == old(stream.writeCounts) + [8]
    {
      WriteWord64(bits);
    }

    /** Copies bytes into the buffer at position at. */
    method Put(bytes: seq<byte>, at: nat)
      requires Valid() && at + |bytes| <= BufferSize
      modifies buffer
      ensures buffer[..at] == old(buffer[..at]) && buffer[at..at + |bytes|] == bytes
    {
      var k := 0;
      while k < |bytes|
        invariant 0 <= k <= |bytes|
        invariant buffer[..at] == old(buffer[..at]) && buffer[at..at + k] == bytes[..k]
      {
        buffer[at + k] := bytes[k];
        k := k + 1;
      }
    }

    /** One pass of the encoding loop: the bytes of chars[i] stored behind
        the encoding of chars[..i]. */
    method PutChar(chars: string, i: nat, n: nat) returns (next: nat)
      requires Valid() && Utf8.ByteCount(chars) <= BufferSize && i < |chars|
      requires n == |Utf8.Encode(chars[..i])| <= BufferSize && buffer[..n] == Utf8.Encode(chars[..i])
      modifies buffer
      ensures next == |Utf8.Encode(chars[..i + 1])| <= |Utf8.Encode(chars)|
      ensures buffer[..next] == Utf8.Encode(chars[..i + 1])
    {
      var e := Utf8.EncodeChar(chars[i]);
      Utf8.EncodePrefix(chars, i + 1);
      Utf8.EncodeSnoc(chars, i);
      ghost var before := buffer[..];
      Put(e, n);
      EncodingGrows(chars, i, n, before, buffer[..]);
      next := n + |e|;
    }

    /** Encoding.GetBytes / Encoder.GetBytes into the front of the buffer:
        the UTF-8 bytes of chars, and how many there are. */
    method GetBytes(chars: string) returns (n: nat)
      requires Valid() && Utf8.ByteCount(chars) <= BufferSize
      modifies buffer
      ensures n == |Utf8.Encode(chars)| && buffer[0..n] == Utf8.Encode(chars)
    {
      n := 0;
      var i := 0;
      while i < |chars|
        invariant 0 <= i <= |chars|
        invariant n == |Utf8.Encode(chars[..i])| <= |Utf8.Encode(chars)|
        invariant buffer[..n] == Utf8.Encode(chars[..i])
      {
        n := PutChar(chars, i, n);
        i := i + 1;
      }
      assert chars[..i] == chars;
      assert buffer[0..n] == buffer[..n];
    }

    /** Encodes chars into the front of the buffer and writes them out in
        one call. */
    method WriteEncoded(chars: string)
      requires Valid() && Utf8.ByteCount(chars) <= BufferSize
      modifies stream, buffer
      ensures stream.written == old(stream.written) + Utf8.Encode(chars)
      ensures stream.writeCounts == old(stream.writeCounts) + [Utf8.ByteCount(chars)]
    {
      var n := GetBytes(chars);
      var _ := stream.Write(buffer, 0, n);
    }

    /** Write(string): throws NbtFormatException, writing nothing, when the
        string takes more than 32767 UTF-8 bytes; otherwise writes the
        length prefix and the bytes, at once when they fit in the buffer,
        otherwise 64 characters at a time. */
    method WriteString(value: string) returns (r: Outcome)
      requires Valid()
      modifies stream, buffer
      ensures r == (if StringImage(value, swapNeeded, useVarInt).Success? then Pass else Fail(NbtFormat))
      ensures r.Pass? ==> stream.written == old(stream.written) + StringImage(value, swapNeeded, useVarInt).value
      ensures r.Fail? ==> stream.written == old(stream.written) && stream.writeCounts == old(stream.writeCounts)
      ensures ExtendedByCalls(old(stream.writeCounts), stream.writeCounts, BufferSize)
    {
      var numBytes := Utf8.ByteCount(value);
      if numBytes > MaxStringLength {
        return Fail(NbtFormat);
      }
      if useVarInt {
        WriteByte(LowByte(numBytes));
      } else {
        WriteInt16(LowUShort(numBytes));
      }
      ghost var front := stream.written;
      ghost var log := stream.writeCounts;
      assert ExtendedByCalls(old(stream.writeCounts), log, BufferSize);
      if numBytes <= BufferSize {
        WriteEncoded(value);
        ExtendedByOneCall(log, log, numBytes, BufferSize);
      } else {
        WriteChunks(value);
      }
      ExtendedByCallsTransitive(old(stream.writeCounts), log, stream.writeCounts, BufferSize);
      AppendAssociative(old(stream.written), StringPrefix(numBytes, swapNeeded, useVarInt), Utf8.Encode(value));
      r := Pass;
    }

    /** The chunked branch of Write(string): 64 characters per round, each
        round encoded into the buffer and written out. */
    method WriteChunks(value: string)
      requires Valid()
      modifies stream, buffer
      ensures stream.written == old(stream.written) + Utf8.Encode(value)
      ensures ExtendedByCalls(old(stream.writeCounts), stream.writeCounts, BufferSize)
    {
      ghost var written0, counts0 := stream.written, stream.writeCounts;
      var charStart := 0;
      var numLeft := |value|;
      while numLeft > 0
        invariant 0 <= charStart <= |value| && numLeft == |value| - charStart
        invariant stream.written == written0 + Utf8.Encode(value[..charStart])
        invariant ExtendedByCalls(counts0, stream.writeCounts, BufferSize)
      {
        var charCount := if numLeft > MaxBufferedStringLength then MaxBufferedStringLength else numLeft;
        WriteChunk(value, charStart, charCount, written0, counts0);
        charStart := charStart + charCount;
        numLeft := numLeft - charCount;
      }
      assert value[..charStart] == value;
    }

    /** One pass of the chunk loop: value[start..start + count] encoded and
        written in one call behind the encoding of value[..start]. */
    method WriteChunk(value: string, start: nat, count: nat, ghost written0: seq<byte>, ghost counts0: seq<int>)
      requires Valid() && start + count <= |value| && count <= MaxBufferedStringLength
      requires stream.written == written0 + Utf8.Encode(value[..start])
      requires ExtendedByCalls(counts0, stream.writeCounts, BufferSize)
      modifies stream, buffer
      ensures stream.written == written0 + Utf8.Encode(value[..start + count])
      ensures ExtendedByCalls(counts0, stream.writeCounts, BufferSize)
    {
      var chunk := value[start..start + count];
      ghost var log, before := stream.writeCounts, stream.written;
      WriteEncoded(chunk);
      ExtendedByOneCall(counts0, log, Utf8.ByteCount(chunk), BufferSize);
      ChunkAdvances(written0, value, start, count, before, stream.written);
    }

    /** Write(byte[], offset, count): data[offset..offset + count] in calls
        of at most MaxWriteChunk bytes; nothing when count <= 0. The range is
        checked by each Stream.Write call, so a range past the end of the
        array fails only after the whole chunks before it are out. A null
        array fails the first call, with ArgumentNullException. */
    method WriteBytes(data: array?<byte>, offset: int, count: int) returns (r: Outcome)
      requires Valid()
      modifies stream
      ensures r == WriteBytesOutcome(data == null, if data == null then 0 else data.Length, offset, count)
      ensures r.Pass? && count > 0 ==> data != null && stream.written == old(stream.written) + data[offset..offset + count]
      ensures count <= 0 || offset < 0 || data == null ==> stream.written == old(stream.written)
      ensures r == Fail(InvalidArgument) ==>
        data != null && stream.written == old(stream.written) + WrittenBeforeFailure(data[..], offset)
      ensures ExtendedByCalls(old(stream.writeCounts), stream.writeCounts, MaxWriteChunk)
    {
      var written := 0;
      ghost var chunks: nat := 0;
      while written < count
        invariant 0 <= written && (count > 0 ==> written <= count) && (count <= 0 ==> written == 0)
        invariant written < count ==> written == chunks * MaxWriteChunk
        invariant written > 0 ==> data != null && 0 <= offset && offset + written <= data.Length
        invariant stream.written == old(stream.written) + (if written > 0 then data[offset..offset + written] else [])
        invariant ExtendedByCalls(old(stream.writeCounts), stream.writeCounts, MaxWriteChunk)
      {
        var toWrite := Min(MaxWriteChunk, count - written);
        if data == null {
          return Fail(ArgumentNull);
        }
        var o := stream.Write(data, offset + written, toWrite);
        if o.Fail? {
          if o == Fail(InvalidArgument) {
            ChunksBefore(data.Length - offset, chunks);
            if written > 0 {
              assert data[..][offset..offset + written] == data[offset..offset + written];
            }
          }
          return o;
        }
        written := written + toWrite;
        chunks := chunks + 1;
      }
      if count <= 0 {
        assert stream.written == old(stream.written);
      }
      r := Pass;
    }
  }

  /** The encoding of one more chunk of value behind the encoding of the
      characters before it is the encoding of both. */
  lemma ChunkAdvances(base: seq<byte>, value: string, start: nat, count: nat,
                      before: seq<byte>, after: seq<byte>)
    requires start + count <= |value|
    requires before == base + Utf8.Encode(value[..start])
    requires after == before + Utf8.Encode(value[start..start + count])
    ensures after == base + Utf8.Encode(value[..start + count])
  {
    Utf8.EncodeSlices(value, start, start + count);
    AppendAssociative(base, Utf8.Encode(value[..start]), Utf8.Encode(value[start..start + count]));
  }

  /** One more character encoded behind the encoding of chars[..i]. */
  lemma EncodingGrows(chars: string, i: nat, n: nat, before: seq<byte>, after: seq<byte>)
    requires i < |chars| && n + |Utf8.EncodeChar(chars[i])| <= |after| == |before|
    requires before[..n] == Utf8.Encode(chars[..i])
    requires after[..n] == before[..n] && after[n..n + |Utf8.EncodeChar(chars[i])|] == Utf8.EncodeChar(chars[i])
    ensures after[..n + |Utf8.EncodeChar(chars[i])|] == Utf8.Encode(chars[..i + 1])
  {
    Utf8.EncodeSnoc(chars, i);
    assert after[..n + |Utf8.EncodeChar(chars[i])|] == after[..n] + after[n..n + |Utf8.EncodeChar(chars[i])|];
  }

  /** The whole chunks before the one that runs past the end of the array. */
  lemma ChunksBefore(room: int, chunks: nat)
    requires room < chunks * MaxWriteChunk + MaxWriteChunk
    requires chunks == 0 || chunks * MaxWriteChunk <= room
    ensures chunks * MaxWriteChunk == (if room >= 0 then room / MaxWriteChunk * MaxWriteChunk else 0)
  {
  }
}
