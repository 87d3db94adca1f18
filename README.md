# fNbt-Core byte codec, modelled in Dafny

This project models the byte-level codec of fNbt-Core: the writer and reader pair that turn NBT primitives into bytes on a stream and back. The values are bytes, tag types, 16/32/64-bit integers, the IEEE-754 bits of floats and doubles, and length-prefixed UTF-8 strings. The model covers both wire variants:

- the fixed-width variant, in either byte order;
- the compact variant, where 32-bit integers are ZigZag varints and string lengths are one byte.

It also models the VarInt sub-codec (ZigZag and base-128 groups, 32 and 64 bit) and the skip logic.

Modules, one per concern:

- `Bytes`: byte images of the fixed-width values, in both orders, and their inverses. Also the C# `(byte)` and `(ushort)` casts of a length.
- `Streams`: the two streams the codec wraps. `InputStream` holds the unread bytes, a seekable flag and a per-call size `maxRead`: every `Read` call hands over the least of the count asked for, the bytes left and `maxRead`. `OutputStream` holds the bytes written so far. Both keep a ghost log of the counts the codec asked each `Read`/`Write` call for.
- `VarInt`: the internal static class `VarInt` at the bottom of `NbtBinaryReader.cs`.
- `Utf8`: UTF-8 as in section 3 of RFC 3629. It covers `GetByteCount`, `GetBytes` and `GetString`, with U+FFFD substitution on decoding.
- `NbtWriter`: the class `NbtBinaryWriter`. It is imperative, with its 256-byte buffer as an `array`, and what each write appends is given as a function.
- `NbtReader`: the class `NbtBinaryReader`. Each read method is proved against a function of the unread bytes that returns the value and the number of bytes consumed, or the exception.
- `Codec`: round trips between writer and reader, and the agreement between `SkipString` and `ReadString`.
- `Findings`: four departures of the code from its evident intent, with corrected definitions.

Modelling choices:

- C# `short`, `int` and `long` are the bit-vectors `bv16`, `bv32` and `bv64`. The `unchecked` wrap-around of the source is therefore exact.
- Exceptions are the `Failure` arm of a `Result`, or `Fail` of an `Outcome`.
- The host byte order (`BitConverter.IsLittleEndian`) is a constructor parameter.

Two limits of the code are modelled as written:

- `ReadRawVarInt32` throws `OverflowException("VarInt too big")` (NbtBinaryReader.cs:241-244) only when a sixth group would start. It does not look at the fifth group's bits above bit 31, which the shift drops. `VarInt.FifthGroupTruncated` shows two different inputs that decode to the same value.
- `Write(string)` refuses only strings of more than 32767 UTF-8 bytes (NbtBinaryWriter.cs:211-214), in both modes. In VarInt mode the length then goes through a one-byte cast (NbtBinaryWriter.cs:217-218), so only lengths 0–255 survive (finding 1).

## Model

| member | source | states |
|---|---|---|
| VarInt.ZigZag32RoundTrip | src/CoreFNBT/NbtBinaryReader.cs:207-216 | DecodeZigZag32 undoes EncodeZigZag32 on every int |
| VarInt.ZigZag32Onto | src/CoreFNBT/NbtBinaryReader.cs:207-216 | EncodeZigZag32 undoes DecodeZigZag32 on every uint, so the map is a bijection |
| VarInt.ZigZag64RoundTrip | src/CoreFNBT/NbtBinaryReader.cs:218-226 | DecodeZigZag64 undoes EncodeZigZag64 on every long |
| VarInt.ZigZag64Onto | src/CoreFNBT/NbtBinaryReader.cs:218-226 | EncodeZigZag64 undoes DecodeZigZag64 on every ulong |
| VarInt.ZigZag32Small | src/CoreFNBT/NbtBinaryReader.cs:207-211 | the ZigZag code of an int is below 128 exactly when the int is in -64..63 |
| VarInt.ZigZag64Small | src/CoreFNBT/NbtBinaryReader.cs:218-221 | the ZigZag code of a long is below 128 exactly when the long is in -64..63 |
| VarInt.RawVarInt32Length | src/CoreFNBT/NbtBinaryReader.cs:272-281 | WriteRawVarInt32 emits one byte per started 7-bit group, at most 5, one exactly when the value is below 128 |
| VarInt.RawVarInt64Length | src/CoreFNBT/NbtBinaryReader.cs:283-292 | WriteRawVarInt64 emits one byte per started 7-bit group, at most 10, one exactly when the value is below 128 |
| VarInt.VarInt32RoundTrip | src/CoreFNBT/NbtBinaryReader.cs:228-248 | reading back the encoding of v with any maxSize of at least its group count yields v and consumes exactly the encoding, whatever follows |
| VarInt.VarInt64RoundTrip | src/CoreFNBT/NbtBinaryReader.cs:250-270 | the same for the 64-bit loop |
| VarInt.ReadRawVarInt32Failures | src/CoreFNBT/NbtBinaryReader.cs:234-245 | EndOfStream exactly when the stream ends inside a run of continuation bytes of at most maxSize; Overflow exactly when the first maxSize bytes all continue and more bytes follow |
| VarInt.ReadRawVarInt64Failures | src/CoreFNBT/NbtBinaryReader.cs:256-267 | the same failure conditions for the 64-bit loop |
| VarInt.FifthGroupTruncated | src/CoreFNBT/NbtBinaryReader.cs:239-244 | two different five-byte inputs decode to 0xFFFFFFFF: the bits of the fifth group above bit 31 are dropped, not reported |
| VarInt.WriteRawVarInt32 | src/CoreFNBT/NbtBinaryReader.cs:272-281 | the loop appends exactly the base-128 encoding of the value, byte by byte |
| VarInt.WriteRawVarInt64 | src/CoreFNBT/NbtBinaryReader.cs:283-292 | the loop appends exactly the 64-bit encoding |
| VarInt.ReadRawVarInt32 | src/CoreFNBT/NbtBinaryReader.cs:228-248 | the loop returns the value or the exception of the group decoding of the unread bytes, and consumes as many bytes as it says |
| VarInt.ReadRawVarInt64 | src/CoreFNBT/NbtBinaryReader.cs:250-270 | the same for the 64-bit loop |
| VarInt.WriteInt32 | src/CoreFNBT/NbtBinaryReader.cs:296-299 | appends the raw encoding of the int's bits |
| VarInt.ReadInt32 | src/CoreFNBT/NbtBinaryReader.cs:301-304 | reads a raw varint of at most 5 groups |
| VarInt.WriteSInt32 | src/CoreFNBT/NbtBinaryReader.cs:306-309 | appends the raw encoding of the ZigZag code |
| VarInt.ReadSInt32 | src/CoreFNBT/NbtBinaryReader.cs:311-314 | reads at most 5 groups and ZigZag-decodes them |
| VarInt.Int32RoundTrip | src/CoreFNBT/NbtBinaryReader.cs:296-304 | ReadInt32 returns every int WriteInt32 wrote and consumes exactly its bytes |
| VarInt.SInt32RoundTrip | src/CoreFNBT/NbtBinaryReader.cs:306-314 | ReadSInt32 returns every int WriteSInt32 wrote, int.MinValue and int.MaxValue included, and consumes exactly its bytes |
| VarInt.SInt32Length | src/CoreFNBT/NbtBinaryReader.cs:306-309 | the SInt32 image takes 1 to 5 bytes, one exactly for -64..63 |
| VarInt.NegativeInt32Length | src/CoreFNBT/NbtBinaryReader.cs:296-299 | WriteInt32 of a negative int always takes the full 5 bytes |
| VarInt.WriteInt64 | src/CoreFNBT/NbtBinaryReader.cs:328-331 | appends the raw encoding of the long's bits |
| VarInt.ReadInt64 | src/CoreFNBT/NbtBinaryReader.cs:333-336 | reads a raw varint of at most 10 groups |
| VarInt.WriteSInt64 | src/CoreFNBT/NbtBinaryReader.cs:338-341 | appends the raw encoding of the 64-bit ZigZag code |
| VarInt.ReadSInt64 | src/CoreFNBT/NbtBinaryReader.cs:343-346 | reads at most 10 groups and ZigZag-decodes them |
| VarInt.Int64RoundTrip | src/CoreFNBT/NbtBinaryReader.cs:328-336 | ReadInt64 returns every long WriteInt64 wrote and consumes exactly its bytes |
| VarInt.SInt64RoundTrip | src/CoreFNBT/NbtBinaryReader.cs:338-346 | ReadSInt64 returns every long WriteSInt64 wrote and consumes exactly its bytes |
| VarInt.SInt64Length | src/CoreFNBT/NbtBinaryReader.cs:338-341 | the SInt64 image takes 1 to 10 bytes, one exactly for -64..63 |
| VarInt.NegativeInt64Length | src/CoreFNBT/NbtBinaryReader.cs:328-331 | WriteInt64 of a negative long always takes the full 10 bytes |
| Utf8.ByteCount | src/CoreFNBT/NbtBinaryWriter.cs:216 | GetByteCount of a string lies between its length and four times its length |
| Utf8.Encode | src/CoreFNBT/NbtBinaryWriter.cs:226 | GetBytes produces exactly GetByteCount bytes |
| Utf8.EncodeAppend | src/CoreFNBT/NbtBinaryWriter.cs:228-250 | encoding a string piece by piece gives the bytes of encoding it whole |
| Utf8.DecodeEncode | src/CoreFNBT/NbtBinaryReader.cs:112 | GetString of the UTF-8 bytes of a string gives the string back |
| Bytes.LowByteValue | src/CoreFNBT/NbtBinaryWriter.cs:218 | the (byte) cast of a length is the length modulo 256 |
| Bytes.LowUShortValue | src/CoreFNBT/NbtBinaryWriter.cs:221 | the (ushort) cast keeps every length below 65536 |
| NbtWriter.SwapInt16Reverses | src/CoreFNBT/NbtBinaryWriter.cs:121-124 | SwapInt16 reverses the two bytes of a short |
| NbtWriter.SwapInt16Involution | src/CoreFNBT/NbtBinaryWriter.cs:121-124 | SwapInt16 applied twice is the identity |
| NbtWriter.SwapInt32Reverses | src/CoreFNBT/NbtBinaryWriter.cs:126-130 | SwapInt32 reverses the four bytes of an int |
| NbtWriter.SwapInt32Involution | src/CoreFNBT/NbtBinaryWriter.cs:126-130 | SwapInt32 applied twice is the identity |
| NbtWriter.NbtBinaryWriter.constructor | src/CoreFNBT/NbtBinaryWriter.cs:43-48 | on a writable stream: swapNeeded is whether the host order equals big-endian, and the buffer is fresh |
| NbtWriter.NbtBinaryWriter.Create | src/CoreFNBT/NbtBinaryWriter.cs:43-48 | a null stream gives ArgumentNull, an unwritable one InvalidArgument, any other a writer as above |
| NbtWriter.NbtBinaryWriter.WriteByte | src/CoreFNBT/NbtBinaryWriter.cs:51-53 | appends the byte with WriteByte and makes no Write call |
| NbtWriter.NbtBinaryWriter.WriteTagType | src/CoreFNBT/NbtBinaryWriter.cs:56-58 | appends the tag type's byte |
| NbtWriter.NbtBinaryWriter.WriteInt16 | src/CoreFNBT/NbtBinaryWriter.cs:61-72 | appends the two bytes in wire order, big-endian when swapping, in one Write of 2 |
| NbtWriter.NbtBinaryWriter.WriteWord32 | src/CoreFNBT/NbtBinaryWriter.cs:98-111 | appends the four bytes in wire order in one Write of 4 |
| NbtWriter.NbtBinaryWriter.WriteInt32 | src/CoreFNBT/NbtBinaryWriter.cs:94-113 | appends the ZigZag varint in VarInt mode, otherwise four bytes in wire order |
| NbtWriter.NbtBinaryWriter.WriteVarInt | src/CoreFNBT/NbtBinaryWriter.cs:116-119 | appends the ZigZag varint whatever the byte order |
| NbtWriter.NbtBinaryWriter.WriteWord64 | src/CoreFNBT/NbtBinaryWriter.cs:132-155 | appends the eight bytes in wire order in one Write of 8 |
| NbtWriter.NbtBinaryWriter.WriteInt64 | src/CoreFNBT/NbtBinaryWriter.cs:132-155 | appends the eight bytes of the long in wire order; VarInt mode does not apply |
| NbtWriter.NbtBinaryWriter.WriteSingle | src/CoreFNBT/NbtBinaryWriter.cs:158-174 | appends the four bytes of the float's bits in wire order |
| NbtWriter.NbtBinaryWriter.WriteDouble | src/CoreFNBT/NbtBinaryWriter.cs:177-201 | appends the eight bytes of the double's bits in wire order |
| NbtWriter.NbtBinaryWriter.GetBytes | src/CoreFNBT/NbtBinaryWriter.cs:226 | the front of the buffer holds the UTF-8 encoding of the string |
| NbtWriter.NbtBinaryWriter.WriteString | src/CoreFNBT/NbtBinaryWriter.cs:205-251 | over 32767 UTF-8 bytes: NbtFormat and nothing written; otherwise appends the length prefix then the encoding, with no Write call of more than 256 bytes |
| NbtWriter.NbtBinaryWriter.WriteChunks | src/CoreFNBT/NbtBinaryWriter.cs:228-250 | writing 64 characters per round appends the encoding of the whole string, each call at most 256 bytes |
| NbtWriter.NbtBinaryWriter.WriteBytes | src/CoreFNBT/NbtBinaryWriter.cs:253-260 | appends data[offset..offset+count] in calls of at most 512 MiB; a negative offset gives ArgumentOutOfRange with nothing written; a count past the array gives InvalidArgument after the whole chunks before it; a null array gives ArgumentNull when count > 0, and nothing happens when count <= 0 |
| NbtReader.Swap16Reverses | src/CoreFNBT/NbtBinaryReader.cs:171-176 | Swap(short) reverses the two bytes |
| NbtReader.Swap16Involution | src/CoreFNBT/NbtBinaryReader.cs:171-176 | Swap(short) applied twice is the identity |
| NbtReader.Swap32Reverses | src/CoreFNBT/NbtBinaryReader.cs:180-188 | Swap(int) reverses the four bytes |
| NbtReader.Swap32Involution | src/CoreFNBT/NbtBinaryReader.cs:180-188 | Swap(int) applied twice is the identity |
| NbtReader.Swap64Reverses | src/CoreFNBT/NbtBinaryReader.cs:192-197 | Swap(long), built from the two Swap(int) halves, reverses the eight bytes |
| NbtReader.Swap64Involution | src/CoreFNBT/NbtBinaryReader.cs:192-197 | Swap(long) applied twice is the identity |
| NbtReader.ReadLengthSpec | src/CoreFNBT/NbtBinaryReader.cs:93-99 | the prefix takes 1 byte in VarInt mode and 2 otherwise; it fails exactly when the stream is shorter; a VarInt-mode length is 0..255 |
| NbtReader.FillAsWritten | src/CoreFNBT/NbtBinaryReader.cs:103-111 | when the short-string loop succeeds it has consumed at least the body, no more than the stream held, and no more than the 64-byte buffer |
| NbtReader.NbtBinaryReader.constructor | src/CoreFNBT/NbtBinaryReader.cs:19-22 | swapNeeded is whether the host order equals big-endian; the buffers are fresh and there is no seek buffer yet |
| NbtReader.NbtBinaryReader.ReadByte | src/CoreFNBT/NbtBinaryReader.cs:95 | the next byte, or EndOfStream at the end |
| NbtReader.NbtBinaryReader.ReadTagType | src/CoreFNBT/NbtBinaryReader.cs:25-33 | the next byte; NbtFormat when it is above IntArray; EndOfStream at the end |
| NbtReader.NbtBinaryReader.FillBuffer | src/CoreFNBT/NbtBinaryReader.cs:143-150 | fills the front of the buffer with the next numBytes bytes, calling Read for no more than numBytes; EndOfStream when the stream runs out or numBytes is 0 |
| NbtReader.NbtBinaryReader.BaseReadInt16 | src/CoreFNBT/NbtBinaryReader.cs:40 | two bytes, little-endian, or EndOfStream |
| NbtReader.NbtBinaryReader.BaseReadWord32 | src/CoreFNBT/NbtBinaryReader.cs:52 | four bytes, little-endian, or EndOfStream |
| NbtReader.NbtBinaryReader.BaseReadWord64 | src/CoreFNBT/NbtBinaryReader.cs:66 | eight bytes, little-endian, or EndOfStream |
| NbtReader.NbtBinaryReader.ReadInt16 | src/CoreFNBT/NbtBinaryReader.cs:36-42 | two bytes, byte-swapped when swapNeeded |
| NbtReader.NbtBinaryReader.ReadInt32 | src/CoreFNBT/NbtBinaryReader.cs:45-55 | a ZigZag varint in VarInt mode, otherwise four bytes byte-swapped when swapNeeded |
| NbtReader.NbtBinaryReader.ReadVarInt | src/CoreFNBT/NbtBinaryReader.cs:57-60 | a ZigZag varint of at most 5 groups |
| NbtReader.NbtBinaryReader.ReadInt64 | src/CoreFNBT/NbtBinaryReader.cs:62-68 | eight bytes byte-swapped when swapNeeded |
| NbtReader.NbtBinaryReader.ReverseBuffer | src/CoreFNBT/NbtBinaryReader.cs:74 | reverses the first count bytes of the buffer in place and leaves the rest |
| NbtReader.NbtBinaryReader.ReadSingle | src/CoreFNBT/NbtBinaryReader.cs:71-79 | when swapping: four bytes reversed, then read in host order; otherwise little-endian |
| NbtReader.NbtBinaryReader.ReadDouble | src/CoreFNBT/NbtBinaryReader.cs:82-89 | when swapping: eight bytes reversed, then read in host order; otherwise little-endian |
| NbtReader.NbtBinaryReader.ReadLength | src/CoreFNBT/NbtBinaryReader.cs:93-99 | reads the string-length prefix as ReadLengthSpec says |
| NbtReader.NbtBinaryReader.FillStringBuffer | src/CoreFNBT/NbtBinaryReader.cs:103-111 | the loop consumes what the short-string loop consumes, fails as it fails, and leaves the body at the front of the conversion buffer |
| NbtReader.NbtBinaryReader.ReadBytes | src/CoreFNBT/NbtBinaryReader.cs:114 | the next count bytes, or all that remain when fewer |
| NbtReader.NbtBinaryReader.ReadBody | src/CoreFNBT/NbtBinaryReader.cs:103-119 | the first length bytes decoded as UTF-8; EndOfStream when the stream is short |
| NbtReader.NbtBinaryReader.ReadString | src/CoreFNBT/NbtBinaryReader.cs:92-120 | the prefix, NbtFormat for a negative length, then the body |
| NbtReader.NbtBinaryReader.Skip | src/CoreFNBT/NbtBinaryReader.cs:123-140 | a negative count gives ArgumentOutOfRange; a seekable stream moves by the count; otherwise the bytes are read in calls of at most 8 KiB, and EndOfStream leaves the stream exhausted |
| NbtReader.NbtBinaryReader.SkipString | src/CoreFNBT/NbtBinaryReader.cs:153-167 | reads the prefix, gives NbtFormat for a negative length, then skips the body |
| Codec.SwapHelpersAgree | src/CoreFNBT/NbtBinaryWriter.cs:121-130 | the writer's SwapInt16/SwapInt32 compute the same as the reader's Swap |
| Codec.Int16RoundTrip | src/CoreFNBT/NbtBinaryReader.cs:36-42 | ReadInt16 returns every short Write(short) wrote with the same byte order, and consumes 2 bytes |
| Codec.Word32RoundTrip | src/CoreFNBT/NbtBinaryReader.cs:45-55 | fixed-width ReadInt32 returns every int fixed-width Write(int) wrote |
| Codec.Int32RoundTrip | src/CoreFNBT/NbtBinaryWriter.cs:94-113 | ReadInt32 returns every int Write(int) wrote, in either mode, consuming exactly its image |
| Codec.Int64RoundTrip | src/CoreFNBT/NbtBinaryReader.cs:62-68 | ReadInt64 returns every long Write(long) wrote |
| Codec.SingleRoundTrip | src/CoreFNBT/NbtBinaryReader.cs:71-79 | ReadSingle returns the bits Write(float) wrote, on a little-endian host or without swapping |
| Codec.DoubleRoundTrip | src/CoreFNBT/NbtBinaryReader.cs:82-89 | ReadDouble returns the bits Write(double) wrote, on a little-endian host or without swapping |
| Codec.LengthRoundTrip | src/CoreFNBT/NbtBinaryWriter.cs:216-222 | the prefix of n bytes reads back as n when fixed-width and as n modulo 256 in VarInt mode |
| Codec.BodyRoundTrip | src/CoreFNBT/NbtBinaryReader.cs:103-119 | the body of an encoded string reads back as the string, consuming the body, when a short body arrives in one call |
| Codec.StringRoundTrip | src/CoreFNBT/NbtBinaryWriter.cs:205-251 | ReadString returns the string Write(string) wrote and consumes exactly its image, under the conditions below |
| Codec.SkipStringRoundTrip | src/CoreFNBT/NbtBinaryReader.cs:153-167 | SkipString over what Write(string) wrote consumes exactly the image, seekable or not, when the VarInt-mode prefix did not wrap (finding 1) |
| Codec.SkipMatchesRead | src/CoreFNBT/NbtBinaryReader.cs:153-167 | when ReadString succeeds on a stream handing over at least 64 bytes per call, SkipString consumes exactly as much |
| Codec.BodyConsumesLength | src/CoreFNBT/NbtBinaryReader.cs:103-119 | with at least 64 bytes per call, a successful body read consumes exactly the body |
| Codec.FillConsumesLength | src/CoreFNBT/NbtBinaryReader.cs:103-111 | with at least 64 bytes per call, the short-string loop consumes exactly the body when it succeeds |
| Findings.VarIntPrefixWraps | src/CoreFNBT/NbtBinaryWriter.cs:216-219 | every string of 256 to 32767 UTF-8 bytes is accepted in VarInt mode, and its prefix reads back as a different length |
| Findings.VarIntPrefixWrapsExample | src/CoreFNBT/NbtBinaryWriter.cs:216-219 | 256 letters written in VarInt mode read back as the empty string, consuming only the prefix |
| Findings.StringImageIntendedAgrees | src/CoreFNBT/NbtBinaryWriter.cs:211-222 | the corrected write refuses exactly the lengths the prefix cannot carry and otherwise writes what the code writes |
| Findings.FillOvershootsExample | src/CoreFNBT/NbtBinaryReader.cs:105-111 | with 3 bytes wanted and 2 handed over per call, the loop consumes 4 |
| Findings.StringOvershootExample | src/CoreFNBT/NbtBinaryReader.cs:92-120 | on a 4-byte string image, ReadString consumes 5 bytes where SkipString consumes 4 |
| Findings.FillRefusesExample | src/CoreFNBT/NbtBinaryReader.cs:106 | 40 bytes wanted, 30 per call: the second call throws ArgumentException although the body is there |
| Findings.FillIntendedExact | src/CoreFNBT/NbtBinaryReader.cs:103-111 | the corrected loop consumes exactly the body when the stream holds it, else EndOfStream, for every schedule of per-call counts (each call any count from 1 to what is asked and left) |
| Findings.FillIntendedExample | src/CoreFNBT/NbtBinaryReader.cs:103-111 | the corrected loop reads both example bodies exactly, and a body handed over 1, 2, 3 bytes per call |
| Findings.ReadBodyIntendedExact | src/CoreFNBT/NbtBinaryReader.cs:103-119 | the corrected body read is the first length bytes, or EndOfStream, for every schedule of per-call counts |
| Findings.SkipMatchesReadIntended | src/CoreFNBT/NbtBinaryReader.cs:153-167 | on a stream that cannot seek, SkipString succeeds exactly when the corrected ReadString does, and consumes as much, for every schedule of per-call counts |
| Findings.BodyRoundTripIntended | src/CoreFNBT/NbtBinaryReader.cs:103-119 | the corrected body read returns every encoded string for every schedule of per-call counts |
| Findings.StringRoundTripIntended | src/CoreFNBT/NbtBinaryWriter.cs:205-251 | corrected write then corrected read returns every accepted string and consumes exactly its image, in both modes and for every schedule of per-call counts |
| Findings.BigEndianHostSingle | src/CoreFNBT/NbtBinaryReader.cs:71-79 | on a big-endian host that swaps, ReadSingle returns the byte-reversed bits of what Write(float) wrote |
| Findings.BigEndianHostSingleExample | src/CoreFNBT/NbtBinaryReader.cs:71-79 | the bits of 1.0f come back as 0x0000803F |
| Findings.BigEndianHostDouble | src/CoreFNBT/NbtBinaryReader.cs:82-89 | on a big-endian host that swaps, ReadDouble returns the byte-reversed bits |
| Findings.SingleIntendedAgrees | src/CoreFNBT/NbtBinaryReader.cs:71-79 | the corrected float read decodes as the integer read does, and equals the code on a little-endian host |
| Findings.DoubleIntendedAgrees | src/CoreFNBT/NbtBinaryReader.cs:82-89 | the corrected double read decodes as the long read does, and equals the code on a little-endian host |
| Findings.SingleRoundTripIntended | src/CoreFNBT/NbtBinaryReader.cs:71-79 | the corrected ReadSingle returns the bits Write(float) wrote on any host |
| Findings.DoubleRoundTripIntended | src/CoreFNBT/NbtBinaryReader.cs:82-89 | the corrected ReadDouble returns the bits Write(double) wrote on any host |
| Findings.BigEndianHostFilesSwapped | src/CoreFNBT/NbtBinaryWriter.cs:47 | what a big-endian host writes, a little-endian host asking for the same byte order reads back byte-reversed, for 16-, 32- and 64-bit values in both orders |
| Findings.BigEndianHostFilesSwappedExample | src/CoreFNBT/NbtBinaryWriter.cs:47 | a big-endian writer on a big-endian host writes 0x0102 as [0x02, 0x01], which a little-endian host reads as 0x0201 |
| Findings.BigEndianHostWriter | src/CoreFNBT/NbtBinaryWriter.cs:43-72 | a writer built for big-endian output on a big-endian host appends the little-endian images of a short, an int and a long |
| Findings.IntendedByteOrder | src/CoreFNBT/NbtBinaryWriter.cs:47 | with swapNeeded = bigEndian, every fixed-width image is big-endian exactly when big-endian output is asked for, on every host |
| Findings.CrossHostRoundTripIntended | src/CoreFNBT/NbtBinaryReader.cs:21 | with the corrected swapNeeded and float reads, shorts, ints, longs, floats and doubles written on any host read back on any other host asking for the same order |

## Left out

- Codec.SingleRoundTrip: requires a little-endian host or no swapping. The big-endian host that swaps does not round-trip (finding 3).
- Codec.DoubleRoundTrip: the same restriction, for the same reason.
- Streams.InputStream.Read: every call hands over the least of the count asked for, the bytes left and one `maxRead` fixed for the stream's life. A .NET `Stream` may hand over any count from 1 up to that on each call. The reader's loops (`FillBuffer`, `FillStringBuffer`, `ReadBytes`, `Skip`) and the functions that specify them (`NbtReader.FillAsWritten`, `NbtReader.ReadBodySpec`, `NbtReader.ReadStringSpec`) are therefore proved for fixed-size streams only. The corrected definitions of finding 2 are proved for every schedule of per-call counts.
- Codec.StringRoundTrip: requires a VarInt-mode body below 256 bytes (finding 1). It also requires that a body shorter than 64 bytes arrive in one `Read` call (finding 2). `Findings.StringRoundTripIntended` drops both conditions for the corrected code.
- Codec.SkipStringRoundTrip: requires a VarInt-mode body below 256 bytes. A longer one gets a wrapped prefix, and SkipString then skips only the wrapped length (finding 1).
- Codec.SkipMatchesRead: requires a stream that hands over at least 64 bytes per `Read` call. With smaller calls the written code can consume more than `SkipString` (finding 2).
- `Write(string)` with a null string (`ArgumentNullException`) is not modelled: Dafny strings are never null.
- Strings are sequences of Unicode scalar values. UTF-16 surrogate pairs, lone surrogates (the strict encoder's `EncoderFallbackException`) and the encoder's state across chunks are left out.
  - A chunk is 64 scalar values, where the source uses 64 UTF-16 code units. A character outside the BMP therefore counts once here and twice in C#, so chunk boundaries can differ. The bytes written are the same, as `Utf8.EncodeAppend` shows.
  - The decoder's U+FFFD replacement follows RFC 3629's maximal-subpart rule for ill-formed input.
- Floats and doubles are modelled as their IEEE-754 bit patterns. No floating-point arithmetic is involved, and NaN payloads pass through as bits.
- `Write(ushort)` has the same body as `Write(short)` and is modelled by `WriteInt16`. The UInt32/UInt64 VarInt wrappers have the same bodies as the Int32/Int64 ones, whose methods model them.
- The `BaseStream` getter with its `Flush`, and the writer's `UseVarInt` property accessors, are plain field accesses here. The `Selector` property is left out because the codec never reads it.
- The base `BinaryReader`'s constructor checks (null or unreadable stream) and its internal buffering are left out. The inherited reads are modelled through this class's `FillBuffer` and 8-byte buffer, which reads the same bytes.
- The `NbtTagType` enum is a byte, and `IntArray` is its value 11. NbtTagType.cs is not part of this model.
- I/O errors of the underlying stream itself (`IOException`, `ObjectDisposedException`) are not modelled. The streams are in-memory sequences.
- Where a read fails, the model says which exception is raised. It does not always say how far the stream has moved, which the codec also leaves unspecified.
- The VarInt sub-codec's stream methods take the model's stream classes, not `System.IO.Stream`.

## Findings

| source | as written | input that shows it | evidently intended | confidence | as-written member | corrected member |
|---|---|---|---|---|---|---|
| src/CoreFNBT/NbtBinaryWriter.cs:216-219 | in VarInt mode the UTF-8 length is written through a `(byte)` cast after only the 32767 check | a string of 256 letters 'a': prefix 0, read back as the empty string | refuse with NbtFormat a body over 255 bytes in VarInt mode, as the 32767 check (211-214) does for the two-byte prefix, instead of writing a wrapped length | not executed | Findings.VarIntPrefixWraps | Findings.StringRoundTripIntended |
| src/CoreFNBT/NbtBinaryReader.cs:106 | every `Read` of the short-string loop asks for `length` bytes at offset `stringBytesRead` | the string "abc" in VarInt mode on a stream handing over 2 bytes per call: 5 bytes consumed for a 4-byte image; a 40-byte body at 30 bytes per call: ArgumentException | ask for `length - stringBytesRead` bytes, so the loop consumes exactly the body whatever count each call hands over | not executed | Findings.StringOvershootExample | Findings.FillIntendedExact |
| src/CoreFNBT/NbtBinaryReader.cs:71-89 | when swapping, the bytes are reversed and then read by BitConverter in host order | a big-endian host reading the big-endian image of 1.0f (bits 0x3F800000) gets the bits 0x0000803F | decode the reversed bytes little-endian, as the integer reads do; with the corrected swapNeeded of row 4, floats then come back on every host (Findings.CrossHostRoundTripIntended) | not executed | Findings.BigEndianHostSingle | Findings.SingleRoundTripIntended |
| src/CoreFNBT/NbtBinaryWriter.cs:47 | `swapNeeded = (BitConverter.IsLittleEndian == bigEndian)` in both constructors (also NbtBinaryReader.cs:21), while the writes are shifts and the inherited reads little-endian on every host | a big-endian host with bigEndian = true writes the short 0x0102 as [0x02, 0x01]; a little-endian host reading big-endian gets 0x0201 | `swapNeeded = bigEndian` on every host, so the wire order is the one asked for | not executed | Findings.BigEndianHostFilesSwapped | Findings.CrossHostRoundTripIntended |
