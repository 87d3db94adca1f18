/// Shared vocabulary of the NBT codec: bytes, the exceptions the reader and
/// writer raise, and the little- and big-endian byte images of the 16-, 32-
/// and 64-bit patterns that the C# code stores in short, int, long, float and
/// double values.
module Bytes {

  type byte = bv8

  /** The exceptions the codec raises, one constructor per .NET exception type. */
  datatype Error =
    | EndOfStream         // System.IO.EndOfStreamException
    | NbtFormat           // fNbt.NbtFormatException
    | ArgumentOutOfRange  // System.ArgumentOutOfRangeException
    | ArgumentNull        // System.ArgumentNullException
    | InvalidArgument     // System.ArgumentException
    | Overflow            // System.OverflowException

  /** A call that returns a value or throws. */
  datatype Result<T> = Success(value: T) | Failure(error: Error)

  /** A void call that returns normally or throws. */
  datatype Outcome = Pass | Fail(error: Error)

  /** What a read is specified to do on the unread bytes of a stream: yield
      a value after consuming a number of bytes, or fail. */
  ghost predicate ReadAs<T>(r: Result<T>, consumed: int, spec: Result<(T, nat)>)
  {
    match spec
    case Success(vn) => r == Success(vn.0) && consumed == vn.1
    case Failure(e) => r == Failure(e)
  }

  /** Shifts a result of the reader by n bytes consumed before it. */
  function After<T>(n: nat, r: Result<(T, nat)>): Result<(T, nat)>
  {
    match r
    case Success((v, m)) => Success((v, n + m))
    case Failure(e) => Failure(e)
  }

  /** A byte read as 0..255 by Stream.ReadByte converts back to itself. */
  lemma ByteOfInt(x: byte)
    ensures 0 <= x as int < 256 && (x as int) as byte == x
  {
  }

  /** The (byte) cast of a value that Stream.ReadByte returned for image. */
  method ToByte(b0: int, ghost image: byte) returns (b: byte)
    requires b0 == image as int
    ensures b == image
  {
    ByteOfInt(image);
    b := b0 as byte;
  }

  /** The top bit of a byte, tested on the byte or on its value 0..255. */
  lemma TopBit(b: byte)
    ensures (b & 0x80 == 0x80) <==> b as int >= 0x80
  {
  }

  /** NbtTagType.IntArray: the largest tag type the reader accepts. */
  const IntArray: byte := 11

  function Min(a: int, b: int): int { if a <= b then a else b }

  /** The byte whose value is x. It stands for `x as byte`, the C# cast of
      a value already known to be in 0..255, and is counted up one by one
      instead: a conversion from int to a bit-vector is translated into a
      non-linear encoding that the solver handles only at great cost,
      whereas this definition needs nothing but `ByteOfValue`. */
  function ByteOf(x: int): byte
    requires 0 <= x < 256
    decreases x
  {
    if x == 0 then 0 else ByteOf(x - 1) + 1
  }

  lemma {:induction false} ByteOfValue(x: int)
    requires 0 <= x < 256
    ensures ByteOf(x) as int == x
  {
    if x > 0 {
      ByteOfValue(x - 1);
    }
  }

  /** The C# (byte) cast of a non-negative int: its low eight bits. */
  function LowByte(n: int): byte
    requires 0 <= n
  {
    ByteOf(n % 0x100)
  }

  /** The C# (ushort) cast of a non-negative int: its low sixteen bits. */
  function LowUShort(n: int): bv16
    requires 0 <= n
  {
    ((ByteOf(n / 0x100 % 0x100) as bv16) << 8) | (ByteOf(n % 0x100) as bv16)
  }

  lemma AppendAssociative<T>(a: seq<T>, b: seq<T>, c: seq<T>)
    ensures (a + b) + c == a + (b + c)
  {
  }

  function Reverse<T>(s: seq<T>): (r: seq<T>)
    ensures |r| == |s|
  {
    seq(|s|, i requires 0 <= i < |s| => s[|s| - 1 - i])
  }

  /** The value 0..65535 of a 16-bit pattern, read off its two bytes. */
  function UShortValue(v: bv16): int
  {
    ((v >> 8) as byte) as int * 0x100 + ((v & 0xFF) as byte) as int
  }

  /** The two's-complement value of a C# short. */
  function Signed16(v: bv16): int
  {
    var u := UShortValue(v);
    if u < 0x8000 then u else u - 0x1_0000
  }

  lemma LowByteValue(n: int)
    requires 0 <= n
    ensures LowByte(n) as int == n % 0x100
  {
    ByteOfValue(n % 0x100);
  }

  lemma LowUShortBytes(n: int)
    requires 0 <= n
    ensures (LowUShort(n) >> 8) as byte == ByteOf(n / 0x100 % 0x100)
    ensures (LowUShort(n) & 0xFF) as byte == ByteOf(n % 0x100)
  {
  }

  /** The (ushort) cast keeps a value below 65536. */
  lemma LowUShortValue(n: int)
    requires 0 <= n < 0x1_0000
    ensures UShortValue(LowUShort(n)) == n
  {
    var hi, lo := n / 0x100, n % 0x100;
    LowUShortBytes(n);
    ByteOfValue(hi % 0x100);
    ByteOfValue(lo);
    assert hi % 0x100 == hi;
    assert UShortValue(LowUShort(n)) == hi * 0x100 + lo;
  }

  // ---------------------------------------------------------------------
  // Byte images. The little-endian decodes are what System.IO.BinaryReader's
  // ReadInt16/ReadInt32/ReadInt64/ReadSingle/ReadDouble compute.

  function LittleEndian16(v: bv16): seq<byte>
  {
    [(v & 0xFF) as byte, (v >> 8) as byte]
  }

  function BigEndian16(v: bv16): seq<byte>
  {
    [(v >> 8) as byte, (v & 0xFF) as byte]
  }

  function FromLittleEndian16(b: seq<byte>): bv16
    requires |b| == 2
  {
    (b[0] as bv16) | ((b[1] as bv16) << 8)
  }

  function LittleEndian32(v: bv32): seq<byte>
  {
    [(v & 0xFF) as byte, ((v >> 8) & 0xFF) as byte, ((v >> 16) & 0xFF) as byte, (v >> 24) as byte]
  }

  function BigEndian32(v: bv32): seq<byte>
  {
    [(v >> 24) as byte, ((v >> 16) & 0xFF) as byte, ((v >> 8) & 0xFF) as byte, (v & 0xFF) as byte]
  }

  function FromLittleEndian32(b: seq<byte>): bv32
    requires |b| == 4
  {
    (b[0] as bv32) | ((b[1] as bv32) << 8) | ((b[2] as bv32) << 16) | ((b[3] as bv32) << 24)
  }

  function LittleEndian64(v: bv64): seq<byte>
  {
    [(v & 0xFF) as byte, ((v >> 8) & 0xFF) as byte, ((v >> 16) & 0xFF) as byte, ((v >> 24) & 0xFF) as byte,
     ((v >> 32) & 0xFF) as byte, ((v >> 40) & 0xFF) as byte, ((v >> 48) & 0xFF) as byte, (v >> 56) as byte]
  }

  function BigEndian64(v: bv64): seq<byte>
  {
    [(v >> 56) as byte, ((v >> 48) & 0xFF) as byte, ((v >> 40) & 0xFF) as byte, ((v >> 32) & 0xFF) as byte,
     ((v >> 24) & 0xFF) as byte, ((v >> 16) & 0xFF) as byte, ((v >> 8) & 0xFF) as byte, (v & 0xFF) as byte]
  }

  function FromLittleEndian64(b: seq<byte>): bv64
    requires |b| == 8
  {
    (b[0] as bv64) | ((b[1] as bv64) << 8) | ((b[2] as bv64) << 16) | ((b[3] as bv64) << 24) |
    ((b[4] as bv64) << 32) | ((b[5] as bv64) << 40) | ((b[6] as bv64) << 48) | ((b[7] as bv64) << 56)
  }

  /** The constructors' swapNeeded: swap when the host's byte order is not
      the one asked for. The writes and the inherited reads are
      little-endian on every host, so this is host-relative where they are
      not (finding 4). */
  function SwapNeeded(hostLittleEndian: bool, bigEndian: bool): bool
  {
    hostLittleEndian == bigEndian
  }

  /** The bytes a fixed-width write emits: most significant byte first when
      the instance swaps, least significant first otherwise. */
  function WireOrder16(v: bv16, swap: bool): (r: seq<byte>)
    ensures |r| == 2
  {
    if swap then BigEndian16(v) else LittleEndian16(v)
  }

  function WireOrder32(v: bv32, swap: bool): (r: seq<byte>)
    ensures |r| == 4
  {
    if swap then BigEndian32(v) else LittleEndian32(v)
  }

  function WireOrder64(v: bv64, swap: bool): (r: seq<byte>)
    ensures |r| == 8
  {
    if swap then BigEndian64(v) else LittleEndian64(v)
  }

  // ---------------------------------------------------------------------
  // The little-endian images are bijections, and the big-endian image is
  // the little-endian one reversed.

  lemma LittleEndian16Inverse(v: bv16, b: seq<byte>)
    requires |b| == 2
    ensures FromLittleEndian16(LittleEndian16(v)) == v
    ensures LittleEndian16(FromLittleEndian16(b)) == b
  {
  }

  lemma LittleEndian32Inverse(v: bv32, b: seq<byte>)
    requires |b| == 4
    ensures FromLittleEndian32(LittleEndian32(v)) == v
    ensures LittleEndian32(FromLittleEndian32(b)) == b
  {
  }

  lemma LittleEndian64Inverse(v: bv64, b: seq<byte>)
    requires |b| == 8
    ensures FromLittleEndian64(LittleEndian64(v)) == v
    ensures LittleEndian64(FromLittleEndian64(b)) == b
  {
  }

  lemma BigEndian16IsReversed(v: bv16)
    ensures BigEndian16(v) == Reverse(LittleEndian16(v))
  {
  }

  lemma BigEndian32IsReversed(v: bv32)
    ensures BigEndian32(v) == Reverse(LittleEndian32(v))
  {
  }

  lemma BigEndian64IsReversed(v: bv64)
    ensures BigEndian64(v) == Reverse(LittleEndian64(v))
  {
  }
}
