/// The System.IO.Stream objects the codec reads from and writes to, reduced
/// to what the codec relies on: a readable stream is a fixed byte sequence
/// with a position, a writable stream is the sequence of bytes written so
/// far. Both log the count of every buffer call they receive, so that the
/// chunk sizes the codec promises can be stated.
module Streams {
  import opened Bytes

  type Positive = n: int | n > 0 witness 1

  /** A call log that grew from `before` by calls of at most bound bytes. */
  ghost predicate ExtendedByCalls(before: seq<int>, after: seq<int>, bound: int)
  {
    |before| <= |after| && after[..|before|] == before &&
    forall k :: |before| <= k < |after| ==> 0 <= after[k] <= bound
  }

  lemma ExtendedByCallsTransitive(a: seq<int>, b: seq<int>, c: seq<int>, bound: int)
    requires ExtendedByCalls(a, b, bound) && ExtendedByCalls(b, c, bound)
    ensures ExtendedByCalls(a, c, bound)
  {
    assert c[..|a|] == c[..|b|][..|a|];
  }

  lemma ExtendedByOneCall(a: seq<int>, b: seq<int>, count: int, bound: int)
    requires ExtendedByCalls(a, b, bound) && 0 <= count <= bound
    ensures ExtendedByCalls(a, b + [count], bound)
  {
    assert (b + [count])[..|a|] == b[..|a|];
  }

  /** A readable stream. One Read call delivers exactly the least of the
      count asked for, the bytes left and maxRead, the same maxRead on every
      call (a MemoryStream has no such limit; a network or decompressing
      stream often delivers less, and not always the same amount), so it
      never returns 0 while bytes remain and something is asked for. A seekable
      stream may be positioned past its end, after which reads return 0. */
  class InputStream {
    const data: seq<byte>
    const canSeek: bool
    const maxRead: Positive
    var position: nat
    ghost var readCounts: seq<int>

    /** Number of bytes a read can still deliver. */
    function Remaining(): nat
      reads this
    {
      if position < |data| then |data| - position else 0
    }

    /** The bytes a read can still deliver, in order. */
    function Rest(): (r: seq<byte>)
      reads this
      ensures |r| == Remaining()
    {
      if position < |data| then data[position..] else []
    }

    constructor (data: seq<byte>, canSeek: bool, maxRead: Positive)
      ensures this.data == data && this.canSeek == canSeek && this.maxRead == maxRead
      ensures position == 0 && readCounts == []
    {
      this.data := data;
      this.canSeek := canSeek;
      this.maxRead := maxRead;
      position := 0;
      readCounts := [];
    }

    /** Stream.ReadByte: the next byte as 0..255, or -1 at the end. */
    method ReadByte() returns (b: int)
      modifies this
      ensures old(Remaining()) > 0 ==> b == old(Rest())[0] as int && position == old(position) + 1
      ensures old(Remaining()) == 0 ==> b == -1 && position == old(position)
      ensures Rest() == if b < 0 then old(Rest()) else old(Rest())[1..]
      ensures readCounts == old(readCounts)
    {
      if position < |data| {
        b := data[position] as int;
        position := position + 1;
      } else {
        b := -1;
      }
    }

    /** Stream.Read(buffer, offset, count): copies the next bytes, as many as
        count, the remaining bytes and maxRead all allow, to buffer[offset..].
        A range that does not fit in the buffer throws ArgumentException. */
    method Read(buffer: array<byte>, offset: nat, count: nat) returns (r: Result<nat>)
      modifies this, buffer
      ensures offset + count > buffer.Length ==>
        r == Failure(InvalidArgument) && position == old(position) && buffer[..] == old(buffer[..]) &&
        readCounts == old(readCounts)
      ensures offset + count <= buffer.Length ==>
        && r.Success?
        && r.value == Min(Min(count, old(Remaining())), maxRead)
        && position == old(position) + r.value
        && Rest() == old(Rest())[r.value..]
        && buffer[offset..offset + r.value] == old(Rest())[..r.value]
        && buffer[..offset] == old(buffer[..offset])
        && buffer[offset + r.value..] == old(buffer[offset + r.value..])
        && readCounts == old(readCounts) + [count]
    {
      if offset + count > buffer.Length {
        return Failure(InvalidArgument);
      }
      var rest := Rest();
      var n := Min(Min(count, |rest|), maxRead);
      var i := 0;
      while i < n
        modifies buffer
        invariant 0 <= i <= n
        invariant buffer[offset..offset + i] == rest[..i]
        invariant buffer[..offset] == old(buffer[..offset])
        invariant buffer[offset + i..] == old(buffer[offset + i..])
      {
        buffer[offset + i] := rest[i];
        i := i + 1;
      }
      position := position + n;
      assert Rest() == rest[n..] by {
        if n > 0 { assert old(position) < |data|; }
      }
      readCounts := readCounts + [count];
      r := Success(n);
    }

    /** Stream.Position += n on a seekable stream. */
    method Seek(n: nat)
      requires canSeek
      modifies this
      ensures position == old(position) + n && readCounts == old(readCounts)
    {
      position := position + n;
    }
  }

  /** A writable (or, if canWrite is false, read-only) stream. */
  class OutputStream {
    const canWrite: bool
    var written: seq<byte>
    ghost var writeCounts: seq<int>

    constructor (canWrite: bool)
      ensures this.canWrite == canWrite && written == [] && writeCounts == []
    {
      this.canWrite := canWrite;
      written := [];
      writeCounts := [];
    }

    /** Stream.WriteByte. */
    method WriteByte(b: byte)
      requires canWrite
      modifies this
      ensures written == old(written) + [b] && writeCounts == old(writeCounts)
    {
      written := written + [b];
    }

    /** Stream.Write(buffer, offset, count). A negative offset or count
        throws ArgumentOutOfRangeException, a range that does not fit in the
        buffer ArgumentException; either way nothing is written. */
    method Write(buffer: array<byte>, offset: int, count: int) returns (r: Outcome)
      requires canWrite
      modifies this
      ensures r == (if offset < 0 || count < 0 then Fail(ArgumentOutOfRange)
                    else if buffer.Length - offset < count then Fail(InvalidArgument)
                    else Pass)
      ensures r.Pass? ==> written == old(written) + buffer[offset..offset + count]
      ensures r.Pass? ==> writeCounts == old(writeCounts) + [count]
      ensures r.Fail? ==> written == old(written) && writeCounts == old(writeCounts)
    {
      if offset < 0 || count < 0 {
        return Fail(ArgumentOutOfRange);
      }
      if buffer.Length - offset < count {
        return Fail(InvalidArgument);
      }
      written := written + buffer[offset..offset + count];
      writeCounts := writeCounts + [count];
      r := Pass;
    }
  }
}
