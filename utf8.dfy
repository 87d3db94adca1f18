/// UTF-8 as the codec's strings use it (section 3 of RFC 3629): the writer's
/// strict UTF8Encoding, whose GetByteCount and GetBytes the writer calls, and
/// Encoding.UTF8.GetString, which the reader calls and which replaces every
/// ill-formed subsequence by U+FFFD. Characters are Unicode scalar values,
/// so the encoder never meets a lone surrogate.
module Utf8 {
  import opened Bytes

  const Replacement: char := '�'

  /** Number of bytes the encoding of one scalar value takes: GetByteCount of
      a one-character string. */
  function CharSize(c: char): (r: nat)
    ensures 1 <= r <= 4
  {
    var cp := c as int;
    if cp < 0x80 then 1 else if cp < 0x800 then 2 else if cp < 0x1_0000 then 3 else 4
  }

  /** GetByteCount: the sum of the sizes of the characters. */
  function ByteCount(s: string): (r: nat)
    ensures |s| <= r <= 4 * |s|
  {
    if |s| == 0 then 0 else CharSize(s[0]) + ByteCount(s[1..])
  }

  /** The byte values of the encoding of one scalar value, from the table in
      section 3 of RFC 3629. */
  function CharValues(c: char): (r: seq<int>)
    ensures forall i :: 0 <= i < |r| ==> 0 <= r[i] < 256
  {
    var cp := c as int;
    if cp < 0x80 then
      [cp]
    else if cp < 0x800 then
      [0xC0 + cp / 0x40, 0x80 + cp % 0x40]
    else if cp < 0x1_0000 then
      [0xE0 + cp / 0x1000, 0x80 + cp / 0x40 % 0x40, 0x80 + cp % 0x40]
    else
      [0xF0 + cp / 0x4_0000, 0x80 + cp / 0x1000 % 0x40, 0x80 + cp / 0x40 % 0x40, 0x80 + cp % 0x40]
  }

  /** The encoding of one scalar value. */
  function EncodeChar(c: char): (r: seq<byte>)
    ensures |r| == CharSize(c)
  {
    var v := CharValues(c);
    seq(|v|, i requires 0 <= i < |v| => ByteOf(v[i]))
  }

  /** GetBytes: the encodings of the characters, one after the other. */
  function Encode(s: string): (r: seq<byte>)
    ensures |r| == ByteCount(s)
  {
    if |s| == 0 then [] else EncodeChar(s[0]) + Encode(s[1..])
  }

  /** The values 0..255 of a byte sequence. */
  function Values(b: seq<byte>): (v: seq<int>)
    ensures |v| == |b| && forall i :: 0 <= i < |b| ==> v[i] == b[i] as int && 0 <= v[i] < 256
  {
    seq(|b|, i requires 0 <= i < |b| => b[i] as int)
  }

  predicate AreByteValues(v: seq<int>)
  {
    forall i :: 0 <= i < |v| ==> 0 <= v[i] < 256
  }

  // ---------------------------------------------------------------------
  // The decoder. A well-formed sequence is a lead byte followed by the
  // number of continuation bytes it announces, each in the range of Table
  // 3-7 of the Unicode Standard (the same ranges as the ABNF in section 4
  // of RFC 3629). Anything else is replaced by one U+FFFD per maximal
  // prefix of a well-formed sequence, or per byte that starts none.

  /** The length of the sequence a lead byte announces, 0 for a byte that
      cannot start one (a continuation byte, C0, C1, F5..FF). */
  function SequenceLength(lead: int): nat
  {
    if lead < 0x80 then 1
    else if 0xC2 <= lead <= 0xDF then 2
    else if 0xE0 <= lead <= 0xEF then 3
    else if 0xF0 <= lead <= 0xF4 then 4
    else 0
  }

  /** Whether x may stand at position k (1..3) of a sequence led by lead. */
  predicate InRange(lead: int, k: nat, x: int)
  {
    if k == 1 && lead == 0xE0 then 0xA0 <= x <= 0xBF
    else if k == 1 && lead == 0xED then 0x80 <= x <= 0x9F
    else if k == 1 && lead == 0xF0 then 0x90 <= x <= 0xBF
    else if k == 1 && lead == 0xF4 then 0x80 <= x <= 0x8F
    else 0x80 <= x <= 0xBF
  }

  /** The length of the longest prefix of v, at least k, whose values after
      the lead are all in range, up to n. */
  function Matched(v: seq<int>, n: nat, k: nat): (m: nat)
    requires 1 <= k <= n && 1 <= |v|
    ensures k <= m <= n && (m > k ==> m <= |v|)
    ensures forall i :: k <= i < m ==> InRange(v[0], i, v[i])
    decreases n - k
  {
    if k < n && k < |v| && InRange(v[0], k, v[k]) then Matched(v, n, k + 1) else k
  }

  /** The scalar value of a well-formed sequence. */
  function DecodeSequence(v: seq<int>): char
    requires 1 <= |v| == SequenceLength(v[0]) && 0 <= v[0]
    requires forall k :: 1 <= k < |v| ==> InRange(v[0], k, v[k])
  {
    if |v| == 1 then
      v[0] as char
    else if |v| == 2 then
      assert InRange(v[0], 1, v[1]);
      ((v[0] - 0xC0) * 0x40 + (v[1] - 0x80)) as char
    else if |v| == 3 then
      assert InRange(v[0], 1, v[1]) && InRange(v[0], 2, v[2]);
      ((v[0] - 0xE0) * 0x1000 + (v[1] - 0x80) * 0x40 + (v[2] - 0x80)) as char
    else
      assert InRange(v[0], 1, v[1]) && InRange(v[0], 2, v[2]) && InRange(v[0], 3, v[3]);
      ((v[0] - 0xF0) * 0x4_0000 + (v[1] - 0x80) * 0x1000 + (v[2] - 0x80) * 0x40 + (v[3] - 0x80)) as char
  }

  /** Decoding of byte values, replacing each ill-formed subsequence by U+FFFD. */
  function DecodeValues(v: seq<int>): string
    requires AreByteValues(v)
    decreases |v|
  {
    if |v| == 0 then []
    else
      var n := SequenceLength(v[0]);
      if n == 0 then [Replacement] + DecodeValues(v[1..])
      else
        var m := Matched(v, n, 1);
        if m == n then [DecodeSequence(v[..n])] + DecodeValues(v[n..])
        else [Replacement] + DecodeValues(v[m..])
  }

  /** GetString. */
  function Decode(b: seq<byte>): string
  {
    DecodeValues(Values(b))
  }

  // ---------------------------------------------------------------------
  // Properties.

  /** Encoding a string piece by piece gives the bytes of encoding it whole:
      the writer's chunked path emits what the one-shot path would. */
  lemma {:induction false} EncodeAppend(s: string, t: string)
    ensures Encode(s + t) == Encode(s) + Encode(t)
  {
    if |s| == 0 {
      assert s + t == t;
    } else {
      assert (s + t)[1..] == s[1..] + t;
      EncodeAppend(s[1..], t);
    }
  }

  /** Encoding the first i + 1 characters adds the encoding of character i. */
  lemma EncodeSnoc(s: string, i: nat)
    requires i < |s|
    ensures Encode(s[..i + 1]) == Encode(s[..i]) + EncodeChar(s[i])
  {
    assert s[..i + 1] == s[..i] + [s[i]];
    EncodeAppend(s[..i], [s[i]]);
    assert Encode([s[i]]) == EncodeChar(s[i]) + Encode([]);
  }

  /** Encoding the first b characters is encoding the first a, then the
      ones from a to b. */
  lemma EncodeSlices(s: string, a: nat, b: nat)
    requires a <= b <= |s|
    ensures Encode(s[..b]) == Encode(s[..a]) + Encode(s[a..b])
  {
    assert s[..b] == s[..a] + s[a..b];
    EncodeAppend(s[..a], s[a..b]);
  }

  /** Encoding a prefix of a string gives no more bytes than encoding it all. */
  lemma EncodePrefix(s: string, i: nat)
    requires i <= |s|
    ensures |Encode(s[..i])| <= |Encode(s)|
  {
    assert s == s[..i] + s[i..];
    EncodeAppend(s[..i], s[i..]);
  }

  /** The bytes of EncodeChar have the values of the table. */
  lemma EncodeCharValues(c: char)
    ensures Values(EncodeChar(c)) == CharValues(c)
  {
    var v := CharValues(c);
    forall i | 0 <= i < |v|
      ensures Values(EncodeChar(c))[i] == v[i]
    {
      ByteOfValue(v[i]);
    }
  }

  lemma ValuesAppend(a: seq<byte>, b: seq<byte>)
    ensures Values(a + b) == Values(a) + Values(b)
  {
  }

  lemma DecodeEncodeOne(c: char, tail: seq<int>)
    requires c as int < 0x80 && AreByteValues(tail)
    ensures DecodeValues(CharValues(c) + tail) == [c] + DecodeValues(tail)
  {
    var e := CharValues(c) + tail;
    assert e[..1] == CharValues(c) && e[1..] == tail;
  }

  lemma DecodeEncodeTwo(c: char, tail: seq<int>)
    requires 0x80 <= c as int < 0x800 && AreByteValues(tail)
    ensures DecodeValues(CharValues(c) + tail) == [c] + DecodeValues(tail)
  {
    var e := CharValues(c) + tail;
    assert InRange(e[0], 1, e[1]);
    assert Matched(e, 2, 1) == 2;
    assert e[..2] == CharValues(c) && e[2..] == tail;
  }

  /** The base-64 digits of a code point, as CharValues takes them. */
  lemma Digits(cp: int)
    requires 0 <= cp
    ensures cp / 0x1000 == cp / 0x40 / 0x40
    ensures cp / 0x4_0000 == cp / 0x40 / 0x40 / 0x40
  {
    var a := cp / 0x40;
    var b := a / 0x40;
    assert cp == a * 0x40 + cp % 0x40;
    assert a == b * 0x40 + a % 0x40;
    assert cp == b * 0x1000 + (a % 0x40) * 0x40 + cp % 0x40;
    assert b == b / 0x40 * 0x40 + b % 0x40;
    assert cp == (b / 0x40) * 0x4_0000 + (b % 0x40) * 0x1000 + (a % 0x40) * 0x40 + cp % 0x40;
  }

  lemma DecodeEncodeThree(c: char, tail: seq<int>)
    requires 0x800 <= c as int < 0x1_0000 && AreByteValues(tail)
    ensures DecodeValues(CharValues(c) + tail) == [c] + DecodeValues(tail)
  {
    var cp := c as int;
    Digits(cp);
    var a := cp / 0x40;
    var b := a / 0x40;
    assert cp == b * 0x1000 + (a % 0x40) * 0x40 + cp % 0x40;
    var e := CharValues(c) + tail;
    assert e[0] == 0xE0 + b && e[1] == 0x80 + a % 0x40 && e[2] == 0x80 + cp % 0x40;
    assert InRange(e[0], 1, e[1]);
    assert InRange(e[0], 2, e[2]);
    assert Matched(e, 3, 1) == 3;
    assert e[..3] == CharValues(c) && e[3..] == tail;
    assert DecodeSequence(e[..3]) == c;
  }

  lemma DecodeEncodeFour(c: char, tail: seq<int>)
    requires 0x1_0000 <= c as int && AreByteValues(tail)
    ensures DecodeValues(CharValues(c) + tail) == [c] + DecodeValues(tail)
  {
    var cp := c as int;
    Digits(cp);
    var a := cp / 0x40;
    var b := a / 0x40;
    var d := b / 0x40;
    assert cp == d * 0x4_0000 + (b % 0x40) * 0x1000 + (a % 0x40) * 0x40 + cp % 0x40;
    var e := CharValues(c) + tail;
    assert e[0] == 0xF0 + d && e[1] == 0x80 + b % 0x40 && e[2] == 0x80 + a % 0x40 && e[3] == 0x80 + cp % 0x40;
    assert InRange(e[0], 1, e[1]);
    assert InRange(e[0], 2, e[2]);
    assert InRange(e[0], 3, e[3]);
    assert Matched(e, 4, 1) == 4;
    assert e[..4] == CharValues(c) && e[4..] == tail;
    assert DecodeSequence(e[..4]) == c;
  }

  /** Decoding the encoding of a character followed by anything yields the
      character, then the decoding of what follows. */
  lemma DecodeEncodeChar(c: char, tail: seq<byte>)
    ensures Decode(EncodeChar(c) + tail) == [c] + Decode(tail)
  {
    ValuesAppend(EncodeChar(c), tail);
    EncodeCharValues(c);
    if c as int < 0x80 {
      DecodeEncodeOne(c, Values(tail));
    } else if c as int < 0x800 {
      DecodeEncodeTwo(c, Values(tail));
    } else if c as int < 0x1_0000 {
      DecodeEncodeThree(c, Values(tail));
    } else {
      DecodeEncodeFour(c, Values(tail));
    }
  }

  /** GetString undoes GetBytes. */
  lemma {:induction false} DecodeEncode(s: string)
    ensures Decode(Encode(s)) == s
  {
    if |s| > 0 {
      DecodeEncodeChar(s[0], Encode(s[1..]));
      DecodeEncode(s[1..]);
    }
  }
}
