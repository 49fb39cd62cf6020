/** The parts of Hadoop's I/O library that TaggedPair relies on: the byte
    order of Text.compareTo, the variable-length integers of WritableUtils,
    the four-byte lengths of DataOutput.writeInt, and the streams a
    Writable writes to and reads from. */
module HadoopIo {
  import opened Wrappers
  import opened JavaText

  // ---------------------------------------------------------------------
  // Text.compareTo

  /** WritableComparator.compareBytes over the bytes of two Text values:
      the difference of the first pair of bytes that differ, each read
      unsigned, or else the difference of the lengths. */
  function CompareBytes(a: seq<byte>, b: seq<byte>): (r: int)
    ensures a <= b ==> r == |a| - |b|
  {
    if |a| == 0 || |b| == 0 then |a| - |b|
    else if a[0] != b[0] then a[0] as int - b[0] as int
    else CompareBytes(a[1..], b[1..])
  }

  /** Past a common prefix of length k, the first differing bytes decide
      the comparison, each read unsigned. */
  lemma {:induction false} CompareBytesFirstDifference(a: seq<byte>, b: seq<byte>, k: nat)
    requires k < |a| && k < |b| && a[..k] == b[..k] && a[k] != b[k]
    ensures CompareBytes(a, b) == a[k] as int - b[k] as int
  {
    if k > 0 {
      assert a[0] == a[..k][0] == b[..k][0] == b[0];
      assert a[1..][..k - 1] == a[1..k] == b[1..k] == b[1..][..k - 1];
      CompareBytesFirstDifference(a[1..], b[1..], k - 1);
    }
  }

  lemma {:induction false} CompareBytesAntisymmetric(a: seq<byte>, b: seq<byte>)
    ensures CompareBytes(a, b) == -CompareBytes(b, a)
  {
    if |a| > 0 && |b| > 0 && a[0] == b[0] {
      CompareBytesAntisymmetric(a[1..], b[1..]);
    }
  }

  lemma {:induction false} CompareBytesZero(a: seq<byte>, b: seq<byte>)
    ensures CompareBytes(a, b) == 0 <==> a == b
  {
    if |a| > 0 && |b| > 0 && a[0] == b[0] {
      CompareBytesZero(a[1..], b[1..]);
      assert a == [a[0]] + a[1..] && b == [b[0]] + b[1..];
    }
  }

  lemma {:induction false} CompareBytesTransitive(a: seq<byte>, b: seq<byte>, c: seq<byte>)
    requires CompareBytes(a, b) < 0 && CompareBytes(b, c) < 0
    ensures CompareBytes(a, c) < 0
  {
    if |a| > 0 && |b| > 0 && |c| > 0 && a[0] == b[0] == c[0] {
      CompareBytesTransitive(a[1..], b[1..], c[1..]);
    }
  }

  // ---------------------------------------------------------------------
  // Big-endian unsigned numbers

  function Pow256(k: nat): (p: nat)
    ensures p >= 1
  {
    if k == 0 then 1 else 0x100 * Pow256(k - 1)
  }

  /** The k bytes of n, most significant first. */
  function BigEndian(n: nat, k: nat): (b: seq<byte>)
    requires n < Pow256(k)
    ensures |b| == k
  {
    if k == 0 then []
    else BigEndian(n / 0x100, k - 1) + [(n % 0x100) as byte]
  }

  function FromBigEndian(b: seq<byte>): (n: nat)
    ensures n < Pow256(|b|)
  {
    if |b| == 0 then 0 else FromBigEndian(b[..|b| - 1]) * 0x100 + b[|b| - 1] as int
  }

  lemma {:induction false} Pow256Monotone(j: nat, k: nat)
    requires j <= k
    ensures Pow256(j) <= Pow256(k)
    decreases k
  {
    if j < k {
      Pow256Monotone(j, k - 1);
    }
  }

  lemma {:induction false} BigEndianRoundTrip(n: nat, k: nat)
    requires n < Pow256(k)
    ensures FromBigEndian(BigEndian(n, k)) == n
  {
    if k > 0 {
      BigEndianRoundTrip(n / 0x100, k - 1);
      var b := BigEndian(n, k);
      assert b[..|b| - 1] == BigEndian(n / 0x100, k - 1);
    }
  }

  // ---------------------------------------------------------------------
  // Reading: results, errors, and the primitive reads

  /** A value read from a stream, with the bytes left unread after it. */
  datatype Read<+T> = Read(value: T, rest: seq<byte>)

  /** EOFException, the IOException of readVInt for a value wider than an
      int, and the exception a negative length raises. */
  datatype IoError = EndOfFile | VIntTooLong | NegativeLength

  /** DataInput.readFully of n bytes. */
  function ReadFully(s: seq<byte>, n: nat): (r: Result<Read<seq<byte>>, IoError>)
    ensures r.Success? <==> n <= |s|
    ensures r.Success? ==> r.value.value + r.value.rest == s && |r.value.value| == n
  {
    if |s| < n then Failure(EndOfFile) else Success(Read(s[..n], s[n..]))
  }

  // ---------------------------------------------------------------------
  // DataOutput.writeInt / DataInput.readInt

  /** writeInt of a non-negative int: four bytes, most significant first. */
  function EncodeInt(n: int): (b: seq<byte>)
    requires 0 <= n <= INT_MAX
    ensures |b| == 4 && FromBigEndian(b) == n
  {
    BigEndianRoundTrip(n, 4);
    BigEndian(n, 4)
  }

  /** readInt: four bytes, most significant first, two's complement. */
  function ReadInt(s: seq<byte>): (r: Result<Read<int>, IoError>)
    ensures r.Success? <==> |s| >= 4
    ensures r.Success? ==> INT_MIN <= r.value.value <= INT_MAX && r.value.rest == s[4..]
  {
    if |s| < 4 then Failure(EndOfFile)
    else
      var u := FromBigEndian(s[..4]);
      Success(Read(if u > INT_MAX then u - 0x1_0000_0000 else u, s[4..]))
  }

  lemma IntRoundTrip(n: int, rest: seq<byte>)
    requires 0 <= n <= INT_MAX
    ensures ReadInt(EncodeInt(n) + rest) == Success(Read(n, rest))
  {
    BigEndianRoundTrip(n, 4);
    var e := EncodeInt(n);
    assert (e + rest)[..4] == e && (e + rest)[4..] == rest;
  }

  // ---------------------------------------------------------------------
  // WritableUtils.writeVInt / readVInt

  /** writeVInt of a non-negative int: one byte for 0..127; otherwise a
      first byte -112 - k (read unsigned, 0x90 - k) and then the k bytes of
      the value, most significant first, k as small as possible. */
  function EncodeVInt(n: int): (b: seq<byte>)
    requires 0 <= n <= INT_MAX
    ensures 1 <= |b| <= 5 && |b| == VIntSize(Signed(b[0]))
    ensures |b| == 1 <==> n <= 0x7F
  {
    if n <= 0x7F then [n as byte]
    else
      var k := if n < 0x100 then 1 else if n < 0x1_0000 then 2 else if n < 0x100_0000 then 3 else 4;
      [(0x90 - k) as byte] + BigEndian(n, k)
  }

  /** A byte as Java sees it, two's complement. */
  function Signed(b: byte): int
  {
    if b < 0x80 then b as int else b as int - 0x100
  }

  /** WritableUtils.decodeVIntSize: the total length of a variable-length
      integer, read from its first byte. */
  function VIntSize(first: int): (size: nat)
    ensures -0x80 <= first ==> 1 <= size <= 9
  {
    if first >= -112 then 1 else if first < -120 then -119 - first else -111 - first
  }

  /** WritableUtils.isNegativeVInt. */
  predicate IsNegativeVInt(first: int)
  {
    first < -120 || (-112 <= first < 0)
  }

  /** WritableUtils.readVLong. The bytes after the first fill a long, most
      significant first; a negative number is stored complemented. */
  function ReadVLong(s: seq<byte>): (r: Result<Read<int>, IoError>)
    ensures r.Success? <==> |s| > 0 && VIntSize(Signed(s[0])) <= |s|
    ensures r.Success? ==> r.value.rest == s[VIntSize(Signed(s[0]))..]
    ensures r.Success? ==> LONG_MIN <= r.value.value <= LONG_MAX
  {
    if |s| == 0 then Failure(EndOfFile)
    else
      var first := Signed(s[0]);
      var size := VIntSize(first);
      if size == 1 then Success(Read(first, s[1..]))
      else if |s| < size then Failure(EndOfFile)
      else
        var u := FromBigEndian(s[1..size]);
        Pow256Monotone(size - 1, 8);
        assert Pow256(8) == 0x1_0000_0000_0000_0000;
        var i := if u > LONG_MAX then u - 0x1_0000_0000_0000_0000 else u;
        Success(Read(if IsNegativeVInt(first) then -i - 1 else i, s[size..]))
  }

  /** WritableUtils.readVInt: readVLong, then an IOException for a value
      that does not fit in an int. */
  function ReadVInt(s: seq<byte>): (r: Result<Read<int>, IoError>)
    ensures r.Success? ==> INT_MIN <= r.value.value <= INT_MAX
    ensures r.Success? ==> |s| > 0 && VIntSize(Signed(s[0])) <= |s| && r.value.rest == s[VIntSize(Signed(s[0]))..]
  {
    match ReadVLong(s)
    case Failure(e) => Failure(e)
    case Success(Read(v, rest)) =>
      if v < INT_MIN || v > INT_MAX then Failure(VIntTooLong) else Success(Read(v, rest))
  }

  lemma VIntRoundTrip(n: int, rest: seq<byte>)
    requires 0 <= n <= INT_MAX
    ensures ReadVInt(EncodeVInt(n) + rest) == Success(Read(n, rest))
  {
    var e := EncodeVInt(n);
    var s := e + rest;
    if n <= 0x7F {
      assert s[1..] == rest;
    } else {
      var k := |e| - 1;
      assert Pow256(4) == 0x1_0000_0000;
      BigEndianRoundTrip(n, k);
      assert s[1..k + 1] == e[1..] == BigEndian(n, k);
      assert s[k + 1..] == rest;
    }
  }

  // ---------------------------------------------------------------------
  // Strings and Text on the wire

  /** WritableUtils.writeString of a string whose UTF-8 bytes are b. */
  function EncodeString(b: seq<byte>): (r: seq<byte>)
    requires |b| <= INT_MAX
    ensures |r| == 4 + |b| && r[4..] == b
  {
    EncodeInt(|b|) + b
  }

  /** WritableUtils.readString: a four-byte length, -1 meaning null
      (None), and that many bytes. */
  function ReadString(s: seq<byte>): (r: Result<Read<Option<seq<byte>>>, IoError>)
    ensures r.Success? ==> |s| >= 4
    ensures r.Success? && r.value.value.None? ==> r.value.rest == s[4..]
    ensures r.Success? && r.value.value.Some? ==> s[4..] == r.value.value.value + r.value.rest
  {
    match ReadInt(s)
    case Failure(e) => Failure(e)
    case Success(Read(n, rest)) =>
      if n == -1 then Success(Read(None, rest))
      else if n < 0 then Failure(NegativeLength)
      else match ReadFully(rest, n)
        case Failure(e) => Failure(e)
        case Success(Read(b, rest')) => Success(Read(Some(b), rest'))
  }

  /** The bytes readString leaves unread, whether it returns or throws.
      DataInputStream's readInt and readFully read until the stream ends
      before they throw EOFException, so end of file leaves nothing unread;
      a negative length other than -1 is refused after its four bytes. */
  function StringEnd(s: seq<byte>): (u: seq<byte>)
    ensures |u| <= |s| && u == s[|s| - |u|..]
    ensures ReadString(s).Success? ==> u == ReadString(s).value.rest
    ensures ReadString(s) == Failure(EndOfFile) ==> u == []
    ensures ReadString(s) == Failure(NegativeLength) ==> |s| >= 4 && u == s[4..]
  {
    if |s| < 4 then []
    else
      match ReadString(s)
      case Success(Read(_, rest)) => rest
      case Failure(EndOfFile) => []
      case Failure(_) => s[4..]
  }

  lemma StringRoundTrip(b: seq<byte>, rest: seq<byte>)
    requires |b| <= INT_MAX
    ensures ReadString(EncodeString(b) + rest) == Success(Read(Some(b), rest))
  {
    IntRoundTrip(|b|, b + rest);
    assert EncodeString(b) + rest == EncodeInt(|b|) + (b + rest);
    assert (b + rest)[..|b|] == b && (b + rest)[|b|..] == rest;
  }

  /** Text.write: the length as a variable-length integer, then the bytes. */
  function EncodeText(b: seq<byte>): (r: seq<byte>)
    requires |b| <= INT_MAX
    ensures |b| < |r| <= |b| + 5 && r[|r| - |b|..] == b
  {
    EncodeVInt(|b|) + b
  }

  /** Text.readFields: a variable-length length, then that many bytes. */
  function ReadText(s: seq<byte>): (r: Result<Read<seq<byte>>, IoError>)
    ensures r.Success? ==> |s| > 0 && VIntSize(Signed(s[0])) <= |s| && s[VIntSize(Signed(s[0]))..] == r.value.value + r.value.rest
  {
    match ReadVInt(s)
    case Failure(e) => Failure(e)
    case Success(Read(n, rest)) =>
      if n < 0 then Failure(NegativeLength) else ReadFully(rest, n)
  }

  /** The bytes Text.readFields leaves unread, whether it returns or
      throws: nothing after end of file, and the bytes after the length
      when the length is too wide for an int or negative. */
  function TextEnd(s: seq<byte>): (u: seq<byte>)
    ensures |u| <= |s| && u == s[|s| - |u|..]
    ensures ReadText(s).Success? ==> u == ReadText(s).value.rest
    ensures ReadText(s) == Failure(EndOfFile) ==> u == []
    ensures ReadText(s) in {Failure(VIntTooLong), Failure(NegativeLength)} ==>
      |s| > 0 && VIntSize(Signed(s[0])) <= |s| && u == s[VIntSize(Signed(s[0]))..]
  {
    if |s| == 0 || |s| < VIntSize(Signed(s[0])) then []
    else
      match ReadText(s)
      case Success(Read(_, rest)) => rest
      case Failure(EndOfFile) => []
      case Failure(_) => s[VIntSize(Signed(s[0]))..]
  }

  lemma TextRoundTrip(b: seq<byte>, rest: seq<byte>)
    requires |b| <= INT_MAX
    ensures ReadText(EncodeText(b) + rest) == Success(Read(b, rest))
  {
    VIntRoundTrip(|b|, b + rest);
    assert EncodeText(b) + rest == EncodeVInt(|b|) + (b + rest);
    assert (b + rest)[..|b|] == b && (b + rest)[|b|..] == rest;
  }

  // ---------------------------------------------------------------------
  // Streams

  /** A DataOutput: the bytes written to it so far. */
  class DataOutput {
    var written: seq<byte>

    constructor ()
      ensures written == []
    {
      written := [];
    }

    method Write(b: seq<byte>)
      modifies this
      ensures written == old(written) + b
    {
      written := written + b;
    }
  }

  /** A DataInput: the bytes not read yet. */
  class DataInput {
    var unread: seq<byte>

    constructor (data: seq<byte>)
      ensures unread == data
    {
      unread := data;
    }
  }
}
