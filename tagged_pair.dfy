/** helpers.TaggedPair: a (tag, text) pair used as the mapper's key and
    value. Its equality is Lombok's structural equality over both fields,
    its order is compareTo, and write/readFields are its Hadoop wire form. */
module TaggedPairs {
  import opened Wrappers
  import opened JavaText
  import opened HadoopIo
  import opened Associations

  /** The contents of a TaggedPair. Datatype equality is the structural
      equality Lombok's @Data generates for the two fields; the text is the
      UTF-8 bytes a Hadoop Text holds. */
  datatype Pair = Pair(tag: Tag, text: seq<byte>)

  // ---------------------------------------------------------------------
  // compareTo

  /** compareTo: the tags' ordinal difference when the tags differ,
      otherwise Text.compareTo of the texts. The tag decides first,
      whatever the texts: Lexeme < Feature < Count. */
  function CompareTo(a: Pair, b: Pair): (r: int)
    ensures Ordinal(a.tag) < Ordinal(b.tag) ==> r < 0
    ensures Ordinal(a.tag) > Ordinal(b.tag) ==> r > 0
    ensures a.tag == b.tag ==> r == CompareBytes(a.text, b.text)
  {
    var byTag := Ordinal(a.tag) - Ordinal(b.tag);
    if byTag == 0 then CompareBytes(a.text, b.text) else byTag
  }

  /** compareTo agrees with equals: it is zero exactly for equal pairs. */
  lemma CompareZeroIffEqual(a: Pair, b: Pair)
    ensures CompareTo(a, b) == 0 <==> a == b
  {
    CompareBytesZero(a.text, b.text);
  }

  /** Swapping the operands negates the result, so the signs are opposite. */
  lemma CompareAntisymmetric(a: Pair, b: Pair)
    ensures CompareTo(a, b) == -CompareTo(b, a)
  {
    CompareBytesAntisymmetric(a.text, b.text);
  }

  lemma CompareTransitive(a: Pair, b: Pair, c: Pair)
    requires CompareTo(a, b) < 0 && CompareTo(b, c) < 0
    ensures CompareTo(a, c) < 0
  {
    if a.tag == b.tag == c.tag {
      CompareBytesTransitive(a.text, b.text, c.text);
    }
  }

  /** a sorts strictly before b. */
  predicate Less(a: Pair, b: Pair)
  {
    CompareTo(a, b) < 0
  }

  /** compareTo induces a strict total order on pairs: irreflexive,
      transitive, and any two distinct pairs are ordered one way. */
  lemma StrictTotalOrder()
    ensures forall a :: !Less(a, a)
    ensures forall a, b, c :: Less(a, b) && Less(b, c) ==> Less(a, c)
    ensures forall a, b :: a != b ==> Less(a, b) || Less(b, a)
  {
    forall a: Pair
      ensures !Less(a, a)
    {
      CompareZeroIffEqual(a, a);
    }
    forall a: Pair, b: Pair, c: Pair | Less(a, b) && Less(b, c)
      ensures Less(a, c)
    {
      CompareTransitive(a, b, c);
    }
    forall a: Pair, b: Pair | a != b
      ensures Less(a, b) || Less(b, a)
    {
      CompareZeroIffEqual(a, b);
      CompareAntisymmetric(a, b);
    }
  }

  // ---------------------------------------------------------------------
  // write / readFields

  /** What write puts on the stream: the tag's name as
      WritableUtils.writeString writes it, then the text as Text.write
      writes it. A Java Text holds at most INT_MAX bytes. */
  function Encode(p: Pair): (b: seq<byte>)
    requires |p.text| <= INT_MAX
    ensures 4 + |NameBytes(p.tag)| + |p.text| < |b|
    ensures b[4..4 + |NameBytes(p.tag)|] == NameBytes(p.tag)
    ensures b[|b| - |p.text|..] == p.text
  {
    EncodeString(NameBytes(p.tag)) + EncodeText(p.text)
  }

  /** Why readFields fails: a stream error, a null name
      (Tag.valueOf(null) throws), or a name that is not a Tag constant. */
  datatype ReadError = Io(cause: IoError) | NullTagName | UnknownTagName

  /** The first statement of readFields: read a string and look it up. */
  function DecodeTag(s: seq<byte>): (r: Result<Read<Tag>, ReadError>)
    ensures r.Success? ==> ReadString(s) == Success(Read(Some(NameBytes(r.value.value)), r.value.rest))
    ensures r == Failure(UnknownTagName) <==>
      ReadString(s).Success? && ReadString(s).value.value.Some? &&
      forall t :: ReadString(s).value.value.value != NameBytes(t)
  {
    match ReadString(s)
    case Failure(e) => Failure(Io(e))
    case Success(Read(None, _)) => Failure(NullTagName)
    case Success(Read(Some(name), rest)) =>
      match ValueOf(name)
      case None => Failure(UnknownTagName)
      case Some(t) => Success(Read(t, rest))
  }

  /** The second statement of readFields: Text.readFields. */
  function DecodeText(s: seq<byte>): (r: Result<Read<seq<byte>>, ReadError>)
    ensures r.Success? <==> ReadText(s).Success?
    ensures r.Success? ==> |s| > 0 && VIntSize(Signed(s[0])) <= |s| && s[VIntSize(Signed(s[0]))..] == r.value.value + r.value.rest
  {
    match ReadText(s)
    case Failure(e) => Failure(Io(e))
    case Success(r) => Success(r)
  }

  /** Both statements of readFields, in order. */
  function Decode(s: seq<byte>): (r: Result<Read<Pair>, ReadError>)
    ensures DecodeTag(s).Failure? ==> r == Failure(DecodeTag(s).error)
    ensures r.Success? ==> DecodeTag(s).Success? && r.value.value.tag == DecodeTag(s).value.value
    ensures r.Success? ==> |r.value.value.text| + |r.value.rest| < |s|
  {
    match DecodeTag(s)
    case Failure(e) => Failure(e)
    case Success(Read(t, rest)) =>
      match DecodeText(rest)
      case Failure(e) => Failure(e)
      case Success(Read(text, rest')) => Success(Read(Pair(t, text), rest'))
  }

  /** readFields consumes a prefix of the input: the text it returns and the
      bytes it leaves unread are the tail of what it was given. */
  lemma DecodeReadsPrefix(s: seq<byte>)
    ensures Decode(s).Success? ==>
      s[|s| - |Decode(s).value.value.text| - |Decode(s).value.rest|..] ==
        Decode(s).value.value.text + Decode(s).value.rest
  {
    if Decode(s).Success? {
      var afterTag := DecodeTag(s).value.rest;
      var k := |s| - |afterTag|;
      assert afterTag == s[k..];
      var size := VIntSize(Signed(afterTag[0]));
      assert afterTag[size..] == s[k + size..];
    }
  }

  /** readFields restores exactly what write wrote and consumes nothing
      after it. */
  lemma RoundTrip(p: Pair, rest: seq<byte>)
    requires |p.text| <= INT_MAX
    ensures Decode(Encode(p) + rest) == Success(Read(p, rest))
  {
    var afterName := EncodeText(p.text) + rest;
    assert Encode(p) + rest == EncodeString(NameBytes(p.tag)) + afterName;
    StringRoundTrip(NameBytes(p.tag), afterName);
    TextRoundTrip(p.text, rest);
  }

  /** readFields rejects any name other than the three constants', before
      it reads the text. */
  lemma UnknownNameRejected(name: seq<byte>, rest: seq<byte>)
    requires |name| <= INT_MAX
    requires forall t :: name != NameBytes(t)
    ensures Decode(EncodeString(name) + rest) == Failure(UnknownTagName)
  {
    StringRoundTrip(name, rest);
  }

  // ---------------------------------------------------------------------
  // The object

  /** A TaggedPair object, whose fields readFields overwrites in place. */
  class TaggedPair {
    var tag: Tag
    var text: seq<byte>

    /** TaggedPair.of, the all-arguments constructor. */
    constructor Of(tag: Tag, text: seq<byte>)
      ensures this.tag == tag && this.text == text
    {
      this.tag := tag;
      this.text := text;
    }

    function Value(): Pair
      reads this
    {
      Pair(tag, text)
    }

    /** write: the tag's name, then the text. */
    method Write(output: DataOutput)
      requires |text| <= INT_MAX
      modifies output
      ensures output.written == old(output.written) + Encode(Value())
    {
      ghost var start := output.written;
      var name := EncodeString(NameBytes(tag));
      var body := EncodeText(text);
      output.Write(name);
      output.Write(body);
      AppendTwo(start, name, body);
    }

    /** readFields: the tag is assigned as soon as the name has been read,
        so a failure while reading the text leaves the new tag in place.
        Whatever a failing read has consumed stays consumed. */
    method ReadFields(input: DataInput) returns (failure: Option<ReadError>)
      modifies this, input
      ensures match DecodeTag(old(input.unread))
        case Failure(e) =>
          failure == Some(e) && tag == old(tag) && text == old(text) &&
          input.unread == StringEnd(old(input.unread))
        case Success(Read(newTag, afterTag)) =>
          tag == newTag &&
          match DecodeText(afterTag)
          case Failure(e) => failure == Some(e) && input.unread == TextEnd(afterTag)
          case Success(Read(newText, rest)) =>
            failure == None && text == newText && input.unread == rest
      ensures failure == None <==> Decode(old(input.unread)).Success?
      ensures failure == None ==> Decode(old(input.unread)) == Success(Read(Value(), input.unread))
    {
      var name := DecodeTag(input.unread);
      if name.Failure? {
        input.unread := StringEnd(input.unread);
        return Some(name.error);
      }
      tag := name.value.value;
      input.unread := name.value.rest;
      var body := DecodeText(input.unread);
      if body.Failure? {
        input.unread := TextEnd(input.unread);
        return Some(body.error);
      }
      text := body.value.value;
      input.unread := body.value.rest;
      failure := None;
    }
  }

  lemma AppendTwo(start: seq<byte>, a: seq<byte>, b: seq<byte>)
    ensures start + a + b == start + (a + b)
  {
  }

  /** A pair written to a stream and read back into another object by
      readFields comes back equal. */
  method WriteThenReadFields(p: TaggedPair) returns (q: TaggedPair)
    requires |p.text| <= INT_MAX
    ensures q.Value() == p.Value()
  {
    var output := new DataOutput();
    p.Write(output);
    var input := new DataInput(output.written);
    q := new TaggedPair.Of(Lexeme, []);
    RoundTrip(p.Value(), []);
    assert input.unread == Encode(p.Value()) + [];
    var failure := q.ReadFields(input);
  }
}
