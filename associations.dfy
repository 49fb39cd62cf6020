/** The Tag enumeration of associations.Associations, which names the role
    of a key or value: a lexeme, a feature, or a count. */
module Associations {
  import opened Wrappers
  import opened JavaText

  /** The constants in declaration order. */
  datatype Tag = Lexeme | Feature | Count

  /** Enum.ordinal(): the position in the declaration. */
  function Ordinal(t: Tag): (o: nat)
    ensures o < 3
    ensures o == 0 <==> t == Lexeme
    ensures o == 1 <==> t == Feature
    ensures o == 2 <==> t == Count
  {
    match t
    case Lexeme => 0
    case Feature => 1
    case Count => 2
  }

  /** Enum.toString() and name(). */
  function Name(t: Tag): (n: string)
    ensures 5 <= |n| <= 7
    ensures forall i :: 0 <= i < |n| ==> n[i] as int < 0x80
  {
    match t
    case Lexeme => "Lexeme"
    case Feature => "Feature"
    case Count => "Count"
  }

  /** The bytes WritableUtils.writeString writes for a constant's name,
      spelled out; NameBytesAreUtf8 shows they are its UTF-8 encoding. */
  function NameBytes(t: Tag): (b: seq<byte>)
    ensures |b| == |Name(t)| <= 7
  {
    match t
    case Lexeme => [0x4C, 0x65, 0x78, 0x65, 0x6D, 0x65]
    case Feature => [0x46, 0x65, 0x61, 0x74, 0x75, 0x72, 0x65]
    case Count => [0x43, 0x6F, 0x75, 0x6E, 0x74]
  }

  lemma NameBytesAreUtf8(t: Tag)
    ensures NameBytes(t) == Utf8(Name(t))
  {
    Utf8Ascii(Name(t));
  }

  /** Enum.valueOf applied to the string a byte string decodes to: the
      constant whose name it spells, or None for the
      IllegalArgumentException. A byte string that is not valid UTF-8
      decodes with replacement characters, which no name contains, so
      comparing bytes with the names' encodings decides the same way. */
  function ValueOf(b: seq<byte>): (r: Option<Tag>)
    ensures forall t :: r == Some(t) <==> b == NameBytes(t)
  {
    NameBytesDistinct();
    if b == NameBytes(Lexeme) then Some(Lexeme)
    else if b == NameBytes(Feature) then Some(Feature)
    else if b == NameBytes(Count) then Some(Count)
    else None
  }

  lemma NameBytesDistinct()
    ensures forall t, u :: NameBytes(t) == NameBytes(u) ==> t == u
  {
    forall t, u | NameBytes(t) == NameBytes(u)
      ensures t == u
    {
      assert NameBytes(t)[0] == NameBytes(u)[0];
    }
  }
}
