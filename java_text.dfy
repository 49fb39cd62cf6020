/** The java.lang string behaviour the mapper depends on: String.split with a
    one-character delimiter, Integer.parseInt, Long.parseLong,
    String.valueOf(long), and the UTF-8 bytes Hadoop's Text stores for a
    String. */
module JavaText {
  import opened Wrappers

  const INT_MIN: int := -0x8000_0000
  const INT_MAX: int := 0x7FFF_FFFF
  const LONG_MIN: int := -0x8000_0000_0000_0000
  const LONG_MAX: int := 0x7FFF_FFFF_FFFF_FFFF

  /** Java's byte, read unsigned (the way Hadoop compares and decodes it). */
  newtype byte = b: int | 0 <= b < 0x100

  // ---------------------------------------------------------------------
  // String.split

  /** Every piece of s between occurrences of d, empty pieces included. */
  function SplitAll(s: string, d: char): (pieces: seq<string>)
    ensures |pieces| >= 1
    ensures forall i :: 0 <= i < |pieces| ==> d !in pieces[i]
    decreases |s|
  {
    if |s| == 0 then [""]
    else
      var rest := SplitAll(s[1..], d);
      if s[0] == d then [""] + rest
      else [[s[0]] + rest[0]] + rest[1..]
  }

  /** The pieces glued back together with d between neighbours. */
  function Join(pieces: seq<string>, d: char): string
  {
    if |pieces| == 0 then ""
    else if |pieces| == 1 then pieces[0]
    else pieces[0] + [d] + Join(pieces[1..], d)
  }

  /** SplitAll loses nothing: joining its pieces gives back the input. */
  lemma {:induction false} JoinSplitAll(s: string, d: char)
    ensures Join(SplitAll(s, d), d) == s
    decreases |s|
  {
    if |s| > 0 {
      var rest := SplitAll(s[1..], d);
      JoinSplitAll(s[1..], d);
      if s[0] == d {
        JoinEmptyFirst(rest, d);
      } else {
        JoinExtendFirst(s[0], rest, d);
      }
      assert s == [s[0]] + s[1..];
    }
  }

  /** An empty first piece contributes just a delimiter. */
  lemma JoinEmptyFirst(pieces: seq<string>, d: char)
    requires |pieces| >= 1
    ensures Join([""] + pieces, d) == [d] + Join(pieces, d)
  {
    assert ([""] + pieces)[1..] == pieces;
  }

  /** A character in front of the first piece comes first in the join. */
  lemma JoinExtendFirst(c: char, pieces: seq<string>, d: char)
    requires |pieces| >= 1
    ensures Join([[c] + pieces[0]] + pieces[1..], d) == [c] + Join(pieces, d)
  {
    var extended := [[c] + pieces[0]] + pieces[1..];
    if |pieces| > 1 {
      assert extended[1..] == pieces[1..];
    }
  }

  function DropTrailingEmpty(pieces: seq<string>): (r: seq<string>)
    ensures |r| <= |pieces| && r == pieces[..|r|]
    ensures r == [] || r[|r| - 1] != ""
    ensures forall i :: |r| <= i < |pieces| ==> pieces[i] == ""
  {
    if |pieces| == 0 then []
    else if pieces[|pieces| - 1] == "" then DropTrailingEmpty(pieces[..|pieces| - 1])
    else pieces
  }

  lemma {:induction false} DropAllEmpty(pieces: seq<string>)
    requires forall i :: 0 <= i < |pieces| ==> pieces[i] == ""
    ensures DropTrailingEmpty(pieces) == []
  {
    if |pieces| > 0 {
      DropAllEmpty(pieces[..|pieces| - 1]);
    }
  }

  /** s.split(d) for a delimiter that is not a regular-expression
      metacharacter, with Java's default limit 0: when d occurs, trailing
      empty pieces are removed; when it does not, the result is [s], even
      for the empty string. */
  function Split(s: string, d: char): (r: seq<string>)
    ensures forall i :: 0 <= i < |r| ==> d !in r[i]
    ensures d !in s ==> r == [s]
    ensures d in s ==> |r| <= |SplitAll(s, d)| && r == SplitAll(s, d)[..|r|]
    ensures d in s ==> forall i :: |r| <= i < |SplitAll(s, d)| ==> SplitAll(s, d)[i] == ""
    ensures d in s ==> r == [] || r[|r| - 1] != ""
  {
    if d in s then DropTrailingEmpty(SplitAll(s, d)) else [s]
  }

  /** s is made of d alone (vacuously so when empty). */
  predicate OnlyDelimiters(s: string, d: char)
  {
    forall i :: 0 <= i < |s| ==> s[i] == d
  }

  lemma {:induction false} SplitAllEmptyPieces(s: string, d: char)
    ensures (forall i :: 0 <= i < |SplitAll(s, d)| ==> SplitAll(s, d)[i] == "") <==> OnlyDelimiters(s, d)
    decreases |s|
  {
    if |s| > 0 {
      SplitAllEmptyPieces(s[1..], d);
      var rest := SplitAll(s[1..], d);
      if s[0] == d {
        var all := SplitAll(s, d);
        assert all == [""] + rest;
        if forall i :: 0 <= i < |all| ==> all[i] == "" {
          assert forall i :: 0 <= i < |rest| ==> rest[i] == all[i + 1];
          assert forall i :: 1 <= i < |s| ==> s[i] == s[1..][i - 1];
        }
        if OnlyDelimiters(s, d) {
          assert forall i :: 0 <= i < |s| - 1 ==> s[1..][i] == s[i + 1];
          assert forall i :: 1 <= i < |all| ==> all[i] == rest[i - 1];
        }
      } else {
        assert SplitAll(s, d)[0] != "";
      }
    }
  }

  /** split returns no piece at all exactly for a non-empty string made of
      the delimiter alone. */
  lemma SplitEmptyIffOnlyDelimiters(s: string, d: char)
    ensures |Split(s, d)| == 0 <==> |s| > 0 && OnlyDelimiters(s, d)
  {
    var r := Split(s, d);
    var all := SplitAll(s, d);
    SplitAllEmptyPieces(s, d);
    if |s| > 0 && OnlyDelimiters(s, d) {
      assert s[0] == d;
      assert (forall i :: 0 <= i < |SplitAll(s, d)| ==> SplitAll(s, d)[i] == "") <==> OnlyDelimiters(s, d);
      assert forall i :: 0 <= i < |SplitAll(s, d)| ==> SplitAll(s, d)[i] == "";
      DropAllEmpty(all);
    }
    if |r| == 0 {
      assert d in s;
      assert forall i :: 0 <= i < |all| ==> all[i] == "";
    }
  }

  // ---------------------------------------------------------------------
  // int arithmetic

  /** The int that Java's 32-bit two's-complement arithmetic yields for the
      mathematical result x. */
  function WrapInt(x: int): (r: int)
    ensures INT_MIN <= r <= INT_MAX
    ensures INT_MIN <= x <= INT_MAX ==> r == x
    ensures (r - x) % 0x1_0000_0000 == 0
  {
    (x - INT_MIN) % 0x1_0000_0000 + INT_MIN
  }

  // ---------------------------------------------------------------------
  // Integer.parseInt, Long.parseLong, String.valueOf(long)

  predicate IsDigit(c: char) { '0' <= c <= '9' }

  predicate AllDigits(s: string) { forall i :: 0 <= i < |s| ==> IsDigit(s[i]) }

  function DigitValue(c: char): nat
    requires IsDigit(c)
  {
    (c as int) - ('0' as int)
  }

  function DigitChar(n: nat): (c: char)
    requires n < 10
    ensures IsDigit(c) && DigitValue(c) == n
  {
    (('0' as int) + n) as char
  }

  /** The value of a string of decimal digits, most significant first. */
  function DigitsValue(s: string): nat
    requires AllDigits(s)
  {
    if |s| == 0 then 0 else DigitsValue(s[..|s| - 1]) * 10 + DigitValue(s[|s| - 1])
  }

  /** The grammar both parseInt and parseLong accept: an optional '+' or
      '-' and then at least one decimal digit; the value before the range
      check. */
  function ParseSigned(s: string): Option<int>
  {
    if |s| == 0 then None
    else
      var body := if s[0] == '-' || s[0] == '+' then s[1..] else s;
      if |body| == 0 || !AllDigits(body) then None
      else if s[0] == '-' then Some(-(DigitsValue(body) as int))
      else Some(DigitsValue(body))
  }

  /** Integer.parseInt: None stands for NumberFormatException. */
  function ParseInt(s: string): (r: Option<int>)
    ensures r.Some? ==> INT_MIN <= r.value <= INT_MAX
  {
    match ParseSigned(s)
    case Some(v) => if INT_MIN <= v <= INT_MAX then Some(v) else None
    case None => None
  }

  /** Long.parseLong: None stands for NumberFormatException. */
  function ParseLong(s: string): (r: Option<int>)
    ensures r.Some? ==> LONG_MIN <= r.value <= LONG_MAX
  {
    match ParseSigned(s)
    case Some(v) => if LONG_MIN <= v <= LONG_MAX then Some(v) else None
    case None => None
  }

  /** The decimal digits of n with no leading zero. */
  function NatToString(n: nat): (s: string)
    ensures |s| >= 1 && AllDigits(s)
    ensures |s| > 1 ==> s[0] != '0'
  {
    if n < 10 then [DigitChar(n)] else NatToString(n / 10) + [DigitChar(n % 10)]
  }

  /** String.valueOf(long): a '-' only for negative values, no '+', no
      leading zero. */
  function LongToString(n: int): (s: string)
    ensures |s| >= 1 && (s[0] == '-' <==> n < 0)
  {
    if n < 0 then "-" + NatToString(-n) else NatToString(n)
  }

  lemma {:induction false} NatToStringValue(n: nat)
    ensures DigitsValue(NatToString(n)) == n
  {
    if n >= 10 {
      var s := NatToString(n);
      NatToStringValue(n / 10);
      assert s[..|s| - 1] == NatToString(n / 10);
    }
  }

  /** Long.parseLong reads back what String.valueOf(long) prints. */
  lemma LongRoundTrip(n: int)
    requires LONG_MIN <= n <= LONG_MAX
    ensures ParseLong(LongToString(n)) == Some(n)
  {
    if n < 0 {
      NegativeRoundTrip(-n);
    } else {
      NonNegativeRoundTrip(n);
    }
  }

  lemma NonNegativeRoundTrip(m: nat)
    ensures ParseSigned(NatToString(m)) == Some(m)
  {
    NatToStringValue(m);
    assert IsDigit(NatToString(m)[0]);
  }

  lemma NegativeRoundTrip(m: nat)
    requires 0 < m
    ensures ParseSigned("-" + NatToString(m)) == Some(-(m as int))
  {
    var s := "-" + NatToString(m);
    NatToStringValue(m);
    assert s[1..] == NatToString(m);
  }

  /** Integer.parseInt reads back the decimal form of every int. */
  lemma ParseIntRoundTrip(n: int)
    requires INT_MIN <= n <= INT_MAX
    ensures ParseInt(LongToString(n)) == Some(n)
  {
    LongRoundTrip(n);
  }

  /** String.valueOf(Long.parseLong(s)) is canonical: it may differ from s
      ("+007" prints as "7"), but it parses to the same value. */
  lemma ReprintIsCanonical(s: string)
    requires ParseLong(s).Some?
    ensures ParseLong(LongToString(ParseLong(s).value)) == ParseLong(s)
    ensures var t := LongToString(ParseLong(s).value);
      t[0] != '+' && (t[0] == '-' ==> t[1] != '0') && (|t| > 1 && t[0] != '-' ==> t[0] != '0')
  {
    LongRoundTrip(ParseLong(s).value);
  }

  // ---------------------------------------------------------------------
  // UTF-8

  /** The UTF-8 bytes of one Unicode scalar value. */
  function EncodeChar(c: char): (b: seq<byte>)
    ensures 1 <= |b| <= 4
  {
    var cp := c as int;
    if cp < 0x80 then [cp as byte]
    else if cp < 0x800 then [(0xC0 + cp / 0x40) as byte, (0x80 + cp % 0x40) as byte]
    else if cp < 0x1_0000 then
      [(0xE0 + cp / 0x1000) as byte, (0x80 + cp / 0x40 % 0x40) as byte, (0x80 + cp % 0x40) as byte]
    else
      [(0xF0 + cp / 0x4_0000) as byte, (0x80 + cp / 0x1000 % 0x40) as byte,
       (0x80 + cp / 0x40 % 0x40) as byte, (0x80 + cp % 0x40) as byte]
  }

  /** The UTF-8 bytes of a string: what new Text(s) stores and what
      s.getBytes("UTF-8") returns. */
  function Utf8(s: string): (b: seq<byte>)
    ensures |s| <= |b| <= 4 * |s|
  {
    if |s| == 0 then [] else EncodeChar(s[0]) + Utf8(s[1..])
  }

  // ---------------------------------------------------------------------
  // UTF-16

  /** The number of UTF-16 code units of a string, what toCharArray().length
      gives: two for a character outside the Basic Multilingual Plane, one
      for any other. */
  function Utf16Length(s: string): (n: nat)
    ensures |s| <= n <= 2 * |s|
    ensures (forall i :: 0 <= i < |s| ==> s[i] as int < 0x1_0000) ==> n == |s|
  {
    if |s| == 0 then 0
    else
      assert forall i :: 1 <= i < |s| ==> s[1..][i - 1] == s[i];
      (if s[0] as int >= 0x1_0000 then 2 else 1) + Utf16Length(s[1..])
  }

  /** A string of ASCII characters encodes to one byte per character, the
      character's own code. */
  lemma {:induction false} Utf8Ascii(s: string)
    requires forall i :: 0 <= i < |s| ==> s[i] as int < 0x80
    ensures |Utf8(s)| == |s|
    ensures forall i :: 0 <= i < |s| ==> Utf8(s)[i] as int == s[i] as int
  {
    if |s| > 0 {
      Utf8Ascii(s[1..]);
      assert forall i :: 1 <= i < |s| ==> s[i] == s[1..][i - 1];
    }
  }

  /** The number of bytes of a UTF-8 sequence, read from its first byte. */
  function SequenceLength(lead: byte): nat
  {
    if lead < 0x80 then 1 else if lead < 0xE0 then 2 else if lead < 0xF0 then 3 else 4
  }

  /** The scalar value a well-formed UTF-8 sequence of 1 to 4 bytes encodes. */
  function ScalarOf(e: seq<byte>): int
    requires 1 <= |e| <= 4
  {
    if |e| == 1 then e[0] as int
    else if |e| == 2 then (e[0] as int - 0xC0) * 0x40 + (e[1] as int - 0x80)
    else if |e| == 3 then
      (e[0] as int - 0xE0) * 0x1000 + (e[1] as int - 0x80) * 0x40 + (e[2] as int - 0x80)
    else
      (e[0] as int - 0xF0) * 0x4_0000 + (e[1] as int - 0x80) * 0x1000
      + (e[2] as int - 0x80) * 0x40 + (e[3] as int - 0x80)
  }

  /** The first byte of an encoded character gives its length, and its
      bytes give back the character. */
  lemma EncodeCharDecodes(c: char)
    ensures SequenceLength(EncodeChar(c)[0]) == |EncodeChar(c)|
    ensures ScalarOf(EncodeChar(c)) == c as int
  {
    var cp := c as int;
    if cp < 0x80 {
    } else if cp < 0x800 {
      DecodesTwoBytes(c);
    } else if cp < 0x1_0000 {
      DecodesThreeBytes(c);
    } else {
      DecodesFourBytes(c);
    }
  }

  lemma DecodesTwoBytes(c: char)
    requires 0x80 <= c as int < 0x800
    ensures |EncodeChar(c)| == 2 && SequenceLength(EncodeChar(c)[0]) == 2
    ensures ScalarOf(EncodeChar(c)) == c as int
  {
    var cp := c as int;
    assert cp == (cp / 0x40) * 0x40 + cp % 0x40;
  }

  lemma DecodesThreeBytes(c: char)
    requires 0x800 <= c as int < 0x1_0000
    ensures |EncodeChar(c)| == 3 && SequenceLength(EncodeChar(c)[0]) == 3
    ensures ScalarOf(EncodeChar(c)) == c as int
  {
    var cp := c as int;
    assert cp / 0x40 == (cp / 0x1000) * 0x40 + cp / 0x40 % 0x40;
    assert cp == (cp / 0x40) * 0x40 + cp % 0x40;
  }

  lemma DecodesFourBytes(c: char)
    requires 0x1_0000 <= c as int
    ensures |EncodeChar(c)| == 4 && SequenceLength(EncodeChar(c)[0]) == 4
    ensures ScalarOf(EncodeChar(c)) == c as int
  {
    var cp := c as int;
    assert cp / 0x1000 == (cp / 0x4_0000) * 0x40 + cp / 0x1000 % 0x40;
    assert cp / 0x40 == (cp / 0x1000) * 0x40 + cp / 0x40 % 0x40;
    assert cp == (cp / 0x40) * 0x40 + cp % 0x40;
  }

  /** One encoded character is recognisable at the head of a byte string. */
  lemma EncodeCharPrefixFree(c: char, d: char, r1: seq<byte>, r2: seq<byte>)
    requires EncodeChar(c) + r1 == EncodeChar(d) + r2
    ensures c == d && r1 == r2
  {
    var e1, e2 := EncodeChar(c), EncodeChar(d);
    EncodeCharDecodes(c);
    EncodeCharDecodes(d);
    assert e1[0] == (e1 + r1)[0] == (e2 + r2)[0] == e2[0];
    assert e1 == (e1 + r1)[..|e1|] == (e2 + r2)[..|e2|] == e2;
    assert r1 == (e1 + r1)[|e1|..] == (e2 + r2)[|e2|..] == r2;
    assert c as int == d as int;
  }

  /** Distinct strings have distinct UTF-8 encodings. */
  lemma {:induction false} Utf8Injective(s: string, t: string)
    requires Utf8(s) == Utf8(t)
    ensures s == t
    decreases |s|
  {
    if |s| == 0 {
      assert |t| > 0 ==> |Utf8(t)| >= 1;
    } else {
      assert |t| > 0;
      EncodeCharPrefixFree(s[0], t[0], Utf8(s[1..]), Utf8(t[1..]));
      Utf8Injective(s[1..], t[1..]);
      assert s == [s[0]] + s[1..] && t == [t[0]] + t[1..];
    }
  }
}
