/** Unpadded base64 (`base64.RawStdEncoding`; section 4 of RFC 4648, padding omitted as in section 3.2). */
module Base64 {
  import opened Wrappers
  import Naming

  type Byte = x: int | 0 <= x < 256

  type Sextet = x: int | 0 <= x < 64

  function CharOf(v: Sextet): char {
    if v < 26 then ('A' as int + v) as char
    else if v < 52 then ('a' as int + (v - 26)) as char
    else if v < 62 then ('0' as int + (v - 52)) as char
    else if v == 62 then '+' else '/'
  }

  function ValueOf(c: char): Option<Sextet> {
    if 'A' <= c <= 'Z' then Some(c as int - 'A' as int)
    else if 'a' <= c <= 'z' then Some(c as int - 'a' as int + 26)
    else if '0' <= c <= '9' then Some(c as int - '0' as int + 52)
    else if c == '+' then Some(62)
    else if c == '/' then Some(63)
    else None
  }

  // Three bytes as four sextets, and back.

  function Sextet0(b0: Byte): Sextet { b0 / 4 }
  function Sextet1(b0: Byte, b1: Byte): Sextet { b0 % 4 * 16 + b1 / 16 }
  function Sextet2(b1: Byte, b2: Byte): Sextet { b1 % 16 * 4 + b2 / 64 }
  function Sextet3(b2: Byte): Sextet { b2 % 64 }

  function Byte0(v0: Sextet, v1: Sextet): Byte { v0 * 4 + v1 / 16 }
  function Byte1(v1: Sextet, v2: Sextet): Byte { v1 % 16 * 16 + v2 / 4 }
  function Byte2(v2: Sextet, v3: Sextet): Byte { v2 % 4 * 64 + v3 }

  lemma Regroup(b0: Byte, b1: Byte, b2: Byte)
    ensures Byte0(Sextet0(b0), Sextet1(b0, b1)) == b0
    ensures Byte1(Sextet1(b0, b1), Sextet2(b1, b2)) == b1
    ensures Byte2(Sextet2(b1, b2), Sextet3(b2)) == b2
  {
  }

  /** Three bytes to four characters; a last group of two or one, filled up with zero bits, to three or two. */
  function Encode(b: seq<Byte>): string {
    if |b| == 0 then []
    else if |b| == 1 then [CharOf(Sextet0(b[0])), CharOf(Sextet1(b[0], 0))]
    else if |b| == 2 then [CharOf(Sextet0(b[0])), CharOf(Sextet1(b[0], b[1])), CharOf(Sextet2(b[1], 0))]
    else
      [CharOf(Sextet0(b[0])), CharOf(Sextet1(b[0], b[1])), CharOf(Sextet2(b[1], b[2])), CharOf(Sextet3(b[2]))]
      + Encode(b[3..])
  }

  /** The decoder skips line ends anywhere. */
  function StripLineEnds(s: string): string {
    if s == [] then []
    else (if s[0] == '\r' || s[0] == '\n' then [] else [s[0]]) + StripLineEnds(s[1..])
  }

  /** Any other character is an error, and so is one left over; left-over bits are dropped. */
  function DecodeGroups(s: string): Option<seq<Byte>> {
    if |s| == 0 then Some([])
    else if |s| == 1 || ValueOf(s[0]).None? || ValueOf(s[1]).None? then None
    else
      var v0, v1 := ValueOf(s[0]).value, ValueOf(s[1]).value;
      var b0 := Byte0(v0, v1);
      if |s| == 2 then Some([b0])
      else if ValueOf(s[2]).None? then None
      else
        var v2 := ValueOf(s[2]).value;
        var b1 := Byte1(v1, v2);
        if |s| == 3 then Some([b0, b1])
        else if ValueOf(s[3]).None? then None
        else
          var b2 := Byte2(v2, ValueOf(s[3]).value);
          match DecodeGroups(s[4..])
          case None => None
          case Some(rest) => Some([b0, b1, b2] + rest)
  }

  function Decode(s: string): Option<seq<Byte>> { DecodeGroups(StripLineEnds(s)) }

  predicate Alphabet(s: string) { forall i :: 0 <= i < |s| ==> ValueOf(s[i]).Some? }

  lemma CharRoundTrip(v: Sextet)
    ensures ValueOf(CharOf(v)) == Some(v)
  {
  }

  lemma {:induction false} EncodeUsesAlphabet(b: seq<Byte>)
    ensures Alphabet(Encode(b))
  {
    hide CharOf, ValueOf;
    forall v: Sextet ensures ValueOf(CharOf(v)) == Some(v) { CharRoundTrip(v); }
    if |b| >= 3 {
      EncodeUsesAlphabet(b[3..]);
    }
  }

  lemma {:induction false} NothingToStrip(s: string)
    requires Alphabet(s)
    ensures StripLineEnds(s) == s
  {
    if s != [] {
      assert ValueOf(s[0]).Some?;
      NothingToStrip(s[1..]);
    }
  }

  lemma {:induction false} GroupsRoundTrip(b: seq<Byte>)
    ensures DecodeGroups(Encode(b)) == Some(b)
  {
    hide CharOf, ValueOf, Sextet0, Sextet1, Sextet2, Sextet3, Byte0, Byte1, Byte2;
    forall v: Sextet ensures ValueOf(CharOf(v)) == Some(v) { CharRoundTrip(v); }
    if |b| >= 3 {
      Regroup(b[0], b[1], b[2]);
      GroupsRoundTrip(b[3..]);
      assert Encode(b)[4..] == Encode(b[3..]);
      assert b == [b[0], b[1], b[2]] + b[3..];
    } else if |b| == 2 {
      Regroup(b[0], b[1], 0);
      assert b == [b[0], b[1]];
    } else if |b| == 1 {
      Regroup(b[0], 0, 0);
      assert b == [b[0]];
    }
  }

  lemma RoundTrip(b: seq<Byte>)
    ensures Decode(Encode(b)) == Some(b)
  {
    EncodeUsesAlphabet(b);
    NothingToStrip(Encode(b));
    GroupsRoundTrip(b);
  }

  // ---------- The encoding as a number ----------

  /** Table 1 of RFC 4648. */
  const ALPHABET: string := Naming.UPPER + Naming.LETTERS + Naming.DIGITS + "+/"

  lemma AlphabetRuns()
    ensures |ALPHABET| == 64
    ensures forall k :: 0 <= k < 26 ==> ALPHABET[k] as int == 'A' as int + k
    ensures forall k :: 26 <= k < 52 ==> ALPHABET[k] as int == 'a' as int + (k - 26)
    ensures forall k :: 52 <= k < 62 ==> ALPHABET[k] as int == '0' as int + (k - 52)
    ensures ALPHABET[62] == '+' && ALPHABET[63] == '/'
  {
    Naming.Consecutive();
    hide Naming.UPPER, Naming.LETTERS, Naming.DIGITS;
  }

  /** Sextet `v` is written as character `v` of the alphabet, and no other character is read as it. */
  lemma AlphabetExactly(v: Sextet, c: char)
    ensures |ALPHABET| == 64 && CharOf(v) == ALPHABET[v]
    ensures ValueOf(c) == Some(v) <==> c == ALPHABET[v]
  {
    AlphabetRuns();
    hide ALPHABET;
  }

  /** The bytes after a number, as the big-endian digits to base 256 that follow it. */
  function BytesNumber(before: nat, b: seq<Byte>): nat
    decreases |b|
  {
    if b == [] then before else BytesNumber(before * 256 + b[0], b[1..])
  }

  /** The same for characters of the alphabet as digits to base 64. */
  function CharsNumber(before: nat, s: string): nat
    requires Alphabet(s)
    decreases |s|
  {
    if s == [] then before else CharsNumber(before * 64 + ValueOf(s[0]).value, s[1..])
  }

  /** What the zero bits that fill up a last group of one or two bytes multiply by. */
  function Fill(bytes: nat): nat { if bytes % 3 == 0 then 1 else if bytes % 3 == 1 then 16 else 4 }

  function WithoutFill(n: nat, bytes: nat): nat { n / Fill(bytes) }

  /** The characters that `n` bytes need, and the bytes that `n` characters fill. */
  function EncodedLength(n: nat): nat { (8 * n + 5) / 6 }

  function DecodedLength(n: nat): nat { 6 * n / 8 }

  lemma GroupLengths(n: nat)
    ensures EncodedLength(n + 3) == EncodedLength(n) + 4 && Fill(n + 3) == Fill(n)
    ensures DecodedLength(n + 4) == DecodedLength(n) + 3 && (n + 4) % 4 == n % 4
    ensures forall k :: WithoutFill(k, n + 3) == WithoutFill(k, n)
  {
    assert (8 * (n + 3) + 5) / 6 == (8 * n + 5 + 24) / 6 == (8 * n + 5) / 6 + 4;
    assert 6 * (n + 4) / 8 == (6 * n + 24) / 8 == 6 * n / 8 + 3;
    SameFill(n);
    hide Fill;
  }

  lemma SameFill(n: nat)
    ensures Fill(n + 3) == Fill(n)
  {
  }

  function TwoDigits(before: nat, v0: Sextet, v1: Sextet): nat { (before * 64 + v0) * 64 + v1 }

  function FourDigits(before: nat, v0: Sextet, v1: Sextet, v2: Sextet, v3: Sextet): nat {
    TwoDigits(TwoDigits(before, v0, v1), v2, v3)
  }

  function ThreeBytes(before: nat, b0: Byte, b1: Byte, b2: Byte): nat { ((before * 256 + b0) * 256 + b1) * 256 + b2 }

  lemma TwoCharsRead(before: nat, s: string)
    requires Alphabet(s) && |s| >= 2
    ensures CharsNumber(before, s)
            == CharsNumber(TwoDigits(before, ValueOf(s[0]).value, ValueOf(s[1]).value), s[2..])
  {
    hide ValueOf;
    assert s[1..][0] == s[1] && s[1..][1..] == s[2..];
  }

  lemma FourCharsRead(before: nat, s: string)
    requires Alphabet(s) && |s| >= 4
    ensures CharsNumber(before, s)
            == CharsNumber(FourDigits(before, ValueOf(s[0]).value, ValueOf(s[1]).value,
                                      ValueOf(s[2]).value, ValueOf(s[3]).value), s[4..])
  {
    hide ValueOf, CharsNumber, TwoDigits;
    TwoCharsRead(before, s);
    TwoCharsRead(TwoDigits(before, ValueOf(s[0]).value, ValueOf(s[1]).value), s[2..]);
    assert s[2..][0] == s[2] && s[2..][1] == s[3] && s[2..][2..] == s[4..];
  }

  lemma ByteRead(before: nat, b: seq<Byte>)
    requires b != []
    ensures BytesNumber(before, b) == BytesNumber(before * 256 + b[0], b[1..])
  {
  }

  lemma ThreeBytesRead(before: nat, b: seq<Byte>)
    requires |b| >= 3
    ensures BytesNumber(before, b) == BytesNumber(ThreeBytes(before, b[0], b[1], b[2]), b[3..])
  {
    ByteRead(before, b);
    ByteRead(before * 256 + b[0], b[1..]);
    ByteRead((before * 256 + b[0]) * 256 + b[1], b[2..]);
    hide BytesNumber;
    assert b[1..][0] == b[1] && b[1..][1..] == b[2..] && b[2..][0] == b[2] && b[2..][1..] == b[3..];
  }

  /** Three bytes and their four sextets are the same 24 bits. */
  lemma SameBits(before: nat, b0: Byte, b1: Byte, b2: Byte)
    ensures FourDigits(before, Sextet0(b0), Sextet1(b0, b1), Sextet2(b1, b2), Sextet3(b2))
            == ThreeBytes(before, b0, b1, b2)
  {
    assert b0 == 4 * Sextet0(b0) + b0 % 4;
    assert b1 == 16 * (b1 / 16) + b1 % 16;
    assert b2 == 64 * (b2 / 64) + b2 % 64;
  }

  /** The encoding has as many characters as the bits need, and they are the bits, with zeros at the end. */
  lemma {:induction false} EncodeExactly(before: nat, b: seq<Byte>)
    ensures |Encode(b)| == EncodedLength(|b|) && Alphabet(Encode(b))
    ensures CharsNumber(before, Encode(b)) == BytesNumber(before, b) * Fill(|b|)
    decreases |b|
  {
    EncodeUsesAlphabet(b);
    hide Alphabet;
    if |b| >= 3 {
      var after := ThreeBytes(before, b[0], b[1], b[2]);
      EncodeExactly(after, b[3..]);
      EncodeGroup(before, b);
      ThreeBytesRead(before, b);
      GroupLengths(|b[3..]|);
      hide Encode, CharsNumber, BytesNumber, ThreeBytes, EncodedLength, Fill;
      assert BytesNumber(before, b) == BytesNumber(after, b[3..]);
    } else if |b| == 2 {
      LastTwo(before, b);
    } else if |b| == 1 {
      LastOne(before, b);
    }
  }

  /** The first four characters are the first three bytes. */
  lemma EncodeGroup(before: nat, b: seq<Byte>)
    requires |b| >= 3 && Alphabet(Encode(b)) && Alphabet(Encode(b[3..]))
    ensures |Encode(b)| == 4 + |Encode(b[3..])|
    ensures CharsNumber(before, Encode(b)) == CharsNumber(ThreeBytes(before, b[0], b[1], b[2]), Encode(b[3..]))
  {
    forall v: Sextet ensures ValueOf(CharOf(v)) == Some(v) { CharRoundTrip(v); }
    hide CharOf, ValueOf;
    var s := Encode(b);
    assert s[4..] == Encode(b[3..]);
    hide Sextet0, Sextet1, Sextet2, Sextet3, CharsNumber, FourDigits, ThreeBytes;
    FourCharsRead(before, s);
    SameBits(before, b[0], b[1], b[2]);
  }

  /** The last one or two bytes, with zero bits. */
  lemma LastOne(before: nat, b: seq<Byte>)
    requires |b| == 1 && Alphabet(Encode(b))
    ensures CharsNumber(before, Encode(b)) == BytesNumber(before, b) * 16
  {
    CharRoundTrip(Sextet0(b[0]));
    CharRoundTrip(Sextet1(b[0], 0));
    hide CharOf, ValueOf;
    var s := Encode(b);
    TwoCharsRead(before, s);
    assert s[2..] == [] && b[1..] == [];
    assert b[0] == 4 * Sextet0(b[0]) + b[0] % 4;
  }

  lemma LastTwo(before: nat, b: seq<Byte>)
    requires |b| == 2 && Alphabet(Encode(b))
    ensures CharsNumber(before, Encode(b)) == BytesNumber(before, b) * 4
  {
    CharRoundTrip(Sextet0(b[0]));
    CharRoundTrip(Sextet1(b[0], b[1]));
    CharRoundTrip(Sextet2(b[1], 0));
    hide CharOf, ValueOf;
    var s := Encode(b);
    ThreeCharsRead(before, s);
    TwoBytesRead(before, b);
    assert b[0] == 4 * Sextet0(b[0]) + b[0] % 4 && b[1] == 16 * (b[1] / 16) + b[1] % 16;
  }

  lemma ThreeCharsRead(before: nat, s: string)
    requires Alphabet(s) && |s| == 3
    ensures CharsNumber(before, s)
            == TwoDigits(before, ValueOf(s[0]).value, ValueOf(s[1]).value) * 64 + ValueOf(s[2]).value
  {
    hide ValueOf, TwoDigits;
    TwoCharsRead(before, s);
    assert s[2..] == [s[2]] && s[2..][1..] == [];
  }

  lemma TwoBytesRead(before: nat, b: seq<Byte>)
    requires |b| == 2
    ensures BytesNumber(before, b) == (before * 256 + b[0]) * 256 + b[1]
  {
    ByteRead(before, b);
    ByteRead(before * 256 + b[0], b[1..]);
    assert b[1..][0] == b[1] && b[1..][1..] == [];
  }

  // ---------- The decoder on any text ----------

  /** A line end anywhere makes no difference. */
  lemma {:induction false} LineEndsAreSkipped(a: string, c: char, b: string)
    requires c in {'\r', '\n'}
    ensures Decode(a + [c] + b) == Decode(a + b)
  {
    StripJoined(a + [c], b);
    StripJoined(a, [c]);
    StripJoined(a, b);
    assert [c][1..] == [] && StripLineEnds(a) + [] == StripLineEnds(a);
    assert StripLineEnds(a + [c]) == StripLineEnds(a);
  }

  lemma {:induction false} StripJoined(a: string, b: string)
    ensures StripLineEnds(a + b) == StripLineEnds(a) + StripLineEnds(b)
  {
    if a == [] {
      assert a + b == b;
    } else {
      assert (a + b)[1..] == a[1..] + b;
      StripJoined(a[1..], b);
    }
  }

  /** Four sextets and their three bytes are the same 24 bits. */
  lemma SameBitsBack(before: nat, v0: Sextet, v1: Sextet, v2: Sextet, v3: Sextet)
    ensures ThreeBytes(before, Byte0(v0, v1), Byte1(v1, v2), Byte2(v2, v3)) == FourDigits(before, v0, v1, v2, v3)
  {
    assert v1 == 16 * (v1 / 16) + v1 % 16;
    assert v2 == 4 * (v2 / 4) + v2 % 4;
  }

  lemma AlphabetAfterFour(s: string)
    requires |s| >= 4
    ensures Alphabet(s) <==>
              && ValueOf(s[0]).Some? && ValueOf(s[1]).Some? && ValueOf(s[2]).Some? && ValueOf(s[3]).Some?
              && Alphabet(s[4..])
  {
    hide ValueOf;
    if Alphabet(s[4..]) {
      forall i | 4 <= i < |s| ensures ValueOf(s[i]).Some? { assert s[4..][i - 4] == s[i]; }
    }
  }

  /** What one group of four characters adds to the decoding of the rest. */
  lemma DecodeGroup(before: nat, s: string)
    requires |s| >= 4
    ensures DecodeGroups(s).Some? <==>
              && ValueOf(s[0]).Some? && ValueOf(s[1]).Some? && ValueOf(s[2]).Some? && ValueOf(s[3]).Some?
              && DecodeGroups(s[4..]).Some?
    ensures DecodeGroups(s).Some? ==>
              var v0, v1, v2, v3 := ValueOf(s[0]).value, ValueOf(s[1]).value, ValueOf(s[2]).value, ValueOf(s[3]).value;
              var b, rest := DecodeGroups(s).value, DecodeGroups(s[4..]).value;
              |b| == 3 + |rest| && BytesNumber(before, b) == BytesNumber(FourDigits(before, v0, v1, v2, v3), rest)
  {
    hide ValueOf, BytesNumber;
    if DecodeGroups(s).Some? {
      var v0, v1, v2, v3 := ValueOf(s[0]).value, ValueOf(s[1]).value, ValueOf(s[2]).value, ValueOf(s[3]).value;
      var b, rest := DecodeGroups(s).value, DecodeGroups(s[4..]).value;
      assert b == [Byte0(v0, v1), Byte1(v1, v2), Byte2(v2, v3)] + rest;
      hide DecodeGroups, Byte0, Byte1, Byte2, ThreeBytes, FourDigits;
      SameBitsBack(before, v0, v1, v2, v3);
      ThreeBytesRead(before, b);
      assert b[3..] == rest;
    }
  }

  /**
  A text decodes exactly when it is of the alphabet and has not one character too many. The bytes are
  its bits; odd bits at the end are dropped.
  */
  lemma DecodesExactly(before: nat, s: string)
    ensures DecodeGroups(s).Some? <==> Alphabet(s) && |s| % 4 != 1
    ensures DecodeGroups(s).Some? ==>
              var b := DecodeGroups(s).value;
              |b| == DecodedLength(|s|) && BytesNumber(before, b) == WithoutFill(CharsNumber(before, s), |b|)
  {
    hide DecodeGroups, DecodedLength, WithoutFill, CharsNumber, BytesNumber, Alphabet;
    DecodesWhen(s);
    if DecodeGroups(s).Some? { DecodedNumber(before, s); }
  }

  lemma {:induction false} DecodesWhen(s: string)
    ensures DecodeGroups(s).Some? <==> Alphabet(s) && |s| % 4 != 1
  {
    if |s| < 4 {
      ShortDecodes(0, s);
    } else {
      DecodesWhen(s[4..]);
      AlphabetAfterFour(s);
      DecodeGroup(0, s);
      hide DecodeGroups, ValueOf, Alphabet, BytesNumber, FourDigits;
      GroupLengths(|s[4..]|);
    }
  }

  lemma {:induction false} DecodedNumber(before: nat, s: string)
    requires DecodeGroups(s).Some? && Alphabet(s)
    ensures var b := DecodeGroups(s).value;
            |b| == DecodedLength(|s|) && BytesNumber(before, b) == WithoutFill(CharsNumber(before, s), |b|)
    decreases |s|
  {
    hide WithoutFill, DecodedLength;
    if |s| < 4 {
      ShortDecodes(before, s);
    } else {
      AlphabetAfterFour(s);
      DecodeGroup(before, s);
      hide DecodeGroups, FourDigits, CharsNumber, BytesNumber, ValueOf, Alphabet;
      DecodedNumber(FourDigits(
        before, ValueOf(s[0]).value, ValueOf(s[1]).value, ValueOf(s[2]).value, ValueOf(s[3]).value), s[4..]);
      FourCharsRead(before, s);
      GroupLengths(|s[4..]|);
      GroupLengths(|DecodeGroups(s[4..]).value|);
    }
  }

  lemma ShortDecodes(before: nat, s: string)
    requires |s| < 4
    ensures DecodeGroups(s).Some? <==> Alphabet(s) && |s| != 1
    ensures DecodeGroups(s).Some? ==>
              var b := DecodeGroups(s).value;
              |b| == DecodedLength(|s|) && BytesNumber(before, b) == WithoutFill(CharsNumber(before, s), |b|)
  {
    hide ValueOf, Byte0, Byte1, CharsNumber, BytesNumber, TwoDigits;
    if |s| == 0 {
      assert CharsNumber(before, s) == before == BytesNumber(before, []) by { NothingRead(before); }
    } else if |s| == 2 && Alphabet(s) {
      TwoDecode(before, s);
    } else if |s| == 3 && Alphabet(s) {
      ThreeDecode(before, s);
    }
  }

  lemma NothingRead(before: nat)
    ensures CharsNumber(before, []) == before == BytesNumber(before, [])
  {
  }

  lemma TwoDecode(before: nat, s: string)
    requires |s| == 2 && Alphabet(s)
    ensures DecodeGroups(s).Some? && |DecodeGroups(s).value| == 1
    ensures BytesNumber(before, DecodeGroups(s).value) == CharsNumber(before, s) / 16
  {
    hide ValueOf;
    TwoCharsRead(before, s);
    assert s[2..] == [] && DecodeGroups(s).value[1..] == [];
    NothingRead(TwoDigits(before, ValueOf(s[0]).value, ValueOf(s[1]).value));
  }

  lemma ThreeDecode(before: nat, s: string)
    requires |s| == 3 && Alphabet(s)
    ensures DecodeGroups(s).Some? && |DecodeGroups(s).value| == 2
    ensures BytesNumber(before, DecodeGroups(s).value) == CharsNumber(before, s) / 4
  {
    ThreeCharsRead(before, s);
    var v0, v1, v2 := ValueOf(s[0]).value, ValueOf(s[1]).value, ValueOf(s[2]).value;
    assert DecodeGroups(s).value == [Byte0(v0, v1), Byte1(v1, v2)];
    TwoBytesRead(before, DecodeGroups(s).value);
    hide ValueOf, CharsNumber, BytesNumber, DecodeGroups;
    assert v1 == 16 * (v1 / 16) + v1 % 16;
  }
}
