/** The PHC strings of internal/auth/local.go: printing and parsing Argon2id hashes. */
module Phc {
  import opened Wrappers
  import opened Base64

  type UInt32 = x: int | 0 <= x < 0x1_0000_0000
  type UInt8 = x: int | 0 <= x < 0x100

  const INT64_MIN: int := -0x8000_0000_0000_0000
  const INT64_MAX: int := 0x7FFF_FFFF_FFFF_FFFF

  datatype ArgonParams = ArgonParams(memory: UInt32, time: UInt32, threads: UInt8, saltLen: UInt32, keyLen: UInt32)

  datatype Parsed = Parsed(memory: UInt32, time: UInt32, threads: UInt8, salt: seq<Byte>, key: seq<Byte>)

  // ---------- Decimal numbers ----------

  predicate IsDigit(c: char) { '0' <= c <= '9' }

  function DigitChar(d: int): char
    requires 0 <= d < 10
  {
    ('0' as int + d) as char
  }

  function DigitValue(c: char): int
    requires IsDigit(c)
  {
    c as int - '0' as int
  }

  /** `%d` of an unsigned number. */
  function Decimal(n: nat): string {
    if n < 10 then [DigitChar(n)] else Decimal(n / 10) + [DigitChar(n % 10)]
  }

  /** The longest prefix of digits. */
  function DigitCount(s: string): (n: nat)
    ensures n <= |s| && forall i :: 0 <= i < n ==> IsDigit(s[i])
  {
    if s != [] && IsDigit(s[0]) then 1 + DigitCount(s[1..]) else 0
  }

  function NumberOf(s: string): nat
    requires forall i :: 0 <= i < |s| ==> IsDigit(s[i])
  {
    if s == [] then 0 else NumberOf(s[..|s| - 1]) * 10 + DigitValue(s[|s| - 1])
  }

  lemma {:induction false} DecimalDigits(n: nat)
    ensures Decimal(n) != [] && forall i :: 0 <= i < |Decimal(n)| ==> IsDigit(Decimal(n)[i])
    ensures NumberOf(Decimal(n)) == n
  {
    if n < 10 {
      assert Decimal(n)[..0] == [];
    } else {
      DecimalDigits(n / 10);
      assert Decimal(n)[..|Decimal(n)| - 1] == Decimal(n / 10);
    }
  }

  lemma {:induction false} DigitCountOfDigits(digits: string, rest: string)
    requires forall i :: 0 <= i < |digits| ==> IsDigit(digits[i])
    requires rest == [] || !IsDigit(rest[0])
    ensures DigitCount(digits + rest) == |digits|
  {
    if digits == [] {
      assert digits + rest == rest;
    } else {
      assert (digits + rest)[1..] == digits[1..] + rest;
      DigitCountOfDigits(digits[1..], rest);
    }
  }

  // ---------- Sscanf("m=%d,t=%d,p=%d") ----------

  function SkipBlanks(s: string): string {
    if s != [] && (s[0] == ' ' || s[0] == '\t') then SkipBlanks(s[1..]) else s
  }

  /** `%d` into an int: blanks, a sign, digits, and the 64-bit range; returns what is left to read. */
  function ScanInt(s: string): Option<(int, string)> {
    var t := SkipBlanks(s);
    var signed := t != [] && (t[0] == '+' || t[0] == '-');
    var u := if signed then t[1..] else t;
    var n := DigitCount(u);
    if n == 0 then None
    else
      var value := (if signed && t[0] == '-' then -1 else 1) * NumberOf(u[..n]);
      if INT64_MIN <= value <= INT64_MAX then Some((value, u[n..])) else None
  }

  function Expect(s: string, literal: string): Option<string> {
    if literal <= s then Some(s[|literal|..]) else None
  }

  /** Input after the third number is ignored. */
  function ScanParams(s: string): Option<(int, int, int)> {
    match Expect(s, "m=") case None => None case Some(s1) =>
    match ScanInt(s1) case None => None case Some((m, s2)) =>
    match Expect(s2, ",t=") case None => None case Some(s3) =>
    match ScanInt(s3) case None => None case Some((t, s4)) =>
    match Expect(s4, ",p=") case None => None case Some(s5) =>
    match ScanInt(s5) case None => None case Some((p, _)) => Some((m, t, p))
  }

  lemma ScanDecimal(n: nat, rest: string)
    requires n <= INT64_MAX
    requires rest == [] || !IsDigit(rest[0])
    ensures ScanInt(Decimal(n) + rest) == Some((n, rest))
  {
    DecimalDigits(n);
    DigitCountOfDigits(Decimal(n), rest);
    var s := Decimal(n) + rest;
    assert IsDigit(s[0]) by { assert s[0] == Decimal(n)[0]; }
    assert SkipBlanks(s) == s;
    assert s[..|Decimal(n)|] == Decimal(n) && s[|Decimal(n)|..] == rest;
  }

  /** A number with an optional sign, as `%d` reads it. */
  function Signed(n: int): string { if n < 0 then "-" + Decimal(-n) else Decimal(n) }

  /** A signed number is read if it is of 64 bits, and an error if it is not. */
  lemma ScanSigned(n: int, rest: string)
    requires rest == [] || !IsDigit(rest[0])
    ensures ScanInt(Signed(n) + rest) == if Is64Bits(n) then Some((n, rest)) else None
  {
    if n < 0 { ScanNegative(-n, rest); } else { ScanUnsigned(n, rest); }
  }

  lemma ScanUnsigned(n: nat, rest: string)
    requires rest == [] || !IsDigit(rest[0])
    ensures ScanInt(Decimal(n) + rest) == if Is64Bits(n) then Some((n, rest)) else None
  {
    DecimalDigits(n);
    DigitCountOfDigits(Decimal(n), rest);
    var s := Decimal(n) + rest;
    assert IsDigit(s[0]) by { assert s[0] == Decimal(n)[0]; }
    assert SkipBlanks(s) == s;
    assert s[..|Decimal(n)|] == Decimal(n) && s[|Decimal(n)|..] == rest;
  }

  lemma ScanNegative(n: nat, rest: string)
    requires rest == [] || !IsDigit(rest[0])
    ensures ScanInt("-" + Decimal(n) + rest) == if Is64Bits(0 - n) then Some((0 - n, rest)) else None
  {
    DecimalDigits(n);
    DigitCountOfDigits(Decimal(n), rest);
    var u := Decimal(n) + rest;
    assert u[..|Decimal(n)|] == Decimal(n) && u[|Decimal(n)|..] == rest;
    hide Decimal, DigitCount, NumberOf;
    var s := ['-'] + u;
    assert "-" + Decimal(n) + rest == s;
    assert s[0] == '-' && s[1..] == u;
    assert SkipBlanks(s) == s;
    hide SkipBlanks;
  }

  predicate Is64Bits(n: int) { -9223372036854775808 <= n <= 9223372036854775807 }

  /** Blanks in front make no difference. */
  lemma BlanksAreSkipped(s: string)
    ensures ScanInt(" " + s) == ScanInt("\t" + s) == ScanInt(s)
  {
    assert (" " + s)[1..] == s && ("\t" + s)[1..] == s;
    SameAfterBlanks(" " + s, s);
    SameAfterBlanks("\t" + s, s);
  }

  lemma SameAfterBlanks(a: string, b: string)
    requires SkipBlanks(a) == SkipBlanks(b)
    ensures ScanInt(a) == ScanInt(b)
  {
    hide SkipBlanks, NumberOf, DigitCount;
  }

  /** A plus sign in front of a digit makes none either. */
  lemma PlusIsSkipped(s: string)
    requires s != [] && IsDigit(s[0])
    ensures ScanInt("+" + s) == ScanInt(s)
  {
    assert ("+" + s)[1..] == s;
    assert SkipBlanks("+" + s) == "+" + s && SkipBlanks(s) == s;
    hide SkipBlanks, NumberOf, DigitCount;
  }

  /** Without a digit there is no number. */
  lemma NoDigitNoNumber(s: string)
    requires s == [] || (s[0] !in {' ', '\t'} && !IsDigit(s[0]))
    ensures s == [] || s[0] !in {'+', '-'} ==> ScanInt(s) == None
    ensures ScanInt("+" + s) == ScanInt("-" + s) == None
  {
    assert ("+" + s)[1..] == s && ("-" + s)[1..] == s;
    assert SkipBlanks(s) == s && SkipBlanks("+" + s) == "+" + s && SkipBlanks("-" + s) == "-" + s;
    assert DigitCount(s) == 0;
    hide NumberOf, SkipBlanks;
  }

  // ---------- strings.Split ----------

  function Split(s: string, sep: char): (parts: seq<string>)
    ensures parts != []
  {
    if s == [] then [[]]
    else
      var rest := Split(s[1..], sep);
      if s[0] == sep then [[]] + rest else [[s[0]] + rest[0]] + rest[1..]
  }

  lemma {:induction false} SplitAt(a: string, sep: char, b: string)
    requires sep !in a
    ensures Split(a + [sep] + b, sep) == [a] + Split(b, sep)
  {
    if a == [] {
      assert (a + [sep] + b)[1..] == b;
    } else {
      assert (a + [sep] + b)[1..] == a[1..] + [sep] + b;
      SplitAt(a[1..], sep, b);
      assert [a[0]] + a[1..] == a;
    }
  }

  lemma {:induction false} SplitLast(a: string, sep: char)
    requires sep !in a
    ensures Split(a, sep) == [a]
  {
    if a != [] {
      SplitLast(a[1..], sep);
      assert [a[0]] + a[1..] == a;
    }
  }

  function Joined(parts: seq<string>, sep: char): string
    requires parts != []
  {
    if |parts| == 1 then parts[0] else parts[0] + [sep] + Joined(parts[1..], sep)
  }

  /** The parts have no separator, and joined they are the string. */
  lemma {:induction false} SplitJoins(s: string, sep: char)
    ensures Joined(Split(s, sep), sep) == s && forall part <- Split(s, sep) :: sep !in part
  {
    if s != [] {
      SplitJoins(s[1..], sep);
      var rest, parts := Split(s[1..], sep), Split(s, sep);
      assert s == [s[0]] + s[1..];
      if s[0] == sep {
        assert parts[1..] == rest;
      } else {
        assert parts[1..] == rest[1..] && parts[0] == [s[0]] + rest[0];
      }
    }
  }

  lemma {:induction false} SplitOfJoined(parts: seq<string>, sep: char)
    requires parts != [] && forall part <- parts :: sep !in part
    ensures Split(Joined(parts, sep), sep) == parts
  {
    if |parts| == 1 {
      SplitLast(parts[0], sep);
    } else {
      SplitOfJoined(parts[1..], sep);
      SplitAt(parts[0], sep, Joined(parts[1..], sep));
      assert parts == [parts[0]] + parts[1..];
    }
  }

  // ---------- phcEncode and phcParse ----------

  function PrintParams(p: ArgonParams): string {
    "m=" + Decimal(p.memory) + ",t=" + Decimal(p.time) + ",p=" + Decimal(p.threads)
  }

  function PhcEncode(p: ArgonParams, salt: seq<Byte>, key: seq<Byte>): string {
    "$argon2id$v=19$" + PrintParams(p) + "$" + Encode(salt) + "$" + Encode(key)
  }

  function PhcParse(phc: string): Option<Parsed> {
    var parts := Split(phc, '$');
    if |parts| != 6 || parts[1] != "argon2id" || !("v=" <= parts[2]) then None
    else
      match ScanParams(parts[3])
      case None => None
      case Some((m, t, p)) =>
        match Decode(parts[4])
        case None => None
        case Some(salt) =>
          match Decode(parts[5])
          case None => None
          // The conversions to uint32 and uint8 keep the low bits.
          case Some(key) => Some(Parsed(m % 0x1_0000_0000, t % 0x1_0000_0000, p % 0x100, salt, key))
  }

  lemma ScanPrintedParams(p: ArgonParams)
    ensures ScanParams(PrintParams(p)) == Some((p.memory, p.time, p.threads))
  {
    hide ScanInt, Decimal;
    var s5 := Decimal(p.threads) + [];
    var s3 := Decimal(p.time) + (",p=" + s5);
    var s1 := Decimal(p.memory) + (",t=" + s3);
    ScanDecimal(p.threads, []);
    ScanDecimal(p.time, ",p=" + s5);
    ScanDecimal(p.memory, ",t=" + s3);
    assert PrintParams(p) == "m=" + s1;
    assert ("m=" + s1)[2..] == s1 && (",t=" + s3)[3..] == s3 && (",p=" + s5)[3..] == s5;
  }

  lemma NoDollarInDigits(n: nat)
    ensures '$' !in Decimal(n)
  {
    DecimalDigits(n);
  }

  lemma NoDollarInBase64(b: seq<Byte>)
    ensures '$' !in Encode(b)
  {
    EncodeUsesAlphabet(b);
  }

  lemma PrintParamsHasNoDollar(p: ArgonParams)
    ensures '$' !in PrintParams(p)
  {
    hide Decimal;
    NoDollarInDigits(p.memory);
    NoDollarInDigits(p.time);
    NoDollarInDigits(p.threads);
  }

  lemma Regrouped(a: string, b: string, c: string)
    ensures "$argon2id$v=19$" + a + "$" + b + "$" + c
            == [] + ['$'] + ("argon2id" + ['$'] + ("v=19" + ['$'] + (a + ['$'] + (b + ['$'] + c))))
  {
    assert "$argon2id$v=19$" == [] + ['$'] + "argon2id" + ['$'] + "v=19" + ['$'];
  }

  lemma PartsOfEncoded(p: ArgonParams, salt: seq<Byte>, key: seq<Byte>)
    ensures Split(PhcEncode(p, salt, key), '$') == ["", "argon2id", "v=19", PrintParams(p), Encode(salt), Encode(key)]
  {
    hide Encode, Split, PrintParams;
    PrintParamsHasNoDollar(p);
    NoDollarInBase64(salt);
    NoDollarInBase64(key);
    var tail4 := Encode(salt) + ['$'] + Encode(key);
    var tail3 := PrintParams(p) + ['$'] + tail4;
    var tail2 := "v=19" + ['$'] + tail3;
    var tail1 := "argon2id" + ['$'] + tail2;
    Regrouped(PrintParams(p), Encode(salt), Encode(key));
    SplitAt([], '$', tail1);
    SplitAt("argon2id", '$', tail2);
    SplitAt("v=19", '$', tail3);
    SplitAt(PrintParams(p), '$', tail4);
    SplitAt(Encode(salt), '$', Encode(key));
    SplitLast(Encode(key), '$');
  }

  /** The parser undoes the printer. */
  lemma ParseUndoesEncode(p: ArgonParams, salt: seq<Byte>, key: seq<Byte>)
    ensures PhcParse(PhcEncode(p, salt, key)) == Some(Parsed(p.memory, p.time, p.threads, salt, key))
  {
    hide PhcEncode, Split, ScanParams, Decode, Encode, PrintParams;
    PartsOfEncoded(p, salt, key);
    ScanPrintedParams(p);
    RoundTrip(salt);
    RoundTrip(key);
  }

  /** Six parts between dollar signs: the second is the algorithm, the first and the version may be anything. */
  function PhcParts(before: string, version: string, params: string, salt: string, key: string): seq<string> {
    [before, "argon2id", "v=" + version, params, salt, key]
  }

  /** The three numbers are read from the parameters, without their high bits, and the two byte strings are decoded. */
  ghost predicate ReadsAs(params: string, salt: string, key: string, h: Parsed) {
    && Decode(salt) == Some(h.salt) && Decode(key) == Some(h.key)
    && exists m, t, p :: ScanParams(params) == Some((m, t, p)) && LowBits(m, t, p, h)
  }

  ghost predicate LowBits(m: int, t: int, p: int, h: Parsed) {
    h.memory == m % 4294967296 && h.time == t % 4294967296 && h.threads == p % 256
  }

  ghost predicate IsPhc(
    phc: string, before: string, version: string, params: string, salt: string, key: string, h: Parsed)
  {
    && (forall part <- PhcParts(before, version, params, salt, key) :: '$' !in part)
    && phc == Joined(PhcParts(before, version, params, salt, key), '$')
    && ReadsAs(params, salt, key, h)
  }

  /** Exactly what the parser accepts, and as what. */
  lemma ParseExactly(phc: string, h: Parsed)
    ensures PhcParse(phc) == Some(h) <==>
              exists before, version, params, salt, key :: IsPhc(phc, before, version, params, salt, key, h)
  {
    hide IsPhc, PhcParse;
    if PhcParse(phc) == Some(h) {
      ParsedIsPhc(phc, h);
    } else if before, version, params, salt, key :| IsPhc(phc, before, version, params, salt, key, h) {
      PhcParses(phc, before, version, params, salt, key, h);
    }
  }

  lemma PhcParses(
    phc: string, before: string, version: string, params: string, salt: string, key: string, h: Parsed)
    requires IsPhc(phc, before, version, params, salt, key, h)
    ensures PhcParse(phc) == Some(h)
  {
    SplitOfJoined(PhcParts(before, version, params, salt, key), '$');
    hide Split, ScanParams, Decode, Joined;
    var m, t, p :| ScanParams(params) == Some((m, t, p)) && LowBits(m, t, p, h);
  }

  lemma ParsedIsPhc(phc: string, h: Parsed)
    requires PhcParse(phc) == Some(h)
    ensures exists before, version, params, salt, key :: IsPhc(phc, before, version, params, salt, key, h)
  {
    hide IsPhc, PhcParse, Joined;
    SplitJoins(phc, '$');
    var before, version, params, salt, key := SixParts(phc);
    PartsArePhc(phc, before, version, params, salt, key, h);
  }

  lemma SixParts(phc: string) returns (before: string, version: string, params: string, salt: string, key: string)
    requires PhcParse(phc).Some?
    ensures Split(phc, '$') == PhcParts(before, version, params, salt, key)
  {
    hide Split, ScanParams, Decode;
    var parts := Split(phc, '$');
    before, version, params, salt, key := parts[0], parts[2][2..], parts[3], parts[4], parts[5];
    assert parts[2] == "v=" + version;
  }

  lemma PartsArePhc(
    phc: string, before: string, version: string, params: string, salt: string, key: string, h: Parsed)
    requires PhcParse(phc) == Some(h) && Split(phc, '$') == PhcParts(before, version, params, salt, key)
    requires phc == Joined(Split(phc, '$'), '$') && forall part <- Split(phc, '$') :: '$' !in part
    ensures IsPhc(phc, before, version, params, salt, key, h)
  {
    hide Split, ScanParams, Decode, Joined;
  }

  /** Signed numbers of 64 bits are read, and what follows the third is ignored. */
  lemma ParamsExactly(m: int, t: int, p: int, rest: string)
    requires rest == [] || !IsDigit(rest[0])
    ensures ScanParams("m=" + Signed(m) + ",t=" + Signed(t) + ",p=" + Signed(p) + rest)
            == if Is64Bits(m) && Is64Bits(t) && Is64Bits(p) then Some((m, t, p)) else None
  {
    hide ScanInt, Signed, Is64Bits;
    var s5 := Signed(p) + rest;
    var s3 := Signed(t) + (",p=" + s5);
    var s1 := Signed(m) + (",t=" + s3);
    ScanSigned(p, rest);
    ScanSigned(t, ",p=" + s5);
    ScanSigned(m, ",t=" + s3);
    assert "m=" + Signed(m) + ",t=" + Signed(t) + ",p=" + Signed(p) + rest == "m=" + s1;
    assert ("m=" + s1)[2..] == s1 && (",t=" + s3)[3..] == s3 && (",p=" + s5)[3..] == s5;
  }

  /** The layout of a hash string, on an example. */
  lemma EncodeExample()
    ensures PhcEncode(ArgonParams(65536, 1, 4, 1, 1), [0], [255]) == "$argon2id$v=19$" + "m=65536,t=1,p=4" + "$AA$/w"
  {
    hide PrintParams, Encode;
    ParamsExample();
    BytesExample();
  }

  lemma ParamsExample()
    ensures PrintParams(ArgonParams(65536, 1, 4, 1, 1)) == "m=65536,t=1,p=4"
  {
    DecimalExample();
    hide Decimal;
  }

  lemma BytesExample()
    ensures Encode([0]) == "AA" && Encode([255]) == "/w"
  {
  }

  lemma DecimalExample()
    ensures Decimal(65536) == "65536" && Decimal(1) == "1" && Decimal(4) == "4"
  {
    assert Decimal(6) == "6";
    assert Decimal(65) == "65";
    assert Decimal(655) == "655";
    assert Decimal(6553) == "6553";
  }

  // ---------- HashPassword and VerifyPassword ----------

  /** unicode.IsSpace. */
  predicate IsSpace(c: char) {
    || c in {'\t', '\n', '\U{0B}', '\U{0C}', '\r', ' ', '\U{85}', '\U{A0}'}
    || c in {'\U{1680}', '\U{2028}', '\U{2029}', '\U{202F}', '\U{205F}', '\U{3000}'}
    || '\U{2000}' <= c <= '\U{200A}'
  }

  predicate Blank(pw: string) { forall c <- pw :: IsSpace(c) }

  /** The key derivation: password, salt, time, memory, threads and key length to a key. */
  type Kdf = (string, seq<Byte>, UInt32, UInt32, UInt8, nat) -> seq<Byte>

  /** Argon2id as a deterministic function that returns as many bytes as it is asked for. */
  ghost predicate ReturnsKeyLen(kdf: Kdf) {
    forall pw, salt, time, memory, threads, n :: |kdf(pw, salt, time, memory, threads, n)| == n
  }

  /** `salt` is what the random source filled the salt buffer with; None is the empty-password error. */
  function HashPassword(kdf: Kdf, pw: string, p: ArgonParams, salt: seq<Byte>): Option<string> {
    if Blank(pw) then None
    else Some(PhcEncode(p, salt, kdf(pw, salt, p.time, p.memory, p.threads, p.keyLen)))
  }

  function VerifyPassword(kdf: Kdf, pw: string, phc: string): bool {
    match PhcParse(phc)
    case None => false
    case Some(h) => kdf(pw, h.salt, h.time, h.memory, h.threads, |h.key|) == h.key
  }

  /** The Unicode white space characters, by code point. */
  predicate IsWhite(n: int) {
    || n in {0x9, 0xA, 0xB, 0xC, 0xD, 0x20, 0x85, 0xA0, 0x1680, 0x2028, 0x2029, 0x202F, 0x205F, 0x3000}
    || 0x2000 <= n <= 0x200A
  }

  /** A password is hashed exactly when it has a character that is not white space. */
  lemma HashedExactly(kdf: Kdf, pw: string, p: ArgonParams, salt: seq<Byte>)
    ensures HashPassword(kdf, pw, p, salt).Some? <==> exists i :: 0 <= i < |pw| && !IsWhite(pw[i] as int)
  {
    hide PhcEncode;
    forall c: char ensures IsSpace(c) <==> IsWhite(c as int) {
    }
    hide IsSpace, IsWhite;
    if i :| 0 <= i < |pw| && !IsWhite(pw[i] as int) {
      assert pw[i] in pw;
    }
  }

  /** A text that is no hash verifies nothing. */
  lemma NoHashNoPassword(kdf: Kdf, pw: string, phc: string)
    ensures VerifyPassword(kdf, pw, phc) <==>
              exists h :: PhcParse(phc) == Some(h) && kdf(pw, h.salt, h.time, h.memory, h.threads, |h.key|) == h.key
  {
    hide PhcParse;
    if VerifyPassword(kdf, pw, phc) {
      assert PhcParse(phc) == Some(PhcParse(phc).value);
    }
  }

  /**
  A hash verifies exactly the passwords with the same derived key, the hashed password among
  them.
  */
  lemma VerifyExactly(kdf: Kdf, pw: string, p: ArgonParams, salt: seq<Byte>, other: string)
    requires ReturnsKeyLen(kdf) && !Blank(pw)
    ensures HashPassword(kdf, pw, p, salt).Some?
    ensures var phc := HashPassword(kdf, pw, p, salt).value;
            && VerifyPassword(kdf, pw, phc)
            && (VerifyPassword(kdf, other, phc) <==>
                  kdf(other, salt, p.time, p.memory, p.threads, p.keyLen)
                    == kdf(pw, salt, p.time, p.memory, p.threads, p.keyLen))
  {
    hide PhcEncode, PhcParse;
    ParseUndoesEncode(p, salt, kdf(pw, salt, p.time, p.memory, p.threads, p.keyLen));
  }
}
