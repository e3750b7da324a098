/**
Name normalisation: the slug of a table name and the API name of a column are both
`trim(both sep from regexp_replace(lower(name), '[^keep]+', sep, 'g'))`.
Lowering is ASCII only.
*/
module Naming {

  function LowerChar(c: char): char {
    if 'A' <= c <= 'Z' then (c as int + 32) as char else c
  }

  function Lower(s: string): string {
    seq(|s|, i requires 0 <= i < |s| => LowerChar(s[i]))
  }

  /** Replaces every maximal run of characters outside `keep` by one `sep`. */
  function Collapse(s: string, keep: char -> bool, sep: char, inRun: bool): string {
    if s == [] then []
    else if keep(s[0]) then [s[0]] + Collapse(s[1..], keep, sep, false)
    else (if inRun then [] else [sep]) + Collapse(s[1..], keep, sep, true)
  }

  function TrimLeft(s: string, sep: char): string {
    if s != [] && s[0] == sep then TrimLeft(s[1..], sep) else s
  }

  function TrimRight(s: string, sep: char): string {
    if s != [] && s[|s| - 1] == sep then TrimRight(s[..|s| - 1], sep) else s
  }

  function Normalise(s: string, keep: char -> bool, sep: char): string {
    TrimRight(TrimLeft(Collapse(Lower(s), keep, sep, false), sep), sep)
  }

  predicate SlugChar(c: char) { 'a' <= c <= 'z' || '0' <= c <= '9' }

  predicate ColumnChar(c: char) { SlugChar(c) || c == '_' }

  function Slug(name: string): string { Normalise(name, SlugChar, '-') }

  function ColumnName(name: string): string { Normalise(name, ColumnChar, '_') }

  // ---------- What normalisation keeps ----------

  /** Every dropped character has become a `sep`, and no two of them are adjacent. */
  ghost predicate Tidy(s: string, keep: char -> bool, sep: char) {
    && (forall i :: 0 <= i < |s| ==> keep(s[i]) || s[i] == sep)
    && (forall i :: 0 < i < |s| ==> keep(s[i - 1]) || keep(s[i]))
  }

  lemma LowerIdempotent(s: string)
    ensures Lower(Lower(s)) == Lower(s)
  {
    assert forall i :: 0 <= i < |s| ==> LowerChar(LowerChar(s[i])) == LowerChar(s[i]);
  }

  lemma {:induction false} CollapseIsTidy(s: string, keep: char -> bool, sep: char, inRun: bool)
    ensures var r := Collapse(s, keep, sep, inRun);
            Tidy(r, keep, sep) && (inRun && r != [] ==> keep(r[0]))
  {
    if s != [] {
      CollapseIsTidy(s[1..], keep, sep, !keep(s[0]));
    }
  }

  lemma {:induction false} CollapseFixesTidy(s: string, keep: char -> bool, sep: char, inRun: bool)
    requires Tidy(s, keep, sep) && (inRun && s != [] ==> keep(s[0]))
    ensures Collapse(s, keep, sep, inRun) == s
  {
    if s != [] {
      assert s == [s[0]] + s[1..];
      if |s| > 1 {
        assert keep(s[0]) || keep(s[1]);
      }
      CollapseFixesTidy(s[1..], keep, sep, !keep(s[0]));
    }
  }

  lemma {:induction false} TrimLeftKeepsTidy(s: string, keep: char -> bool, sep: char)
    requires Tidy(s, keep, sep)
    ensures var r := TrimLeft(s, sep); Tidy(r, keep, sep) && (r != [] ==> r[0] != sep)
  {
    if s != [] && s[0] == sep {
      TrimLeftKeepsTidy(s[1..], keep, sep);
    }
  }

  lemma {:induction false} TrimRightKeepsTidy(s: string, keep: char -> bool, sep: char)
    requires Tidy(s, keep, sep) && (s != [] ==> s[0] != sep)
    ensures var r := TrimRight(s, sep);
            Tidy(r, keep, sep) && (r != [] ==> r[0] != sep && r[|r| - 1] != sep)
  {
    if s != [] && s[|s| - 1] == sep {
      TrimRightKeepsTidy(s[..|s| - 1], keep, sep);
    }
  }

  /** Normalising is idempotent, when lowering leaves the kept characters and the separator alone. */
  lemma NormaliseIdempotent(s: string, keep: char -> bool, sep: char)
    requires forall c :: keep(c) || c == sep ==> LowerChar(c) == c
    ensures var n := Normalise(s, keep, sep);
            Normalise(n, keep, sep) == n && Lower(n) == n
  {
    var collapsed := Collapse(Lower(s), keep, sep, false);
    CollapseIsTidy(Lower(s), keep, sep, false);
    TrimLeftKeepsTidy(collapsed, keep, sep);
    TrimRightKeepsTidy(TrimLeft(collapsed, sep), keep, sep);
    var n := Normalise(s, keep, sep);
    assert Lower(n) == n;
    CollapseFixesTidy(n, keep, sep, false);
  }

  /** A slug is its own slug, and a table name only matters to its slug through its lowered form. */
  lemma SlugIsStable(name: string)
    ensures Slug(Slug(name)) == Slug(name) && Lower(Slug(name)) == Slug(name)
    ensures Slug(Lower(name)) == Slug(name)
  {
    NormaliseIdempotent(name, SlugChar, '-');
    LowerIdempotent(name);
  }

  /** A column can be addressed by the name it was given as well as by the name it was stored under. */
  lemma ColumnNameIsStable(name: string)
    ensures ColumnName(ColumnName(name)) == ColumnName(name)
  {
    NormaliseIdempotent(name, ColumnChar, '_');
  }

  // ---------- What normalisation makes of a name ----------

  const UPPER: string := "ABCDEFGHIJKLMNOPQRSTUVWXYZ"
  const LETTERS: string := "abcdefghijklmnopqrstuvwxyz"
  const DIGITS: string := "0123456789"

  /** The letters and digits are consecutive characters. */
  lemma Consecutive()
    ensures forall k :: 0 <= k < 26 ==> UPPER[k] == 'A' + k as char
    ensures forall k :: 0 <= k < 26 ==> LETTERS[k] == 'a' + k as char
    ensures forall k :: 0 <= k < 10 ==> DIGITS[k] == '0' + k as char
    ensures |UPPER| == |LETTERS| == 26 && |DIGITS| == 10
  {
  }

  /** Lowering maps each capital to its letter and changes nothing else. */
  lemma LowerExactly(s: string)
    ensures |Lower(s)| == |s|
    ensures forall i :: 0 <= i < |s| && s[i] !in UPPER ==> Lower(s)[i] == s[i]
    ensures forall i, k :: 0 <= i < |s| && 0 <= k < 26 && s[i] == UPPER[k] ==> Lower(s)[i] == LETTERS[k]
  {
    Consecutive();
    hide UPPER, LETTERS;
    forall c: char | 'A' <= c <= 'Z' ensures c in UPPER {
      assert UPPER[c as int - 'A' as int] == c;
    }
  }

  /** Slugs keep letters and digits, column names also underscores. */
  lemma KeptExactly(c: char)
    ensures SlugChar(c) <==> c in LETTERS || c in DIGITS
    ensures ColumnChar(c) <==> c in LETTERS || c in DIGITS || c == '_'
  {
    Consecutive();
    hide LETTERS, DIGITS;
    if 'a' <= c <= 'z' { assert LETTERS[c as int - 'a' as int] == c; }
    if '0' <= c <= '9' { assert DIGITS[c as int - '0' as int] == c; }
  }

  /** The maximal runs of kept characters. */
  function Words(s: string, keep: char -> bool): (words: seq<string>)
    ensures s != [] && keep(s[0]) ==> words != []
    ensures words == [] <==> forall i :: 0 <= i < |s| ==> !keep(s[i])
  {
    if s == [] then []
    else if !keep(s[0]) then Words(s[1..], keep)
    else
      var rest := Words(s[1..], keep);
      if |s| > 1 && keep(s[1]) then [[s[0]] + rest[0]] + rest[1..] else [[s[0]]] + rest
  }

  function Join(words: seq<string>, sep: char): string {
    if words == [] then [] else if |words| == 1 then words[0] else words[0] + [sep] + Join(words[1..], sep)
  }

  /** `r` is `s` without the `sep` at either end. */
  ghost predicate IsTrimmed(r: string, s: string, sep: char) {
    && (r != [] ==> r[0] != sep && r[|r| - 1] != sep)
    && exists i, j :: 0 <= i <= j <= |s| && r == s[i..j] && forall k :: 0 <= k < i || j <= k < |s| ==> s[k] == sep
  }

  /** A `sep` for a dropped run in front, unless one is under way, and for one at the end. */
  function Lead(s: string, keep: char -> bool, sep: char, inRun: bool): string {
    if s != [] && !keep(s[0]) && !inRun then [sep] else []
  }

  function Trail(s: string, keep: char -> bool, sep: char): string {
    if Words(s, keep) != [] && !keep(s[|s| - 1]) then [sep] else []
  }

  function Joined(s: string, keep: char -> bool, sep: char, inRun: bool): string {
    Lead(s, keep, sep, inRun) + Join(Words(s, keep), sep) + Trail(s, keep, sep)
  }

  lemma {:induction false} CollapseJoinsWords(s: string, keep: char -> bool, sep: char, inRun: bool)
    ensures Collapse(s, keep, sep, inRun) == Joined(s, keep, sep, inRun)
  {
    hide Joined;
    if s == [] {
      NothingJoined(keep, sep, inRun);
    } else {
      CollapseJoinsWords(s[1..], keep, sep, !keep(s[0]));
      if keep(s[0]) { KeptJoined(s, keep, sep, inRun); } else { DroppedJoined(s, keep, sep, inRun); }
    }
  }

  lemma NothingJoined(keep: char -> bool, sep: char, inRun: bool)
    ensures Joined([], keep, sep, inRun) == []
  {
  }

  lemma DroppedJoined(s: string, keep: char -> bool, sep: char, inRun: bool)
    requires s != [] && !keep(s[0])
    ensures Joined(s, keep, sep, inRun) == (if inRun then [] else [sep]) + Joined(s[1..], keep, sep, true)
  {
    TrailOfRest(s, keep, sep);
    hide Join, Trail;
    assert Words(s, keep) == Words(s[1..], keep);
  }

  lemma KeptJoined(s: string, keep: char -> bool, sep: char, inRun: bool)
    requires s != [] && keep(s[0])
    ensures Joined(s, keep, sep, inRun) == [s[0]] + Joined(s[1..], keep, sep, false)
  {
    if Words(s[1..], keep) == [] {
      LastWordJoined(s, keep, sep);
    } else {
      KeptParts(s, keep, sep, inRun);
      hide Lead, Join, Words, Trail;
      Reassociate([s[0]], Lead(s[1..], keep, sep, false), Join(Words(s[1..], keep), sep), Trail(s, keep, sep));
    }
  }

  lemma KeptParts(s: string, keep: char -> bool, sep: char, inRun: bool)
    requires s != [] && keep(s[0]) && Words(s[1..], keep) != []
    ensures Lead(s, keep, sep, inRun) == [] && Trail(s, keep, sep) == Trail(s[1..], keep, sep)
    ensures Join(Words(s, keep), sep) == [s[0]] + Lead(s[1..], keep, sep, false) + Join(Words(s[1..], keep), sep)
  {
    JoinOfKept(s, keep, sep);
    TrailOfRest(s, keep, sep);
    WordsNeedCharacters(s[1..], keep);
    hide Join, Words, Trail;
  }

  lemma Reassociate(a: string, b: string, c: string, d: string)
    ensures [] + (a + b + c) + d == a + (b + c + d)
  {
  }

  lemma WordsNeedCharacters(s: string, keep: char -> bool)
    requires Words(s, keep) != []
    ensures s != []
  {
  }

  lemma LastWordJoined(s: string, keep: char -> bool, sep: char)
    requires s != [] && keep(s[0]) && Words(s[1..], keep) == []
    ensures Joined(s, keep, sep, true) == Joined(s, keep, sep, false) == [s[0]] + Joined(s[1..], keep, sep, false)
  {
    var rest := s[1..];
    assert Words(s, keep) == [[s[0]]];
    if rest != [] {
      assert !keep(rest[0]) && !keep(rest[|rest| - 1]) && rest[|rest| - 1] == s[|s| - 1];
    }
    assert Trail(s, keep, sep) == Lead(rest, keep, sep, false);
    hide Words, Trail, Lead;
  }

  lemma JoinNothing(sep: char)
    ensures Join([], sep) == []
  {
  }

  lemma JoinOfKept(s: string, keep: char -> bool, sep: char)
    requires s != [] && keep(s[0])
    ensures var rest := Words(s[1..], keep);
            Join(Words(s, keep), sep)
            == [s[0]] + (if rest != [] && !keep(s[1]) then [sep] else []) + Join(rest, sep)
  {
    var rest := Words(s[1..], keep);
    if |s| > 1 && keep(s[1]) {
      JoinLonger(s[0], rest, sep);
    } else {
      assert ([[s[0]]] + rest)[1..] == rest;
    }
  }

  lemma TrailOfRest(s: string, keep: char -> bool, sep: char)
    requires s != [] && (!keep(s[0]) || Words(s[1..], keep) != [])
    ensures Trail(s, keep, sep) == Trail(s[1..], keep, sep)
  {
    hide Join;
    if Words(s[1..], keep) != [] {
      assert s[1..] != [] && s[1..][|s| - 2] == s[|s| - 1];
    }
  }

  lemma JoinLonger(c: char, words: seq<string>, sep: char)
    requires words != []
    ensures Join([[c] + words[0]] + words[1..], sep) == [c] + Join(words, sep)
  {
    assert ([[c] + words[0]] + words[1..])[1..] == words[1..];
  }

  lemma {:induction false} TrimLeftStrips(s: string, sep: char) returns (i: nat)
    ensures i <= |s| && TrimLeft(s, sep) == s[i..] && forall k :: 0 <= k < i ==> s[k] == sep
    ensures i < |s| ==> s[i] != sep
  {
    if s != [] && s[0] == sep {
      var k := TrimLeftStrips(s[1..], sep);
      i := k + 1;
    } else {
      i := 0;
    }
  }

  lemma {:induction false} TrimRightStrips(s: string, sep: char) returns (j: nat)
    ensures j <= |s| && TrimRight(s, sep) == s[..j] && forall k :: j <= k < |s| ==> s[k] == sep
    ensures j > 0 ==> s[j - 1] != sep
  {
    if s != [] && s[|s| - 1] == sep {
      j := TrimRightStrips(s[..|s| - 1], sep);
    } else {
      j := |s|;
    }
  }

  lemma TrimStrips(s: string, sep: char)
    ensures IsTrimmed(TrimRight(TrimLeft(s, sep), sep), s, sep)
  {
    hide TrimLeft, TrimRight;
    var i := TrimLeftStrips(s, sep);
    var j := TrimRightStrips(s[i..], sep);
    assert s[i..][..j] == s[i..i + j];
    forall k | i + j <= k < |s| ensures s[k] == sep {
      assert s[i..][k - i] == s[k];
    }
    if j > 0 { assert s[i..][j - 1] == s[i + j - 1] && s[i..][0] == s[i]; }
  }

  /** A `sep` at either end makes no difference to what is left. */
  lemma TrimmedOnce(r: string, s: string, lead: string, trail: string, sep: char)
    requires IsTrimmed(r, lead + s + trail, sep)
    requires lead in {[], [sep]} && trail in {[], [sep]}
    ensures IsTrimmed(r, s, sep)
  {
    var all, n := lead + s + trail, |lead|;
    var i, j := Bounds(r, all, sep);
    hide IsTrimmed;
    assert s == all[n..n + |s|];
    assert n == 0 || (n == 1 && all[0] == sep);
    assert n + |s| == |all| || (n + |s| == |all| - 1 && all[|all| - 1] == sep);
    if r == [] {
      AllSeparators(s, all, n, sep);
    } else {
      WithinEnds(r, s, all, n, i, j, sep);
      SubTrimmed(r, s, all, n, i, j, sep);
    }
  }

  lemma Bounds(r: string, s: string, sep: char) returns (i: nat, j: nat)
    requires IsTrimmed(r, s, sep)
    ensures i <= j <= |s| && r == s[i..j] && forall k :: 0 <= k < i || j <= k < |s| ==> s[k] == sep
    ensures r != [] ==> r[0] != sep && r[|r| - 1] != sep
  {
    i, j :| 0 <= i <= j <= |s| && r == s[i..j] && forall k :: 0 <= k < i || j <= k < |s| ==> s[k] == sep;
  }

  lemma WithinEnds(r: string, s: string, all: string, n: nat, i: nat, j: nat, sep: char)
    requires n + |s| <= |all| && i < j <= |all| && r == all[i..j] && r[0] != sep && r[|r| - 1] != sep
    requires n == 0 || (n == 1 && all[0] == sep)
    requires n + |s| == |all| || (n + |s| == |all| - 1 && all[|all| - 1] == sep)
    ensures n <= i && j <= n + |s|
  {
    assert r[0] == all[i] && r[|r| - 1] == all[j - 1];
  }

  lemma AllSeparators(s: string, all: string, n: nat, sep: char)
    requires n + |s| <= |all| && s == all[n..n + |s|] && forall k :: 0 <= k < |all| ==> all[k] == sep
    ensures IsTrimmed([], s, sep)
  {
    assert s[0..0] == [];
    assert forall k :: 0 <= k < |s| ==> s[k] == all[n + k];
  }

  lemma SubTrimmed(r: string, s: string, all: string, n: nat, i: nat, j: nat, sep: char)
    requires n + |s| <= |all| && s == all[n..n + |s|] && n <= i <= j <= n + |s| && r == all[i..j]
    requires forall k :: 0 <= k < i || j <= k < |all| ==> all[k] == sep
    requires r != [] ==> r[0] != sep && r[|r| - 1] != sep
    ensures IsTrimmed(r, s, sep)
  {
    assert forall k :: 0 <= k < |s| ==> s[k] == all[n + k];
    assert forall k :: 0 <= k < |r| ==> r[k] == all[i + k] && s[i - n..j - n][k] == s[i - n + k];
    assert r == s[i - n..j - n];
  }

  /** A normalised name is the words of the lowered name, joined, without separators at the ends. */
  lemma NormaliseJoinsWords(s: string, keep: char -> bool, sep: char)
    ensures IsTrimmed(Normalise(s, keep, sep), Join(Words(Lower(s), keep), sep), sep)
  {
    hide Lower, TrimLeft, TrimRight, Collapse, Words, Join, IsTrimmed;
    var lowered := Lower(s);
    var words := Words(lowered, keep);
    CollapseJoinsWords(lowered, keep, sep, false);
    TrimStrips(Collapse(lowered, keep, sep, false), sep);
    var lead := if lowered != [] && !keep(lowered[0]) then [sep] else [];
    var trail := if words != [] && !keep(lowered[|lowered| - 1]) then [sep] else [];
    TrimmedOnce(Normalise(s, keep, sep), Join(words, sep), lead, trail, sep);
  }

  /** Without kept separators nothing is left to strip from the joined words. */
  lemma {:induction false} JoinedWordsAreTrimmed(s: string, keep: char -> bool, sep: char)
    requires !keep(sep)
    ensures var joined := Join(Words(s, keep), sep);
            joined != [] ==> joined[0] != sep && joined[|joined| - 1] != sep
    ensures Words(s, keep) != [] ==> Join(Words(s, keep), sep) != []
    ensures s != [] && keep(s[0]) ==> Join(Words(s, keep), sep) != [] && Join(Words(s, keep), sep)[0] == s[0]
  {
    if s != [] {
      JoinedWordsAreTrimmed(s[1..], keep, sep);
      if keep(s[0]) { JoinOfKept(s, keep, sep); }
    }
  }

  /** A slug is the runs of letters and digits of the lowered name, with one `-` between them. */
  lemma SlugJoinsWords(name: string)
    ensures Slug(name) == Join(Words(Lower(name), SlugChar), '-')
  {
    hide Lower, Words, Join, Normalise;
    NormaliseJoinsWords(name, SlugChar, '-');
    JoinedWordsAreTrimmed(Lower(name), SlugChar, '-');
  }

  /** A column name is the runs of letters, digits and underscores, without underscores at the ends. */
  lemma ColumnNameJoinsWords(name: string)
    ensures IsTrimmed(ColumnName(name), Join(Words(Lower(name), ColumnChar), '_'), '_')
  {
    NormaliseJoinsWords(name, ColumnChar, '_');
  }
}
