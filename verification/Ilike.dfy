/** ILIKE as both searches use it, on ASCII letters: `%` is any text, `_` any character, `\` escapes. */
module Ilike {
  import opened Naming

  ghost predicate Like(text: string, pattern: string)
    decreases |pattern|
  {
    if pattern == [] then text == []
    else if pattern[0] == '%' then exists k :: 0 <= k <= |text| && Like(text[k..], pattern[1..])
    else if pattern[0] == '_' then text != [] && Like(text[1..], pattern[1..])
    else if pattern[0] == '\\' && |pattern| > 1 then
      text != [] && text[0] == pattern[1] && Like(text[1..], pattern[2..])
    else text != [] && text[0] == pattern[0] && Like(text[1..], pattern[1..])
  }

  ghost predicate ILike(text: string, pattern: string) { Like(Lower(text), Lower(pattern)) }

  /** No character of the text is special in a pattern. */
  predicate Literal(s: string) { '%' !in s && '_' !in s && '\\' !in s }

  predicate StartsWith(text: string, s: string) { s <= text }

  predicate EndsWith(text: string, s: string) { |s| <= |text| && text[|text| - |s|..] == s }

  ghost predicate Contains(text: string, s: string) { exists k :: 0 <= k <= |text| && s <= text[k..] }

  lemma {:induction false} LiteralPrefix(text: string, s: string, rest: string)
    requires Literal(s)
    ensures Like(text, s + rest) <==> s <= text && Like(text[|s|..], rest)
  {
    if s == [] {
      assert s + rest == rest && text[0..] == text;
    } else {
      assert (s + rest)[1..] == s[1..] + rest;
      assert s[0] in s;
      if text != [] {
        LiteralPrefix(text[1..], s[1..], rest);
        if s <= text {
          assert text[1..][|s| - 1..] == text[|s|..];
        }
        assert s <= text <==> s[0] == text[0] && s[1..] <= text[1..];
      }
    }
  }

  lemma AnyText(text: string)
    ensures Like(text, "%")
  {
    assert text[|text|..] == [];
    assert Like(text[|text|..], "%"[1..]);
  }

  lemma LiteralOnly(text: string, s: string)
    requires Literal(s)
    ensures Like(text, s) <==> text == s
    ensures Like(text, s + "%") <==> s <= text
  {
    hide Like;
    LiteralPrefix(text, s, []);
    LiteralPrefix(text, s, "%");
    assert s + [] == s;
    if s <= text {
      AnyText(text[|s|..]);
      assert Like(text[|s|..], []) <==> text[|s|..] == [] by { EmptyPattern(text[|s|..]); }
    }
  }

  lemma EmptyPattern(text: string)
    ensures Like(text, []) <==> text == []
  {
  }

  lemma AnyThen(text: string, rest: string)
    ensures Like(text, "%" + rest) <==> exists k :: 0 <= k <= |text| && Like(text[k..], rest)
  {
    assert ("%" + rest)[1..] == rest;
  }

  /** For a literal value the three patterns mean prefix, suffix and substring. */
  lemma PatternsMean(text: string, s: string)
    requires Literal(s)
    ensures Like(text, s + "%") <==> StartsWith(text, s)
    ensures Like(text, "%" + s) <==> EndsWith(text, s)
    ensures Like(text, "%" + s + "%") <==> Contains(text, s)
  {
    hide Like, Literal;
    forall t { LiteralOnly(t, s); }
    AnyThen(text, s);
    AnyThen(text, s + "%");
    assert "%" + (s + "%") == "%" + s + "%";
  }

  lemma LowerOfConcat(a: string, b: string)
    ensures Lower(a + b) == Lower(a) + Lower(b)
  {
  }

  /** ILIKE with a literal value between wildcards ignores the case of ASCII letters. */
  lemma IlikeMeans(text: string, s: string)
    requires Literal(s)
    ensures ILike(text, s + "%") <==> StartsWith(Lower(text), Lower(s))
    ensures ILike(text, "%" + s) <==> EndsWith(Lower(text), Lower(s))
    ensures ILike(text, "%" + s + "%") <==> Contains(Lower(text), Lower(s))
  {
    assert Literal(Lower(s)) by {
      forall c <- Lower(s) ensures c != '%' && c != '_' && c != '\\' {
        var i :| 0 <= i < |s| && Lower(s)[i] == c;
        assert s[i] in s;
      }
    }
    LowerOfConcat(s, "%");
    LowerOfConcat("%", s);
    LowerOfConcat("%" + s, "%");
    assert Lower("%") == "%";
    PatternsMean(Lower(text), Lower(s));
  }

  /** `_` after a literal stands for exactly one character, and an escaped character only for itself. */
  lemma OneCharacterMeans(text: string, s: string, c: char, rest: string)
    requires Literal(s)
    ensures Like(text, s + "_" + rest) <==> s < text && Like(text[|s| + 1..], rest)
    ensures Like(text, s + "\\" + [c] + rest) <==> s < text && text[|s|] == c && Like(text[|s| + 1..], rest)
  {
    var any, escaped := "_" + rest, "\\" + [c] + rest;
    assert s + "_" + rest == s + any && s + "\\" + [c] + rest == s + escaped;
    LiteralPrefix(text, s, any);
    LiteralPrefix(text, s, escaped);
    assert any[1..] == rest && escaped[2..] == rest && escaped[1] == c;
    if s <= text && s != text {
      assert text[|s|..][1..] == text[|s| + 1..] && text[|s|..][0] == text[|s|];
    }
  }
}
