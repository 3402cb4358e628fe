/**
 Search on the list screens: a substring match made of an ILIKE whose wildcards
 are escaped. LIKE is the predicate of PostgreSQL (section 9.7.1 of its manual),
 with backtracking over `%` and the backslash as escape character.
 */
module Search {
  import opened Text

  // One pass over the text, replacing each of the three special characters.
  function EscapeLike(s: string): string {
    if s == [] then []
    else (if s[0] == '\\' || s[0] == '%' || s[0] == '_' then ['\\', s[0]] else [s[0]]) + EscapeLike(s[1..])
  }

  predicate Like(pattern: string, text: string)
    decreases |pattern|, |text|
  {
    if pattern == [] then text == []
    else if pattern[0] == '%' then
      Like(pattern[1..], text) || (text != [] && Like(pattern, text[1..]))
    else if pattern[0] == '_' then
      text != [] && Like(pattern[1..], text[1..])
    else if pattern[0] == '\\' then
      |pattern| > 1 && text != [] && text[0] == pattern[1] && Like(pattern[2..], text[1..])
    else
      text != [] && text[0] == pattern[0] && Like(pattern[1..], text[1..])
  }

  // PostgreSQL raises an error on a pattern whose escape character escapes nothing.
  predicate EndsInEscape(pattern: string) {
    if pattern == [] then false
    else if pattern[0] == '\\' then |pattern| == 1 || EndsInEscape(pattern[2..])
    else EndsInEscape(pattern[1..])
  }

  // A character-wise case fold, as ILIKE applies to both sides.
  function Fold(fold: char -> char, s: string): (t: string)
    ensures |t| == |s|
  {
    seq(|s|, i requires 0 <= i < |s| => fold(s[i]))
  }

  predicate IsSpecial(c: char) {
    c == '\\' || c == '%' || c == '_'
  }

  ghost predicate KeepsSpecials(fold: char -> char) {
    forall c :: IsSpecial(c) || IsSpecial(fold(c)) ==> fold(c) == c
  }

  predicate ILike(fold: char -> char, pattern: string, text: string) {
    Like(Fold(fold, pattern), Fold(fold, text))
  }

  predicate Contains(text: string, part: string) {
    exists i :: 0 <= i <= |text| && HasPrefix(text[i..], part)
  }

  function Pattern(s: string): string {
    "%" + EscapeLike(s) + "%"
  }

  function TrimSpace(s: string): string
    decreases |s|
  {
    if s != [] && IsSpace(s[0]) then TrimSpace(s[1..])
    else if s != [] && IsSpace(s[|s| - 1]) then TrimSpace(s[..|s| - 1])
    else s
  }

  // The clause `matching` adds: none at all for blank text.
  predicate Matching(fold: char -> char, text: string, title: string, slug: string) {
    var t := TrimSpace(text);
    t == "" || ILike(fold, Pattern(t), title) || ILike(fold, Pattern(t), slug)
  }

  // ---------------------------------------------------------------------------

  // Escaped text matches itself and nothing else.
  lemma {:induction false} LikeEscaped(s: string, rest: string, text: string)
    ensures Like(EscapeLike(s) + rest, text) <==> HasPrefix(text, s) && Like(rest, text[|s|..])
  {
    var pattern := EscapeLike(s) + rest;
    if s == [] {
      assert pattern == rest && text[..0] == s && text[0..] == text;
    } else {
      var w := if IsSpecial(s[0]) then 2 else 1;
      var head := if IsSpecial(s[0]) then ['\\', s[0]] else [s[0]];
      assert pattern == head + (EscapeLike(s[1..]) + rest);
      assert pattern[w..] == EscapeLike(s[1..]) + rest;
      if text != [] {
        LikeEscaped(s[1..], rest, text[1..]);
        if |s| <= |text| {
          assert text[1..][|s| - 1..] == text[|s|..];
          assert text[..|s|] == [text[0]] + text[1..][..|s| - 1] && s == [s[0]] + s[1..];
        }
      }
    }
  }

  // A leading % may skip any number of characters.
  lemma {:induction false} LikeLeadingPercent(pattern: string, text: string)
    ensures Like("%" + pattern, text) <==> exists i :: 0 <= i <= |text| && Like(pattern, text[i..])
    decreases |text|
  {
    assert ("%" + pattern)[1..] == pattern && text[0..] == text;
    if text != [] {
      LikeLeadingPercent(pattern, text[1..]);
      assert forall i :: 0 <= i < |text| ==> text[1..][i..] == text[i + 1..];
      if i :| 0 < i <= |text| && Like(pattern, text[i..]) {
        assert text[1..][i - 1..] == text[i..];
      }
    }
  }

  lemma {:induction false} PercentMatchesAll(text: string)
    ensures Like("%", text)
    decreases |text|
  {
    if text != [] {
      PercentMatchesAll(text[1..]);
    }
  }

  // The wrapped, escaped pattern is plain substring search.
  lemma LikeIsContains(s: string, text: string)
    ensures Like(Pattern(s), text) <==> Contains(text, s)
  {
    var inner := EscapeLike(s) + "%";
    assert Pattern(s) == "%" + inner;
    LikeLeadingPercent(inner, text);
    forall i | 0 <= i <= |text|
      ensures Like(inner, text[i..]) <==> HasPrefix(text[i..], s)
    {
      LikeEscaped(s, "%", text[i..]);
      if HasPrefix(text[i..], s) {
        PercentMatchesAll(text[i..][|s|..]);
      }
    }
  }

  lemma {:induction false} PatternIsWellFormed(s: string)
    ensures !EndsInEscape(EscapeLike(s) + "%")
  {
    var pattern := EscapeLike(s) + "%";
    if s != [] {
      PatternIsWellFormed(s[1..]);
      assert pattern[if IsSpecial(s[0]) then 2 else 1..] == EscapeLike(s[1..]) + "%";
    }
  }

  lemma {:induction false} FoldEscape(fold: char -> char, s: string)
    requires KeepsSpecials(fold)
    ensures Fold(fold, EscapeLike(s)) == EscapeLike(Fold(fold, s))
  {
    if s != [] {
      FoldEscape(fold, s[1..]);
      assert Fold(fold, s)[1..] == Fold(fold, s[1..]);
      assert IsSpecial(s[0]) <==> IsSpecial(fold(s[0]));
      assert fold('\\') == '\\';
    }
  }

  lemma SurroundsOuter(s: string, i: int, j: int, t: string, head: string, tail: string)
    requires Surrounds(s, i, j, t) && |head| + |tail| == 1 && IsSpace((head + tail)[0])
    ensures Surrounds(head + s + tail, |head| + i, |head| + j, t)
  {
    var u := head + s + tail;
    assert forall n :: 0 <= n < |s| ==> u[|head| + n] == s[n];
    assert u[|head| + i..|head| + j] == s[i..j];
  }

  predicate Bare(t: string) {
    t == "" || (!IsSpace(t[0]) && !IsSpace(t[|t| - 1]))
  }

  lemma SurroundsLeft(s: string, i: int, j: int, t: string)
    requires s != "" && IsSpace(s[0]) && Surrounds(s[1..], i, j, t)
    ensures Surrounds(s, i + 1, j + 1, t)
  {
    assert s == s[..1] + s[1..] + [];
    SurroundsOuter(s[1..], i, j, t, s[..1], []);
  }

  lemma SurroundsRight(s: string, i: int, j: int, t: string)
    requires s != "" && IsSpace(s[|s| - 1]) && Surrounds(s[..|s| - 1], i, j, t)
    ensures Surrounds(s, i, j, t)
  {
    var init := s[..|s| - 1];
    assert s == [] + init + [s[|s| - 1]];
    SurroundsOuter(init, i, j, t, [], [s[|s| - 1]]);
  }

  // White space is taken off both ends and from nowhere else.
  lemma {:induction false} TrimmedText(s: string) returns (i: int, j: int)
    ensures Surrounds(s, i, j, TrimSpace(s)) && Bare(TrimSpace(s))
    decreases |s|
  {
    if Bare(s) {
      i, j := 0, |s|;
      assert TrimSpace(s) == s && s[0..|s|] == s;
    } else if IsSpace(s[0]) {
      i, j := TrimmedText(s[1..]);
      SurroundsLeft(s, i, j, TrimSpace(s[1..]));
      i, j := i + 1, j + 1;
    } else {
      i, j := TrimmedText(s[..|s| - 1]);
      SurroundsRight(s, i, j, TrimSpace(s[..|s| - 1]));
    }
  }

  // The text s is t with white space only before i and from j on.
  predicate Surrounds(s: string, i: int, j: int, t: string) {
    && 0 <= i <= j <= |s| && t == s[i..j]
    && (forall n :: 0 <= n < i ==> IsSpace(s[n])) && (forall n :: j <= n < |s| ==> IsSpace(s[n]))
  }

  // What each special character of a pattern stands for, and the escape.
  lemma LikeExamples()
    ensures Like("a_c", "abc") && !Like("a_c", "ac")
    ensures Like("a%c", "abbc") && Like("a%c", "ac") && !Like("a%c", "ab")
    ensures Like("a\\_c", "a_c") && !Like("a\\_c", "abc")
  {
    assert "abc"[1..] == "bc" && "bc"[1..] == "c" && "c"[1..] == "" && "ac"[1..] == "c" && "_c"[1..] == "c";
    assert "a_c"[1..] == "_c" && "a%c"[1..] == "%c" && "%c"[1..] == "c" && "a\\_c"[1..] == "\\_c" && "\\_c"[2..] == "c";
    assert "abbc"[1..] == "bbc" && "bbc"[1..] == "bc" && "ab"[1..] == "b" && "b"[1..] == "";
    assert Like("c", "c") && !Like("c", "") && !Like("c", "bc") && !Like("c", "bbc") && !Like("c", "b");
    assert Like("%c", "c") && Like("%c", "bc") && Like("%c", "bbc") && !Like("%c", "") && !Like("%c", "b");
    assert Like("_c", "bc") && !Like("_c", "c");
    assert Like("\\_c", "_c") && !Like("\\_c", "bc");
  }

  // What the search box finds: the trimmed text as a substring of title or slug, up
  // to case, whatever wildcards it holds. The clause left out for blank text agrees.
  lemma SearchIsSubstring(fold: char -> char, text: string, title: string, slug: string)
    requires KeepsSpecials(fold)
    ensures Matching(fold, text, title, slug) <==>
            var part := Fold(fold, TrimSpace(text));
            Contains(Fold(fold, title), part) || Contains(Fold(fold, slug), part)
    ensures !EndsInEscape(Fold(fold, Pattern(TrimSpace(text))))
  {
    var t := TrimSpace(text);
    var part := Fold(fold, t);
    FoldEscape(fold, t);
    assert IsSpecial('%') && fold('%') == '%';
    assert Fold(fold, Pattern(t)) == Pattern(part);
    LikeIsContains(part, Fold(fold, title));
    LikeIsContains(part, Fold(fold, slug));
    PatternIsWellFormed(part);
    assert Pattern(part)[1..] == EscapeLike(part) + "%";
    if t == "" {
      assert HasPrefix(Fold(fold, title)[0..], part);
    }
  }
}
