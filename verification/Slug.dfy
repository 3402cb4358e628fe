/** The slug format the schema enforces: `^[a-z0-9]+(-[a-z0-9]+)*$`. */
module Slug {
  import opened Text

  predicate IsWordChar(c: char) {
    'a' <= c <= 'z' || '0' <= c <= '9'
  }

  // [a-z0-9]+
  predicate IsWord(s: string) {
    s != [] && forall i :: 0 <= i < |s| ==> IsWordChar(s[i])
  }

  // The pattern itself: a word, then (-[a-z0-9]+)* up to the end.
  ghost predicate Matches(s: string)
    decreases |s|, 1
  {
    exists n: nat :: 0 < n <= |s| && IsWord(s[..n]) && MatchesTail(s[n..])
  }

  ghost predicate MatchesTail(s: string)
    decreases |s|, 0
  {
    s == [] || (s[0] == '-' && Matches(s[1..]))
  }

  // The same language, decided by splitting on the hyphens.
  predicate IsSlug(s: string) {
    var words := Split(s, '-');
    forall i :: 0 <= i < |words| ==> IsWord(words[i])
  }

  lemma WordHasNoHyphen(w: string)
    requires IsWord(w)
    ensures '-' !in w
  {
  }

  lemma {:induction false} MatchesIsSlug(s: string)
    requires Matches(s)
    ensures IsSlug(s)
    decreases |s|
  {
    var n: nat :| 0 < n <= |s| && IsWord(s[..n]) && MatchesTail(s[n..]);
    var word, tail := s[..n], s[n..];
    WordHasNoHyphen(word);
    if tail == [] {
      assert s == word;
      SplitWhole(word, '-');
    } else {
      assert s == word + ['-'] + tail[1..];
      SplitFirst(word, tail[1..], '-');
      MatchesIsSlug(tail[1..]);
    }
  }

  lemma {:induction false} JoinMatches(words: seq<string>)
    requires words != [] && forall i :: 0 <= i < |words| ==> IsWord(words[i])
    ensures Matches(Join(words, '-'))
  {
    var s, word := Join(words, '-'), words[0];
    if |words| == 1 {
      assert s[..|word|] == word && s[|word|..] == [];
    } else {
      JoinMatches(words[1..]);
      assert s[..|word|] == word;
      assert s[|word|..] == ['-'] + Join(words[1..], '-');
      assert s[|word|..][1..] == Join(words[1..], '-');
      assert MatchesTail(s[|word|..]);
    }
  }

  // Splitting decides the pattern, and its language is exactly the hyphen-joins of
  // words, with split and join inverse to each other on it.
  lemma SlugLanguage(s: string)
    ensures Matches(s) <==> IsSlug(s)
    ensures IsSlug(s) ==> Join(Split(s, '-'), '-') == s
  {
    JoinSplit(s, '-');
    if IsSlug(s) {
      JoinMatches(Split(s, '-'));
    }
    if Matches(s) {
      MatchesIsSlug(s);
    }
  }

  lemma WordsOfSlug(words: seq<string>)
    requires words != [] && forall i :: 0 <= i < |words| ==> IsWord(words[i])
    ensures IsSlug(Join(words, '-')) && Split(Join(words, '-'), '-') == words
  {
    forall i | 0 <= i < |words| ensures '-' !in words[i] {
      WordHasNoHyphen(words[i]);
    }
    SplitJoin(words, '-');
  }

  // The characters of the pattern's class by their codes.
  lemma WordCharacters(c: char)
    ensures IsWordChar(c) <==> 48 <= c as int <= 57 || 97 <= c as int <= 122
  {
  }
}
