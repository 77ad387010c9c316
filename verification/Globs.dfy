/** Glob patterns, chains of ReplaceAll calls, and the LIKE patterns that the SQLite backend makes by one. */
module Globs {
  import opened Strings

  // ------------------------------------------------------ chains of ReplaceAll

  datatype Replacement = Replacement(from: char, to: string)

  /** strings.ReplaceAll of a one-character text. */
  function ReplaceAll(s: string, from: char, to: string): string {
    if s == "" then ""
    else (if s[0] == from then to else [s[0]]) + ReplaceAll(s[1..], from, to)
  }

  function ReplaceChain(s: string, reps: seq<Replacement>): string
    decreases |reps|
  {
    if reps == [] then s
    else ReplaceChain(ReplaceAll(s, reps[0].from, reps[0].to), reps[1..])
  }

  /** The loop over a list of replacements that both backends have. */
  method Rewrite(s: string, reps: seq<Replacement>) returns (t: string)
    ensures t == ReplaceChain(s, reps)
  {
    t := s;
    for i := 0 to |reps|
      invariant ReplaceChain(t, reps[i..]) == ReplaceChain(s, reps)
    {
      assert reps[i..][1..] == reps[i + 1..];
      t := ReplaceAll(t, reps[i].from, reps[i].to);
    }
  }

  /** Every character replaced at once. */
  function Substitute(s: string, f: char -> string): string {
    if s == "" then "" else f(s[0]) + Substitute(s[1..], f)
  }

  lemma {:induction false} ReplaceAllAppend(a: string, b: string, from: char, to: string)
    ensures ReplaceAll(a + b, from, to) == ReplaceAll(a, from, to) + ReplaceAll(b, from, to)
  {
    if a == "" {
      assert a + b == b;
    } else {
      assert (a + b)[1..] == a[1..] + b;
      ReplaceAllAppend(a[1..], b, from, to);
    }
  }

  lemma {:induction false} ReplaceChainAppend(a: string, b: string, reps: seq<Replacement>)
    ensures ReplaceChain(a + b, reps) == ReplaceChain(a, reps) + ReplaceChain(b, reps)
    decreases |reps|
  {
    if reps != [] {
      ReplaceAllAppend(a, b, reps[0].from, reps[0].to);
      ReplaceChainAppend(ReplaceAll(a, reps[0].from, reps[0].to), ReplaceAll(b, reps[0].from, reps[0].to), reps[1..]);
    }
  }

  lemma {:induction false} ReplaceChainEmpty(reps: seq<Replacement>)
    ensures ReplaceChain("", reps) == ""
  {
    if reps != [] {
      ReplaceChainEmpty(reps[1..]);
    }
  }

  /** A chain of replacements is one simultaneous substitution: each character becomes what the chain makes
      of it alone. */
  lemma {:induction false} ChainIsSubstitution(s: string, reps: seq<Replacement>)
    ensures ReplaceChain(s, reps) == Substitute(s, c => ReplaceChain([c], reps))
  {
    if s == "" {
      ReplaceChainEmpty(reps);
    } else {
      assert s == [s[0]] + s[1..];
      ReplaceChainAppend([s[0]], s[1..], reps);
      ChainIsSubstitution(s[1..], reps);
    }
  }

  lemma {:induction false} SubstituteSame(s: string, f: char -> string, g: char -> string)
    requires forall c :: f(c) == g(c)
    ensures Substitute(s, f) == Substitute(s, g)
  {
    if s != "" {
      SubstituteSame(s[1..], f, g);
    }
  }

  // --------------------------------------------------------- the glob language

  /** `*` stands for any text, every other character for itself. */
  predicate GlobMatches(glob: string, s: string)
    decreases |glob|, |s|
  {
    if glob == "" then s == ""
    else if glob[0] == '*' then GlobMatches(glob[1..], s) || (s != "" && GlobMatches(glob, s[1..]))
    else s != "" && s[0] == glob[0] && GlobMatches(glob[1..], s[1..])
  }

  /** A star takes any beginning of the text. */
  lemma {:induction false} StarTakesAnyPrefix(glob: string, s: string)
    requires glob != "" && glob[0] == '*'
    ensures GlobMatches(glob, s) <==> exists i :: 0 <= i <= |s| && GlobMatches(glob[1..], s[i..])
    decreases |s|
  {
    assert s[0..] == s;
    if s != "" {
      StarTakesAnyPrefix(glob, s[1..]);
      forall i | 0 <= i <= |s| - 1 ensures s[1..][i..] == s[i + 1..] {
      }
      if exists i :: 0 <= i <= |s| && GlobMatches(glob[1..], s[i..]) {
        var i :| 0 <= i <= |s| && GlobMatches(glob[1..], s[i..]);
        if i > 0 {
          assert s[1..][i - 1..] == s[i..];
        }
      }
    }
  }

  // ------------------------------------------------------------ SQL LIKE

  function Lower(c: char): char {
    if 'A' <= c <= 'Z' then 'a' + (c - 'A') else c
  }

  /** ASCII lower case, the folding LIKE does. */
  function Fold(s: string): (t: string)
    ensures |t| == |s| && forall i :: 0 <= i < |s| ==> t[i] == Lower(s[i])
  {
    seq(|s|, i requires 0 <= i < |s| => Lower(s[i]))
  }

  /** Two texts fold alike exactly when they are the same but for the case of ASCII letters. */
  lemma FoldMeaning(s: string, t: string)
    ensures Fold(s) == Fold(t) <==>
      |s| == |t| && forall i :: 0 <= i < |s| ==>
        s[i] == t[i] || ('A' <= s[i] <= 'Z' && t[i] as int == s[i] as int + 32) ||
        ('A' <= t[i] <= 'Z' && s[i] as int == t[i] as int + 32)
    ensures Fold(s) == s <==> forall i :: 0 <= i < |s| ==> !('A' <= s[i] <= 'Z')
  {
    if Fold(s) == s {
      assert forall i :: 0 <= i < |s| ==> Fold(s)[i] == s[i];
    }
  }

  /** SQLite's LIKE with ESCAPE '\': `%` any text, `_` any character, an escaped character itself. */
  predicate Like(pattern: string, s: string)
    decreases |pattern|, |s|
  {
    if pattern == "" then s == ""
    else if pattern[0] == '%' then Like(pattern[1..], s) || (s != "" && Like(pattern, s[1..]))
    else if pattern[0] == '\\' then
      |pattern| >= 2 && s != "" && Lower(pattern[1]) == Lower(s[0]) && Like(pattern[2..], s[1..])
    else if pattern[0] == '_' then s != "" && Like(pattern[1..], s[1..])
    else s != "" && Lower(pattern[0]) == Lower(s[0]) && Like(pattern[1..], s[1..])
  }

  /** The replacements of SearchRecords; GlobRecords adds the star. */
  const LIKE_ESCAPES: seq<Replacement> :=
    [Replacement('\\', "\\\\"), Replacement('%', "\\%"), Replacement('_', "\\_")]

  const LIKE_GLOB: seq<Replacement> := LIKE_ESCAPES + [Replacement('*', "%")]

  /** What one character becomes. */
  function EscapedChar(c: char): string {
    if c == '\\' || c == '%' || c == '_' then ['\\', c] else [c]
  }

  function LikeChar(c: char): string {
    if c == '*' then "%" else EscapedChar(c)
  }

  lemma OneReplacement(s: string, r: Replacement)
    ensures ReplaceChain(s, [r]) == ReplaceAll(s, r.from, r.to)
  {
    assert [r][1..] == [];
  }

  lemma {:induction false} ReplaceOne(c: char, r: Replacement)
    ensures ReplaceAll([c], r.from, r.to) == if c == r.from then r.to else [c]
  {
    assert [c][1..] == "";
  }

  lemma ReplaceTwo(c: char, d: char, r: Replacement)
    ensures ReplaceAll([c, d], r.from, r.to)
         == (if c == r.from then r.to else [c]) + (if d == r.from then r.to else [d])
  {
    assert [c, d] == [c] + [d];
    ReplaceAllAppend([c], [d], r.from, r.to);
    ReplaceOne(c, r);
    ReplaceOne(d, r);
  }

  /** A character the rest of the chain leaves alone. */
  lemma {:induction false} ChainKeepsTwo(c: char, d: char, reps: seq<Replacement>)
    requires forall r :: r in reps ==> r.from != c && r.from != d
    ensures ReplaceChain([c, d], reps) == [c, d]
  {
    if reps != [] {
      ReplaceTwo(c, d, reps[0]);
      ChainKeepsTwo(c, d, reps[1..]);
    }
  }

  lemma {:induction false} ChainKeepsOne(c: char, reps: seq<Replacement>)
    requires forall r :: r in reps ==> r.from != c
    ensures ReplaceChain([c], reps) == [c]
  {
    if reps != [] {
      ReplaceOne(c, reps[0]);
      ChainKeepsOne(c, reps[1..]);
    }
  }

  /** The first replacement that names a character decides what it becomes, provided that no later
      replacement names a character of the result. */
  lemma {:induction false} ChainOfOne(c: char, d: char, e: char, reps: seq<Replacement>, n: nat)
    requires n < |reps| && reps[n] == Replacement(c, [d, e])
    requires forall i :: 0 <= i < n ==> reps[i].from != c
    requires forall i :: n < i < |reps| ==> reps[i].from != d && reps[i].from != e
    ensures ReplaceChain([c], reps) == [d, e]
  {
    ReplaceOne(c, reps[0]);
    if n == 0 {
      ChainKeepsTwo(d, e, reps[1..]);
    } else {
      ChainOfOne(c, d, e, reps[1..], n - 1);
    }
  }

  lemma LikeCharCorrect(c: char)
    ensures ReplaceChain([c], LIKE_ESCAPES) == EscapedChar(c)
    ensures ReplaceChain([c], LIKE_GLOB) == LikeChar(c)
  {
    if c == '\\' {
      ChainOfOne(c, '\\', c, LIKE_ESCAPES, 0);
      ChainOfOne(c, '\\', c, LIKE_GLOB, 0);
    } else if c == '%' {
      ChainOfOne(c, '\\', c, LIKE_ESCAPES, 1);
      ChainOfOne(c, '\\', c, LIKE_GLOB, 1);
    } else if c == '_' {
      ChainOfOne(c, '\\', c, LIKE_ESCAPES, 2);
      ChainOfOne(c, '\\', c, LIKE_GLOB, 2);
    } else if c == '*' {
      ChainKeepsOne(c, LIKE_ESCAPES);
      ChainSplit("*", LIKE_ESCAPES, [Replacement('*', "%")]);
      OneReplacement("*", Replacement('*', "%"));
      ReplaceOne('*', Replacement('*', "%"));
    } else {
      ChainKeepsOne(c, LIKE_ESCAPES);
      ChainKeepsOne(c, LIKE_GLOB);
    }
  }

  lemma {:induction false} ChainSplit(s: string, a: seq<Replacement>, b: seq<Replacement>)
    ensures ReplaceChain(s, a + b) == ReplaceChain(ReplaceChain(s, a), b)
    decreases |a|
  {
    if a == [] {
      assert a + b == b;
    } else {
      assert (a + b)[1..] == a[1..] + b;
      ChainSplit(ReplaceAll(s, a[0].from, a[0].to), a[1..], b);
    }
  }

  function EscapeLike(s: string): string {
    ReplaceChain(s, LIKE_ESCAPES)
  }

  function LikePattern(glob: string): string {
    ReplaceChain(glob, LIKE_GLOB)
  }

  lemma EscapeLikeIsSubstitution(s: string)
    ensures EscapeLike(s) == Substitute(s, EscapedChar)
  {
    ChainIsSubstitution(s, LIKE_ESCAPES);
    forall c ensures ReplaceChain([c], LIKE_ESCAPES) == EscapedChar(c) { LikeCharCorrect(c); }
    SubstituteSame(s, c => ReplaceChain([c], LIKE_ESCAPES), EscapedChar);
  }

  lemma LikePatternIsSubstitution(glob: string)
    ensures LikePattern(glob) == Substitute(glob, LikeChar)
  {
    ChainIsSubstitution(glob, LIKE_GLOB);
    forall c ensures ReplaceChain([c], LIKE_GLOB) == LikeChar(c) { LikeCharCorrect(c); }
    SubstituteSame(glob, c => ReplaceChain([c], LIKE_GLOB), LikeChar);
  }

  lemma FoldTail(s: string)
    requires s != ""
    ensures Fold(s)[1..] == Fold(s[1..]) && Fold(s)[0] == Lower(s[0])
  {
  }

  lemma {:induction false} SubstitutedLike(glob: string, s: string)
    ensures Like(Substitute(glob, LikeChar), s) <==> GlobMatches(Fold(glob), Fold(s))
    decreases |glob|, |s|
  {
    if glob != "" {
      var p, rest := Substitute(glob, LikeChar), Substitute(glob[1..], LikeChar);
      FoldTail(glob);
      if s != "" {
        FoldTail(s);
        SubstitutedLike(glob[1..], s[1..]);
      }
      if glob[0] == '*' {
        assert p[0] == '%' && p[1..] == rest;
        SubstitutedLike(glob[1..], s);
        if s != "" {
          SubstitutedLike(glob, s[1..]);
        }
      } else if EscapedChar(glob[0]) == ['\\', glob[0]] {
        assert p[0] == '\\' && p[1] == glob[0] && p[2..] == rest;
      } else {
        assert p[0] == glob[0] && p[1..] == rest;
      }
    }
  }

  /** GlobRecords of the SQLite backend: for every glob and every name, LIKE answers what the glob means up
      to ASCII case. */
  lemma LikePatternMeaning(glob: string, s: string)
    ensures Like(LikePattern(glob), s) <==> GlobMatches(Fold(glob), Fold(s))
  {
    LikePatternIsSubstitution(glob);
    SubstitutedLike(glob, s);
  }

  lemma {:induction false} SubstitutedLiteral(t: string, s: string)
    ensures Like(Substitute(t, EscapedChar), s) <==> Fold(t) == Fold(s)
  {
    if t == "" {
      assert Fold(t) == [];
    } else {
      var p, rest := Substitute(t, EscapedChar), Substitute(t[1..], EscapedChar);
      FoldTail(t);
      assert Fold(t) == [Lower(t[0])] + Fold(t[1..]);
      if s != "" {
        FoldTail(s);
        assert Fold(s) == [Lower(s[0])] + Fold(s[1..]);
        SubstitutedLiteral(t[1..], s[1..]);
      }
      if EscapedChar(t[0]) == ['\\', t[0]] {
        assert p[0] == '\\' && p[1] == t[0] && p[2..] == rest;
      } else {
        assert p[0] == t[0] && p[1..] == rest;
      }
    }
  }

  /** An escaped text matches only itself, up to ASCII case. */
  lemma EscapeLikeMeaning(t: string, s: string)
    ensures Like(EscapeLike(t), s) <==> Fold(t) == Fold(s)
  {
    EscapeLikeIsSubstitution(t);
    SubstitutedLiteral(t, s);
  }

  lemma {:induction false} PercentTakesAnyPrefix(p: string, s: string)
    ensures Like("%" + p, s) <==> exists i :: 0 <= i <= |s| && Like(p, s[i..])
    decreases |s|
  {
    assert ("%" + p)[1..] == p;
    assert s[0..] == s;
    if s != "" {
      PercentTakesAnyPrefix(p, s[1..]);
      forall i | 0 <= i <= |s| - 1 ensures s[1..][i..] == s[i + 1..] {
      }
      if exists i :: 0 <= i <= |s| && Like(p, s[i..]) {
        var i :| 0 <= i <= |s| && Like(p, s[i..]);
        if i > 0 {
          assert s[1..][i - 1..] == s[i..];
        }
      }
    }
  }
}
