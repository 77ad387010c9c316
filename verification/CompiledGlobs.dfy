/** The regular expressions that the etcd backend makes of globs by a chain of ReplaceAll calls: which of them
    compile, and which mean what the glob means. */
module CompiledGlobs {
  import opened Strings
  import opened Globs
  import opened Regexps

  // ------------------------------------------------ regular expressions

  const REGEXP_GLOB: seq<Replacement> :=
    [Replacement('\\', "\\\\"), Replacement('.', "\\."), Replacement('+', "\\+"), Replacement('[', "\\["),
     Replacement(']', "\\]"), Replacement('(', "\\("), Replacement(')', "\\)"), Replacement('^', "\\^"),
     Replacement('$', "\\$"), Replacement('*', ".*")]

  /** What compileGlob puts between the anchors. */
  function CompileGlob(glob: string): string {
    ReplaceChain(glob, REGEXP_GLOB)
  }

  /** The characters that compileGlob escapes. */
  predicate IsEscaped(c: char) {
    c == '\\' || c == '.' || c == '+' || c == '[' || c == ']' || c == '(' || c == ')' || c == '^' || c == '$'
  }

  function RegexpChar(c: char): string {
    if c == '*' then ".*" else if IsEscaped(c) then ['\\', c] else [c]
  }

  function EscapeIndex(c: char): nat {
    if c == '\\' then 0 else if c == '.' then 1 else if c == '+' then 2 else if c == '[' then 3
    else if c == ']' then 4 else if c == '(' then 5 else if c == ')' then 6 else if c == '^' then 7 else 8
  }

  lemma RegexpCharCorrect(c: char)
    ensures ReplaceChain([c], REGEXP_GLOB) == RegexpChar(c)
  {
    if c == '*' {
      ChainOfOne(c, '.', '*', REGEXP_GLOB, 9);
    } else if IsEscaped(c) {
      ChainOfOne(c, '\\', c, REGEXP_GLOB, EscapeIndex(c));
    } else {
      ChainKeepsOne(c, REGEXP_GLOB);
    }
  }

  /** The chain equals one simultaneous substitution, character by character. */
  lemma CompileGlobIsSubstitution(glob: string)
    ensures CompileGlob(glob) == Substitute(glob, RegexpChar)
  {
    ChainIsSubstitution(glob, REGEXP_GLOB);
    forall c ensures ReplaceChain([c], REGEXP_GLOB) == RegexpChar(c) { RegexpCharCorrect(c); }
    SubstituteSame(glob, c => ReplaceChain([c], REGEXP_GLOB), RegexpChar);
  }

  /** The regular expression of a glob; None is an error. */
  function Compiled(glob: string): Option<seq<seq<Piece>>> {
    Parse("^" + CompileGlob(glob) + "$", [], false)
  }

  /** The predicate compileGlob returns. */
  predicate RegexpMatches(glob: string, s: string) {
    Compiled(glob).Some? && Matches(Compiled(glob).value, s)
  }

  // ------------------------------------------- compiled globs, read from the glob

  /** What parsing a compiled glob gives, said in terms of the glob. */
  function Read(glob: string, current: seq<Piece>, repeated: bool): Option<seq<seq<Piece>>>
    decreases |glob|
  {
    if glob == "" then Some([current + [Once(End)]])
    else if glob[0] == '|' then Cons(current, Read(glob[1..], [], false))
    else if glob[0] == '*' then Read(AfterLazy(glob[1..]), current + [Piece(AnyChar, 0, None)], true)
    else if glob[0] == '?' then
      if repeated || current == [] then None else Read(AfterLazy(glob[1..]), RepeatLast(current, 0, Some(1)), true)
    else if glob[0] == '{' && TakeBraces(glob).Some? then
      var b := TakeBraces(glob).value;
      if !IsSized(b.min, b.max) || repeated || current == [] then None
      else Read(AfterLazy(b.rest), RepeatLast(current, b.min, b.max), true)
    else Read(glob[1..], current + [Once(Char(glob[0]))], false)
  }

  /** The text of a glob between the anchors, with the closing one. */
  function Closed(glob: string): string {
    Substitute(glob, RegexpChar) + "$"
  }

  lemma ClosedStep(glob: string)
    requires glob != ""
    ensures Closed(glob) == RegexpChar(glob[0]) + Closed(glob[1..])
  {
  }

  lemma ClosedHead(glob: string)
    ensures Closed(glob) != ""
    ensures glob != "" && RegexpChar(glob[0]) == [glob[0]] ==>
      Closed(glob)[0] == glob[0] && Closed(glob)[1..] == Closed(glob[1..])
    ensures glob != "" && RegexpChar(glob[0]) != [glob[0]] ==> Closed(glob)[0] == '.' || Closed(glob)[0] == '\\'
    ensures glob == "" ==> Closed(glob) == "$"
  {
  }

  lemma {:induction false} ClosedDigits(glob: string)
    ensures var n := DigitsEnd(glob);
            DigitsEnd(Closed(glob)) == n && Closed(glob)[..n] == glob[..n] && Closed(glob)[n..] == Closed(glob[n..])
  {
    hide Closed;
    ClosedHead(glob);
    if glob != "" && IsDigit(glob[0]) {
      ClosedDigits(glob[1..]);
      var n, t := DigitsEnd(glob[1..]), Closed(glob);
      assert t[..n + 1] == [t[0]] + t[1..][..n] && glob[..n + 1] == [glob[0]] + glob[1..][..n];
      assert t[n + 1..] == t[1..][n..] && glob[n + 1..] == glob[1..][n..];
    }
  }

  lemma ClosedNumber(glob: string)
    ensures TakeNumber(Closed(glob)).None? <==> TakeNumber(glob).None?
    ensures TakeNumber(glob).Some? ==>
      TakeNumber(Closed(glob)) == Some((TakeNumber(glob).value.0, Closed(TakeNumber(glob).value.1)))
  {
    ClosedDigits(glob);
    ClosedHead(glob);
  }

  lemma ClosedMax(min: nat, r: string)
    ensures TakeMax(min, Closed(r)).None? <==> TakeMax(min, r).None?
    ensures TakeMax(min, r).Some? ==>
      var b := TakeMax(min, r).value;
      TakeMax(min, Closed(r)) == Some(Braces(b.min, b.max, Closed(b.rest)))
  {
    hide Closed, TakeNumber;
    ClosedHead(r);
    if r != "" && r[0] == ',' {
      ClosedHead(r[1..]);
      ClosedNumber(r[1..]);
      assert |r| >= 2 ==> r[1..][1..] == r[2..] && r[1..][0] == r[1];
      assert Closed(r)[1..] == Closed(r[1..]) && Closed(r)[1..] != "" ==> Closed(r)[2..] == Closed(r)[1..][1..];
      if TakeNumber(r[1..]).Some? {
        ClosedHead(TakeNumber(r[1..]).value.1);
      }
    }
  }

  /** Braces are read alike in a glob and in what it became. */
  lemma ClosedBraces(glob: string)
    requires glob != "" && glob[0] == '{'
    ensures TakeBraces(Closed(glob)).None? <==> TakeBraces(glob).None?
    ensures TakeBraces(glob).Some? ==>
      var b := TakeBraces(glob).value;
      TakeBraces(Closed(glob)) == Some(Braces(b.min, b.max, Closed(b.rest)))
  {
    hide Closed, TakeNumber, TakeMax;
    ClosedHead(glob);
    assert RegexpChar('{') == "{";
    ClosedNumber(glob[1..]);
    if TakeNumber(glob[1..]).Some? {
      var (min, r) := TakeNumber(glob[1..]).value;
      ClosedMax(min, r);
    }
  }

  lemma ClosedLazy(glob: string)
    ensures AfterLazy(Closed(glob)) == Closed(AfterLazy(glob))
  {
    ClosedHead(glob);
  }

  lemma LiteralStep(c: char, rest: string, current: seq<Piece>, repeated: bool)
    requires c != '*' && c != '|' && c != '?' && (c == '{' ==> TakeBraces([c] + rest).None?)
    ensures Parse(RegexpChar(c) + rest, current, repeated) == Parse(rest, current + [Once(Char(c))], false)
  {
    hide TakeBraces;
    var t := RegexpChar(c) + rest;
    if IsEscaped(c) {
      assert t[0] == '\\' && t[1] == c && t[2..] == rest;
    } else {
      assert t[0] == c && t[1..] == rest;
    }
  }

  lemma StarStep(rest: string, current: seq<Piece>, repeated: bool)
    ensures Parse(".*" + rest, current, repeated) == Parse(AfterLazy(rest), current + [Piece(AnyChar, 0, None)], true)
  {
    hide TakeBraces, AfterLazy;
    var t, dot := ".*" + rest, current + [Once(AnyChar)];
    assert t[0] == '.' && t[1..] == "*" + rest && t[1..][0] == '*' && t[1..][1..] == rest;
    assert RepeatLast(dot, 0, None) == current + [Piece(AnyChar, 0, None)];
  }

  /** Parsing a compiled glob is reading the glob. */
  lemma {:induction false} ParseIsRead(glob: string, current: seq<Piece>, repeated: bool)
    ensures Parse(Closed(glob), current, repeated) == Read(glob, current, repeated)
    decreases |glob|
  {
    hide Closed, TakeBraces, AfterLazy, RepeatLast, RegexpChar, IsSized;
    if glob == "" {
      ReadEnd(current, repeated);
    } else {
      var c, rest := glob[0], glob[1..];
      ClosedStep(glob);
      if c == '*' {
        ParseIsRead(AfterLazy(rest), current + [Piece(AnyChar, 0, None)], true);
        RegexpStar();
        StarStep(Closed(rest), current, repeated);
        ClosedLazy(rest);
      } else if c == '|' || c == '?' {
        ClosedMark(glob);
        if c == '|' {
          ParseIsRead(rest, [], false);
        } else if !repeated && current != [] {
          ClosedLazy(rest);
          ParseIsRead(AfterLazy(rest), RepeatLast(current, 0, Some(1)), true);
        }
      } else if c == '{' && TakeBraces(glob).Some? {
        ClosedMark(glob);
        ClosedBraces(glob);
        var b := TakeBraces(glob).value;
        if IsSized(b.min, b.max) && !repeated && current != [] {
          ClosedLazy(b.rest);
          ParseIsRead(AfterLazy(b.rest), RepeatLast(current, b.min, b.max), true);
        }
      } else {
        if c == '{' {
          ClosedBraces(glob);
          ClosedMark(glob);
          assert [c] + Closed(rest) == Closed(glob);
        }
        LiteralStep(c, Closed(rest), current, repeated);
        ParseIsRead(rest, current + [Once(Char(c))], false);
      }
    }
  }

  lemma RegexpStar()
    ensures RegexpChar('*') == ".*"
  {
  }

  lemma ReadEnd(current: seq<Piece>, repeated: bool)
    ensures Parse(Closed(""), current, repeated) == Some([current + [Once(End)]])
  {
    assert Closed("") == "$" && "$"[1..] == "";
  }

  lemma ClosedMark(glob: string)
    requires glob != "" && (glob[0] == '|' || glob[0] == '?' || glob[0] == '{')
    ensures Closed(glob) != "" && Closed(glob)[0] == glob[0] && Closed(glob)[1..] == Closed(glob[1..])
  {
  }

  lemma CompiledIsRead(glob: string)
    ensures Compiled(glob) == Read(glob, [Once(Begin)], false)
  {
    hide Parse, Read, CompileGlob, Substitute;
    CompileGlobIsSubstitution(glob);
    assert "^" + CompileGlob(glob) + "$" == "^" + Closed(glob);
    ParseBegin(Closed(glob));
    ParseIsRead(glob, [Once(Begin)], false);
  }

  lemma ParseBegin(t: string)
    ensures Parse("^" + t, [], false) == Parse(t, [Once(Begin)], false)
  {
    hide TakeBraces, AfterLazy, RepeatLast;
    assert ("^" + t)[1..] == t && [] + [Once(Begin)] == [Once(Begin)];
  }

  // -------------------------------------------------------------- literal globs

  /** A repetition in braces starts somewhere in the glob. */
  predicate HasRepetition(glob: string) {
    exists i :: 0 <= i < |glob| && TakeBraces(glob[i..]).Some?
  }

  /** Globs without the characters that compileGlob forgets: question marks, bars, and braces that make a
      repetition. */
  predicate IsLiteral(glob: string) {
    '?' !in glob && '|' !in glob && !HasRepetition(glob)
  }

  lemma LiteralTail(glob: string)
    requires glob != ""
    ensures HasRepetition(glob) <==> TakeBraces(glob).Some? || HasRepetition(glob[1..])
    ensures IsLiteral(glob) ==> IsLiteral(glob[1..])
  {
    hide TakeBraces;
    assert glob[0..] == glob;
    forall i | 0 <= i < |glob| - 1 ensures glob[1..][i..] == glob[i + 1..] {
    }
    if i :| 0 <= i < |glob| && TakeBraces(glob[i..]).Some? {
      assert i > 0 ==> TakeBraces(glob[1..][i - 1..]).Some?;
    }
    if i :| 0 <= i < |glob[1..]| && TakeBraces(glob[1..][i..]).Some? {
      assert TakeBraces(glob[i + 1..]).Some?;
    }
  }

  function GlobPiece(c: char): Piece {
    if c == '*' then Piece(AnyChar, 0, None) else Once(Char(c))
  }

  function GlobPieces(glob: string): (ps: seq<Piece>)
    ensures |ps| == |glob| && forall i :: 0 <= i < |glob| ==> ps[i] == GlobPiece(glob[i])
  {
    seq(|glob|, i requires 0 <= i < |glob| => GlobPiece(glob[i]))
  }

  lemma LazyTail(s: string)
    ensures '\n' !in s ==> '\n' !in AfterLazy(s)
    ensures '?' !in s ==> AfterLazy(s) == s
  {
  }

  /** A character that starts nothing else becomes one piece. */
  lemma ReadStep(glob: string, current: seq<Piece>, repeated: bool)
    requires glob != "" && '?' !in glob && '|' !in glob && TakeBraces(glob).None?
    ensures Read(glob, current, repeated) == Read(glob[1..], current + [GlobPiece(glob[0])], glob[0] == '*')
  {
    hide TakeBraces, AfterLazy;
    LazyTail(glob[1..]);
  }

  lemma ReadLiteralStep(glob: string, current: seq<Piece>, repeated: bool)
    requires IsLiteral(glob) && glob != ""
    ensures Read(glob, current, repeated) == Read(glob[1..], current + [GlobPiece(glob[0])], glob[0] == '*')
    ensures IsLiteral(glob[1..])
  {
    hide Read, TakeBraces, HasRepetition;
    LiteralTail(glob);
    ReadStep(glob, current, repeated);
  }

  lemma GlobPiecesStep(current: seq<Piece>, glob: string)
    requires glob != ""
    ensures current + [GlobPiece(glob[0])] + GlobPieces(glob[1..]) == current + GlobPieces(glob)
  {
    assert GlobPieces(glob) == [GlobPiece(glob[0])] + GlobPieces(glob[1..]);
  }

  lemma {:induction false} ReadLiteral(glob: string, current: seq<Piece>, repeated: bool)
    requires IsLiteral(glob)
    ensures Read(glob, current, repeated) == Some([current + GlobPieces(glob) + [Once(End)]])
    decreases |glob|
  {
    hide IsLiteral, GlobPiece;
    if glob == "" {
      assert current + GlobPieces(glob) == current;
    } else {
      hide Read;
      ReadLiteralStep(glob, current, repeated);
      ReadLiteral(glob[1..], current + [GlobPiece(glob[0])], glob[0] == '*');
      GlobPiecesStep(current, glob);
    }
  }

  lemma {:induction false} PiecesMatch(glob: string, s: string, i: nat)
    requires '\n' !in s && i <= |s|
    ensures MatchesAt(GlobPieces(glob) + [Once(End)], s, i) <==> GlobMatches(glob, s[i..])
    decreases |glob|, |s| - i
  {
    var ps := GlobPieces(glob) + [Once(End)];
    if glob == "" {
      assert ps == [Once(End)] && ps[1..] == [];
    } else {
      var rest := GlobPieces(glob[1..]) + [Once(End)];
      assert ps == [GlobPiece(glob[0])] + rest && ps[1..] == rest;
      PieceStep(GlobPiece(glob[0]), rest, s, i);
      if i < |s| {
        assert s[i..][0] == s[i] && s[i..][1..] == s[i + 1..] && s[i] in s;
        PiecesMatch(glob[1..], s, i + 1);
      }
      if glob[0] == '*' {
        PiecesMatch(glob[1..], s, i);
        if i < |s| {
          PiecesMatch(glob, s, i + 1);
        }
      }
    }
  }

  /** A literal glob compiles, and to an expression that accepts exactly the names the glob means. */
  lemma CompileGlobMeaning(glob: string, s: string)
    requires IsLiteral(glob) && '\n' !in s
    ensures Compiled(glob).Some? && (RegexpMatches(glob, s) <==> GlobMatches(glob, s))
  {
    hide Compiled, MatchesAt, IsLiteral, GlobMatches, Read;
    CompiledIsRead(glob);
    ReadLiteral(glob, [Once(Begin)], false);
    var rest := GlobPieces(glob) + [Once(End)];
    var alternative := [Once(Begin)] + GlobPieces(glob) + [Once(End)];
    assert alternative == [Once(Begin)] + rest;
    forall i | 0 <= i <= |s| ensures MatchesAt(alternative, s, i) <==> i == 0 && MatchesAt(rest, s, i) {
      BeginStep(rest, s, i);
    }
    PiecesMatch(glob, s, 0);
    assert s[0..] == s;
    assert Matches([alternative], s) <==> MatchesAt(alternative, s, 0) by {
      assert [alternative][0] == alternative;
    }
  }

  // ------------------------------------------- what other globs accept beside

  /** The character that a text ends with, or `p` if it is empty. */
  function LastOf(p: char, s: string): char {
    if s == "" then p else s[|s| - 1]
  }

  /** How often a text, read after `p`, moves on to another character. */
  function Changes(p: char, s: string): nat
    decreases |s|
  {
    if s == "" then 0 else (if s[0] != p then 1 else 0) + Changes(s[0], s[1..])
  }

  lemma {:induction false} ChangesSplit(p: char, a: string, b: string)
    ensures Changes(p, a + b) == Changes(p, a) + Changes(LastOf(p, a), b)
    decreases |a|
  {
    if a == "" {
      assert a + b == b;
    } else {
      assert (a + b)[1..] == a[1..] + b;
      ChangesSplit(a[0], a[1..], b);
    }
  }

  /** Reading on from another character costs at most one change. */
  lemma ChangesFrom(p: char, q: char, s: string)
    ensures Changes(p, s) <= (if p != q then 1 else 0) + Changes(q, s)
  {
  }

  lemma {:induction false} ChangesToLast(p: char, s: string)
    ensures Changes(p, s) >= if p != LastOf(p, s) then 1 else 0
    decreases |s|
  {
    if s != "" {
      ChangesToLast(s[0], s[1..]);
    }
  }

  /** A glob without its stars. */
  function Starless(glob: string): string {
    if glob == "" then "" else if glob[0] == '*' then Starless(glob[1..]) else [glob[0]] + Starless(glob[1..])
  }

  lemma {:induction false} StarlessAppend(a: string, b: string)
    requires '*' !in a
    ensures Starless(a + b) == a + Starless(b)
  {
    if a == "" {
      assert a + b == b;
    } else {
      assert (a + b)[1..] == a[1..] + b;
      StarlessAppend(a[1..], b);
    }
  }

  /** What a glob means has all its plain characters in their order, and so changes at least as often. */
  lemma {:induction false} GlobChanges(glob: string, s: string, p: char)
    requires GlobMatches(glob, s)
    ensures Changes(p, Starless(glob)) <= Changes(p, s)
    decreases |glob|, |s|
  {
    if glob != "" {
      if glob[0] != '*' {
        GlobChanges(glob[1..], s[1..], glob[0]);
      } else if GlobMatches(glob[1..], s) {
        GlobChanges(glob[1..], s, p);
      } else {
        GlobChanges(glob, s[1..], p);
        ChangesFrom(p, s[0], s[1..]);
      }
    }
  }

  lemma {:induction false} PlainCharactersAppear(glob: string, s: string, c: char)
    requires GlobMatches(glob, s) && c in glob && c != '*'
    ensures c in s
    decreases |glob|, |s|
  {
    if glob[0] == '*' {
      if GlobMatches(glob[1..], s) {
        PlainCharactersAppear(glob[1..], s, c);
      } else {
        PlainCharactersAppear(glob, s[1..], c);
      }
    } else if c != glob[0] {
      PlainCharactersAppear(glob[1..], s[1..], c);
    }
  }

  /** Braces that make a repetition are text that changes twice after anything. */
  lemma BracesText(glob: string, c: char)
    requires TakeBraces(glob).Some?
    ensures var rest := TakeBraces(glob).value.rest;
            var b := glob[..|glob| - |rest|];
            glob == b + rest && AreBraces(b) && Changes(c, b) >= 2 + (if c != '{' then 1 else 0)
  {
    BracesShape(glob);
    var b := glob[..|glob| - |TakeBraces(glob).value.rest|];
    assert Changes(c, b) == (if b[0] != c then 1 else 0) + Changes(b[0], b[1..]);
    assert Changes('{', b[1..]) == 1 + Changes(b[1], b[2..]);
    ChangesToLast(b[1], b[2..]);
    assert LastOf(b[1], b[2..]) == '}';
  }

  lemma NumberText(s: string)
    requires TakeNumber(s).Some?
    ensures var (n, rest) := TakeNumber(s).value;
            var d := s[..|s| - |rest|];
            |rest| < |s| && s == d + rest && d != "" && AllDigits(d)
  {
  }

  predicate AreBraces(b: string) {
    |b| >= 3 && b[0] == '{' && IsDigit(b[1]) && b[|b| - 1] == '}' && '*' !in b
  }

  lemma BracesShape(glob: string)
    requires TakeBraces(glob).Some?
    ensures var rest := TakeBraces(glob).value.rest;
            var b := glob[..|glob| - |rest|];
            |rest| < |glob| && glob == b + rest && AreBraces(b)
  {
    hide TakeNumber, TakeMax, AllDigits;
    var tail := glob[1..];
    NumberText(tail);
    var (n, r) := TakeNumber(tail).value;
    var d := tail[..|tail| - |r|];
    var e := MaxText(n, r);
    assert glob == "{" + (d + r);
    BracesAround(glob, d, r, e, TakeMax(n, r).value.rest);
  }

  lemma MaxText(min: nat, r: string) returns (e: string)
    requires TakeMax(min, r).Some?
    ensures r == e + ("}" + TakeMax(min, r).value.rest) && '*' !in e
  {
    hide TakeNumber, AllDigits;
    if r[0] == '}' {
      e := "";
    } else if |r| >= 2 && r[1] == '}' {
      e := ",";
    } else {
      var more := r[1..];
      NumberText(more);
      var q := TakeNumber(more).value.1;
      NoStar(more[..|more| - |q|]);
      e := "," + more[..|more| - |q|];
      assert q == "}" + TakeMax(min, r).value.rest;
      assert r == "," + more;
    }
  }

  lemma NoStar(d: string)
    requires AllDigits(d)
    ensures '*' !in d && (d != "" ==> IsDigit(d[0]))
  {
    assert d != "" ==> d[0] in d;
  }

  lemma BracesAround(glob: string, d: string, r: string, e: string, rest: string)
    requires d != "" && AllDigits(d) && '*' !in e && glob == "{" + (d + r) && r == e + ("}" + rest)
    ensures var b := glob[..|glob| - |rest|];
            |rest| < |glob| && glob == b + rest && AreBraces(b)
  {
    NoStar(d);
    var b := "{" + d + e + "}";
    assert glob == b + rest;
    assert glob[..|glob| - |rest|] == b;
  }

  /** The pieces read so far: anchored at the start only, without the characters that mean something, and
      the last one not repeated unless just now. */
  predicate IsOpen(ps: seq<Piece>, repeated: bool) {
    (forall i :: 0 <= i < |ps| ==> IsOpenPiece(ps[i]) && (ps[i].atom.Begin? ==> i == 0)) &&
    (!repeated && ps != [] ==> ps[|ps| - 1] == Once(ps[|ps| - 1].atom))
  }

  predicate IsOpenPiece(p: Piece) {
    IsBounded(p) && !p.atom.End? && (p.atom.Char? ==> p.atom.c != '?' && p.atom.c != '|' && p.atom.c != '\n')
  }

  lemma OpenNext(ps: seq<Piece>, p: Piece, repeated: bool)
    requires (forall i :: 0 <= i < |ps| ==> IsOpenPiece(ps[i]) && (ps[i].atom.Begin? ==> i == 0))
    requires IsOpenPiece(p) && !p.atom.Begin? && (repeated || p == Once(p.atom))
    ensures IsOpen(ps + [p], repeated)
  {
  }

  lemma OpenRepeated(ps: seq<Piece>, min: nat, max: Option<nat>)
    requires IsOpen(ps, false) && ps != [] && (max.Some? ==> min <= max.value)
    ensures IsOpen(RepeatLast(ps, min, max), true)
  {
  }

  /** The first alternative of an expression accepts its witness, in which no forgotten character occurs. */
  predicate IsReadWell(ps: seq<Piece>) {
    IsAnchored(ps) && forall i :: 0 <= i < |ps| && ps[i].atom.Char? ==>
      ps[i].atom.c != '?' && ps[i].atom.c != '|' && ps[i].atom.c != '\n'
  }

  lemma OpenReadWell(ps: seq<Piece>, repeated: bool)
    requires IsOpen(ps, repeated)
    ensures IsReadWell(ps) && IsReadWell(ps + [Once(End)])
  {
  }

  lemma {:induction false} ReadIsWell(glob: string, current: seq<Piece>, repeated: bool)
    requires Read(glob, current, repeated).Some? && IsOpen(current, repeated) && '\n' !in glob
    ensures var alternatives := Read(glob, current, repeated).value;
            alternatives != [] && IsReadWell(alternatives[0])
    decreases |glob|
  {
    hide TakeBraces, AfterLazy, IsOpen, IsReadWell, RepeatLast;
    if glob == "" || glob[0] == '|' {
      OpenReadWell(current, repeated);
    } else {
      var tail := AfterLazy(glob[1..]);
      LazyTail(glob[1..]);
      if glob[0] == '*' {
        OpenAdd(current, Piece(AnyChar, 0, None), repeated, true);
        ReadIsWell(tail, current + [Piece(AnyChar, 0, None)], true);
      } else if glob[0] == '?' {
        OpenRepeated(current, 0, Some(1));
        ReadIsWell(tail, RepeatLast(current, 0, Some(1)), true);
      } else if glob[0] == '{' && TakeBraces(glob).Some? {
        var b := TakeBraces(glob).value;
        BracesShape(glob);
        LazyTail(b.rest);
        OpenRepeated(current, b.min, b.max);
        ReadIsWell(AfterLazy(b.rest), RepeatLast(current, b.min, b.max), true);
      } else {
        OpenAdd(current, Once(Char(glob[0])), repeated, false);
        ReadIsWell(glob[1..], current + [Once(Char(glob[0]))], false);
      }
    }
  }

  lemma OpenAdd(ps: seq<Piece>, p: Piece, repeated: bool, next: bool)
    requires IsOpen(ps, repeated) && IsOpenPiece(p) && !p.atom.Begin? && (next || p == Once(p.atom))
    ensures IsOpen(ps + [p], next)
  {
    OpenNext(ps, p, next);
  }

  lemma {:induction false} WitnessHasNo(ps: seq<Piece>, c: char)
    requires IsReadWell(ps) && (c == '?' || c == '|' || c == '\n')
    ensures c !in Witness(ps)
  {
    if ps != [] {
      var n := |ps| - 1;
      assert IsReadWell(ps[..n]) by {
        forall i | 0 <= i < n && ps[..n][i].atom.Char? ensures ps[..n][i] == ps[i] {
        }
      }
      WitnessHasNo(ps[..n], c);
    }
  }

  lemma WitnessAdd(ps: seq<Piece>, p: Piece)
    ensures Witness(ps + [p]) == Witness(ps) + Expansion(p)
  {
    assert (ps + [p])[..|ps|] == ps;
  }

  lemma WitnessRepeated(ps: seq<Piece>, min: nat, max: Option<nat>)
    requires ps != []
    ensures Witness(RepeatLast(ps, min, max)) ==
      Witness(ps[..|ps| - 1]) + Expansion(Piece(ps[|ps| - 1].atom, min, max))
  {
  }

  lemma {:induction false} TimesChanges(p: char, c: char, n: nat)
    ensures Changes(p, Times(c, n)) == if n > 0 && p != c then 1 else 0
    ensures LastOf(p, Times(c, n)) == if n > 0 then c else p
    decreases n
  {
    if n > 0 {
      assert Times(c, n)[1..] == Times(c, n - 1);
      TimesChanges(c, c, n - 1);
    }
  }

  /** Repeating a character by braces loses the braces' changes and wins none. */
  lemma FewerChanges(q: char, c: char, n: nat, b: string, rest: string)
    requires b != "" && b[|b| - 1] == '}' && Changes(c, b) >= 2 + (if c != '{' then 1 else 0)
    ensures Changes(q, Times(c, n) + rest) < Changes(q, [c] + (b + rest))
  {
    ChangesSplit(q, Times(c, n), rest);
    TimesChanges(q, c, n);
    assert ([c] + (b + rest))[1..] == b + rest;
    ChangesSplit(c, b, rest);
    assert LastOf(c, b) == '}';
    ChangesFrom(c, '}', rest);
    ChangesFrom(q, c, rest);
  }

  lemma ExpansionChanges(q: char, atom: Atom, min: nat, max: Option<nat>, b: string, rest: string)
    requires b != "" && b[0] == '{' && b[|b| - 1] == '}'
    requires forall c :: Changes(c, b) >= 2 + (if c != '{' then 1 else 0)
    ensures Changes(q, Expansion(Piece(atom, min, max)) + rest) < Changes(q, Expansion(Once(atom)) + (b + rest))
  {
    if atom.Begin? || atom.End? {
      assert Expansion(Piece(atom, min, max)) + rest == rest;
      assert Expansion(Once(atom)) + (b + rest) == b + rest;
      ChangesSplit(q, b, rest);
      ChangesFrom(q, '}', rest);
    } else {
      var c := if atom.Char? then atom.c else 'x';
      assert Expansion(Once(atom)) == [c];
      FewerChanges(q, c, min, b, rest);
    }
  }

  /** A repetition in braces: the witness of what was read, with the rest of the glob, changes less. */
  lemma RepeatedChanges(p: char, current: seq<Piece>, glob: string)
    requires current != [] && current[|current| - 1] == Once(current[|current| - 1].atom) && TakeBraces(glob).Some?
    ensures var b := TakeBraces(glob).value;
            Changes(p, Witness(RepeatLast(current, b.min, b.max)) + Starless(b.rest)) <
            Changes(p, Witness(current) + Starless(glob))
  {
    hide Changes, Expansion, TakeBraces, Starless, Witness, RepeatLast;
    var b := TakeBraces(glob).value;
    var text := glob[..|glob| - |b.rest|];
    var last := current[|current| - 1];
    BracesShape(glob);
    forall c ensures Changes(c, text) >= 2 + (if c != '{' then 1 else 0) {
      BracesText(glob, c);
    }
    StarlessAppend(text, b.rest);
    WitnessRepeated(current, b.min, b.max);
    WitnessLast(current);
    MoreChanges(p, Witness(current[..|current| - 1]), last.atom, b.min, b.max, text, Starless(b.rest));
  }

  lemma WitnessLast(ps: seq<Piece>)
    requires ps != []
    ensures Witness(ps) == Witness(ps[..|ps| - 1]) + Expansion(ps[|ps| - 1])
  {
  }

  lemma MoreChanges(p: char, before: string, atom: Atom, min: nat, max: Option<nat>, b: string, rest: string)
    requires b != "" && b[0] == '{' && b[|b| - 1] == '}'
    requires forall c :: Changes(c, b) >= 2 + (if c != '{' then 1 else 0)
    ensures Changes(p, before + Expansion(Piece(atom, min, max)) + rest) <
            Changes(p, before + Expansion(Once(atom)) + (b + rest))
  {
    hide Changes, Expansion;
    var e, e' := Expansion(Once(atom)), Expansion(Piece(atom, min, max));
    assert before + e' + rest == before + (e' + rest);
    assert before + e + (b + rest) == before + (e + (b + rest));
    ChangesSplit(p, before, e' + rest);
    ChangesSplit(p, before, e + (b + rest));
    ExpansionChanges(LastOf(p, before), atom, min, max, b, rest);
  }

  /** Without question marks and bars, the witness never changes more often than the glob without its stars,
      and less often if the glob has a repetition in braces. */
  lemma {:induction false} ReadChanges(glob: string, current: seq<Piece>, repeated: bool, p: char)
    requires Read(glob, current, repeated).Some? && IsOpen(current, repeated)
    requires '?' !in glob && '|' !in glob && '\n' !in glob
    ensures var alternatives := Read(glob, current, repeated).value;
            alternatives != [] &&
            Changes(p, Witness(alternatives[0])) <= Changes(p, Witness(current) + Starless(glob)) &&
            (HasRepetition(glob) ==>
             Changes(p, Witness(alternatives[0])) < Changes(p, Witness(current) + Starless(glob)))
    decreases |glob|
  {
    hide Read, TakeBraces, RepeatLast, Changes, Witness, Expansion, HasRepetition, IsOpen, IsOpenPiece, Starless;
    if glob == "" {
      NothingLeft(current, repeated);
    } else {
      LiteralTail(glob);
      if TakeBraces(glob).Some? {
        var b := TakeBraces(glob).value;
        ReadBraces(glob, current, repeated);
        BracesRest(glob);
        OpenRepeated(current, b.min, b.max);
        OpenLast(current);
        RepeatedChanges(p, current, glob);
        ReadChanges(b.rest, RepeatLast(current, b.min, b.max), true, p);
      } else {
        ReadStep(glob, current, repeated);
        OpenGlobPiece(current, repeated, glob[0]);
        ReadChanges(glob[1..], current + [GlobPiece(glob[0])], glob[0] == '*', p);
        StarlessStep(current, glob);
      }
    }
  }

  lemma NothingLeft(current: seq<Piece>, repeated: bool)
    ensures var alternatives := Read("", current, repeated);
            alternatives == Some([current + [Once(End)]]) &&
            Witness(alternatives.value[0]) == Witness(current) + Starless("")
    ensures !HasRepetition("")
  {
    WitnessAdd(current, Once(End));
    AnchorExpansion(Once(End));
  }

  /** Each piece of a glob adds its plain character to the witness. */
  lemma StarlessStep(current: seq<Piece>, glob: string)
    requires glob != ""
    ensures Witness(current + [GlobPiece(glob[0])]) + Starless(glob[1..]) == Witness(current) + Starless(glob)
  {
    hide Witness, Expansion, Starless;
    WitnessAdd(current, GlobPiece(glob[0]));
    StarlessHead(glob);
    var w, e, rest := Witness(current), Expansion(GlobPiece(glob[0])), Starless(glob[1..]);
    assert w + e + rest == w + (e + rest);
  }

  lemma StarlessHead(glob: string)
    requires glob != ""
    ensures Starless(glob) == Expansion(GlobPiece(glob[0])) + Starless(glob[1..])
  {
    if glob[0] != '*' {
      assert Expansion(GlobPiece(glob[0])) == [glob[0]];
    }
  }

  lemma ReadBraces(glob: string, current: seq<Piece>, repeated: bool)
    requires TakeBraces(glob).Some? && '?' !in glob && Read(glob, current, repeated).Some?
    ensures var b := TakeBraces(glob).value;
            current != [] && !repeated && IsSized(b.min, b.max) &&
            Read(glob, current, repeated) == Read(b.rest, RepeatLast(current, b.min, b.max), true)
  {
    hide TakeBraces, HasRepetition, AfterLazy, RepeatLast;
    BracesRest(glob);
  }

  lemma BracesRest(glob: string)
    requires TakeBraces(glob).Some? && '?' !in glob
    ensures AfterLazy(TakeBraces(glob).value.rest) == TakeBraces(glob).value.rest
    ensures forall c :: c in TakeBraces(glob).value.rest ==> c in glob
    ensures glob[0] == '{' && HasRepetition(glob)
  {
    hide TakeBraces;
    BracesShape(glob);
    assert glob[0..] == glob;
  }

  lemma OpenGlobPiece(ps: seq<Piece>, repeated: bool, c: char)
    requires IsOpen(ps, repeated) && c != '?' && c != '|' && c != '\n'
    ensures IsOpen(ps + [GlobPiece(c)], c == '*')
  {
  }

  lemma OpenLast(ps: seq<Piece>)
    requires IsOpen(ps, false) && ps != []
    ensures ps[|ps| - 1] == Once(ps[|ps| - 1].atom)
  {
  }

  /** A glob that compiles but is not literal accepts a name that the glob does not mean. */
  lemma ForgottenAcceptsMore(glob: string) returns (s: string)
    requires Compiled(glob).Some? && !IsLiteral(glob) && '\n' !in glob
    ensures '\n' !in s && RegexpMatches(glob, s) && !GlobMatches(glob, s)
  {
    hide Read, IsReadWell, IsOpen, Witness, MatchesAt, Compiled, HasRepetition, Changes, Starless;
    var start := [Once(Begin)];
    CompiledIsRead(glob);
    OpenStart();
    ReadIsWell(glob, start, false);
    var alternatives := Compiled(glob).value;
    var ps := alternatives[0];
    s := Witness(ps);
    WitnessHasNo(ps, '\n');
    WitnessAccepted(ps);
    assert Matches(alternatives, s);
    if GlobMatches(glob, s) {
      if '?' in glob {
        PlainCharactersAppear(glob, s, '?');
        WitnessHasNo(ps, '?');
      } else if '|' in glob {
        PlainCharactersAppear(glob, s, '|');
        WitnessHasNo(ps, '|');
      } else {
        assert "" + Starless(glob) == Starless(glob);
        ReadChanges(glob, start, false, 'x');
        GlobChanges(glob, s, 'x');
      }
    }
  }

  lemma OpenStart()
    ensures IsOpen([Once(Begin)], false) && Witness([Once(Begin)]) == ""
  {
    WitnessAdd([], Once(Begin));
    assert [] + [Once(Begin)] == [Once(Begin)];
  }

  lemma WitnessAccepted(ps: seq<Piece>)
    requires IsReadWell(ps)
    ensures MatchesAt(ps, Witness(ps), 0)
  {
    WitnessMatches(ps, 0);
    assert ps[0..] == ps && ps[..0] == [];
  }

  /** compileGlob means what the glob means exactly for literal globs: every other one is an error, or accepts
      a name that the glob does not mean. */
  lemma CompiledMeansGlob(glob: string)
    requires '\n' !in glob
    ensures (Compiled(glob).Some? && forall s :: '\n' !in s ==> (RegexpMatches(glob, s) <==> GlobMatches(glob, s)))
       <==> IsLiteral(glob)
  {
    hide Compiled, RegexpMatches, GlobMatches, IsLiteral;
    if IsLiteral(glob) {
      forall s | '\n' !in s ensures Compiled(glob).Some? && (RegexpMatches(glob, s) <==> GlobMatches(glob, s)) {
        CompileGlobMeaning(glob, s);
      }
      CompileGlobMeaning(glob, "");
    } else if Compiled(glob).Some? {
      var s := ForgottenAcceptsMore(glob);
    }
  }

  /** On lower-case input the two backends pick the same names by a literal glob. */
  lemma BackendsAgreeOnGlobs(glob: string, s: string)
    requires IsLiteral(glob) && '\n' !in s && Fold(glob) == glob && Fold(s) == s
    ensures Like(LikePattern(glob), s) <==> RegexpMatches(glob, s)
  {
    hide IsLiteral, RegexpMatches, Like, LikePattern;
    CompileGlobMeaning(glob, s);
    LikePatternMeaning(glob, s);
  }

  // ------------------------------------------- what the forgotten characters do

  predicate IsOrdinary(c: char) {
    c != '*' && c != '|' && c != '?' && c != '{'
  }

  lemma OrdinaryStep(c: char, rest: string)
    requires IsOrdinary(c)
    ensures Read([c] + rest, [Once(Begin)], false) == Read(rest, [Once(Begin), Once(Char(c))], false)
  {
    assert ([c] + rest)[1..] == rest;
    assert [Once(Begin)] + [Once(Char(c))] == [Once(Begin), Once(Char(c))];
  }

  lemma EndAfter(p: Piece, c: char)
    ensures Read("", [Once(Begin), Piece(Char(c), p.min, p.max)], true) ==
      Some([[Once(Begin), Piece(Char(c), p.min, p.max), Once(End)]])
  {
    var q := Piece(Char(c), p.min, p.max);
    assert [Once(Begin), q] + [Once(End)] == [Once(Begin), q, Once(End)];
  }

  /** `c?` accepts one `c` or nothing. */
  lemma QuestionMeans(c: char, s: string)
    requires IsOrdinary(c)
    ensures RegexpMatches([c, '?'], s) <==> s == "" || s == [c]
  {
    hide TakeBraces, Matches, Compiled;
    CompiledIsRead([c, '?']);
    assert [c, '?'] == [c] + "?" && "?"[1..] == "";
    OrdinaryStep(c, "?");
    var one := [Once(Begin), Once(Char(c))];
    assert RepeatLast(one, 0, Some(1)) == [Once(Begin), Piece(Char(c), 0, Some(1))];
    EndAfter(Piece(Char(c), 0, Some(1)), c);
    RepeatMeaning(c, 0, Some(1), s);
    assert |s| == 1 && s[0] == c ==> s == [c];
  }

  /** `c{m,n}` accepts from `m` to `n` times `c`, if that is no more than 1000 times. */
  lemma BracesMean(c: char, m: nat, n: nat, s: string)
    requires IsOrdinary(c) && m <= n <= 1000
    ensures RegexpMatches([c] + BracesOf(m, n), s) <==> IsOnly(s, c) && m <= |s| <= n
  {
    hide TakeBraces, Matches, Compiled, IsOnly;
    var b := BracesOf(m, n);
    CompiledIsRead([c] + b);
    OrdinaryStep(c, b);
    BracesTaken(m, n);
    var one := [Once(Begin), Once(Char(c))];
    assert RepeatLast(one, m, Some(n)) == [Once(Begin), Piece(Char(c), m, Some(n))];
    assert AfterLazy("") == "";
    EndAfter(Piece(Char(c), m, Some(n)), c);
    RepeatMeaning(c, m, Some(n), s);
  }

  function BracesOf(m: nat, n: nat): string {
    "{" + Decimal(m) + "," + Decimal(n) + "}"
  }

  lemma {:induction false} DigitsThen(d: string, rest: string)
    requires AllDigits(d) && (rest == "" || !IsDigit(rest[0]))
    ensures DigitsEnd(d + rest) == |d|
  {
    if d == "" {
      assert d + rest == rest;
    } else {
      assert (d + rest)[1..] == d[1..] + rest;
      DigitsThen(d[1..], rest);
    }
  }

  lemma NumberTaken(n: nat, rest: string)
    requires rest == "" || !IsDigit(rest[0])
    ensures TakeNumber(Decimal(n) + rest) == Some((n, rest))
  {
    hide Decimal;
    var d := Decimal(n);
    DigitsThen(d, rest);
    DecimalValue(n);
    assert (d + rest)[..|d|] == d && (d + rest)[|d|..] == rest && (d + rest)[0] == d[0];
  }

  lemma BracesTaken(m: nat, n: nat)
    ensures BracesOf(m, n) != "" && BracesOf(m, n)[0] == '{'
    ensures TakeBraces(BracesOf(m, n)) == Some(Braces(m, Some(n), ""))
  {
    hide TakeBraces;
    BracesBefore(m, n, "");
    assert BracesOf(m, n) + "" == BracesOf(m, n);
  }

  /** More than 1000 times, more at least than at most, a repetition of nothing and one of a repetition are errors. */
  lemma BracesRefused(c: char, m: nat, n: nat)
    requires IsOrdinary(c)
    ensures m > n || n > 1000 ==> Compiled([c] + BracesOf(m, n)).None?
    ensures Compiled([c, '|'] + BracesOf(m, n)).None? && Compiled([c] + BracesOf(1, 2) + BracesOf(m, n)).None?
  {
    hide TakeBraces, Compiled, BracesOf, Decimal;
    var b, d := BracesOf(m, n), BracesOf(1, 2) + BracesOf(m, n);
    BracesTaken(m, n);
    CompiledIsRead([c] + b);
    OrdinaryStep(c, b);
    CompiledIsRead([c, '|'] + b);
    assert [c, '|'] + b == [c] + (['|'] + b) && (['|'] + b)[1..] == b;
    OrdinaryStep(c, ['|'] + b);
    assert [c] + BracesOf(1, 2) + BracesOf(m, n) == [c] + d;
    CompiledIsRead([c] + d);
    OrdinaryStep(c, d);
    BracesBefore(1, 2, b);
  }

  lemma BracesBefore(m: nat, n: nat, rest: string)
    ensures BracesOf(m, n) + rest != "" && (BracesOf(m, n) + rest)[0] == '{'
    ensures TakeBraces(BracesOf(m, n) + rest) == Some(Braces(m, Some(n), rest))
  {
    hide Decimal, TakeNumber;
    var q := "}" + rest;
    var r := "," + (Decimal(n) + q);
    NumberTaken(m, r);
    NumberTaken(n, q);
    assert BracesOf(m, n) + rest == "{" + (Decimal(m) + r) && (BracesOf(m, n) + rest)[1..] == Decimal(m) + r;
    assert r[1..] == Decimal(n) + q && r[1] == Decimal(n)[0] && IsDigit(r[1]);
    assert q[1..] == rest;
  }

  /** A number with a leading zero makes no repetition. */
  lemma LeadingZero(n: nat)
    ensures TakeNumber("0" + Decimal(n) + "}").None?
  {
    hide Decimal;
    assert "0" + Decimal(n) + "}" == ("0" + Decimal(n)) + "}";
    DigitsThen("0" + Decimal(n), "}");
  }

  /** `a|b` accepts what starts with `a` and what ends with `b`: each anchor belongs to its own alternative. */
  lemma BarMeans(a: char, b: char, s: string)
    requires IsOrdinary(a) && IsOrdinary(b)
    ensures RegexpMatches([a, '|', b], s) <==> s != "" && (s[0] == a || s[|s| - 1] == b)
  {
    hide TakeBraces, Matches, Compiled;
    var glob := [a, '|', b];
    CompiledIsRead(glob);
    assert glob == [a] + ['|', b] && ['|', b][1..] == [b] && [b][1..] == "";
    OrdinaryStep(a, ['|', b]);
    var first, second := [Once(Begin), Once(Char(a))], [Once(Char(b)), Once(End)];
    assert [] + [Once(Char(b))] == [Once(Char(b))] && [Once(Char(b))] + [Once(End)] == second;
    assert Read([b], [], false) == Some([second]);
    assert [first] + [second] == [first, second];
    AlternativesMatch([first], [second], s);
    StartMatches(a, s);
    EndMatches(b, s);
  }

  lemma StartMatches(a: char, s: string)
    ensures Matches([[Once(Begin), Once(Char(a))]], s) <==> s != "" && s[0] == a
  {
    var ps := [Once(Begin), Once(Char(a))];
    var rest := [Once(Char(a))];
    assert ps == [Once(Begin)] + rest && rest == [Once(Char(a))] + [];
    forall i | 0 <= i <= |s| ensures MatchesAt(ps, s, i) <==> i == 0 && s != "" && s[0] == a {
      BeginStep(rest, s, i);
      PieceStep(Once(Char(a)), [], s, i);
      if i < |s| {
        NothingMatches(s, i + 1);
      }
    }
    assert MatchesAt(ps, s, 0) <==> s != "" && s[0] == a;
    OneAlternative(ps, s);
  }

  lemma EndMatches(b: char, s: string)
    ensures Matches([[Once(Char(b)), Once(End)]], s) <==> s != "" && s[|s| - 1] == b
  {
    var ps := [Once(Char(b)), Once(End)];
    assert ps == [Once(Char(b))] + [Once(End)];
    hide MatchesAt;
    forall i | 0 <= i <= |s| ensures MatchesAt(ps, s, i) <==> i < |s| && i == |s| - 1 && s[i] == b {
      PieceStep(Once(Char(b)), [Once(End)], s, i);
      if i < |s| {
        EndOnly(s, i + 1);
      }
    }
    if s != "" && s[|s| - 1] == b {
      assert MatchesAt(ps, s, |s| - 1);
    }
    OneAlternative(ps, s);
  }
}
