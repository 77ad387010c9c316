/** Regular expressions of package regexp, as far as compiled globs use them: characters, the dot, the two anchors,
    repetitions, and alternatives; and the errors that compiling them can end with. */
module Regexps {
  import opened Strings

  // ------------------------------------------------------------------- matching

  datatype Atom = Char(c: char) | AnyChar | Begin | End

  /** An atom repeated from `min` times up to `max` times, or without a bound. */
  datatype Piece = Piece(atom: Atom, min: nat, max: Option<nat>)

  function Once(a: Atom): Piece {
    Piece(a, 1, Some(1))
  }

  /** The characters an atom takes; the dot takes all but a newline. */
  predicate Takes(a: Atom, c: char) {
    (a.Char? && a.c == c) || (a.AnyChar? && c != '\n')
  }

  /** What is left of a repetition after one time. */
  function Less(p: Piece): Piece
    requires p.max != Some(0)
  {
    Piece(p.atom, if p.min == 0 then 0 else p.min - 1, if p.max.None? then None else Some(p.max.value - 1))
  }

  /** Pieces match from a position on, up to any later one; anchors take no character. */
  predicate MatchesAt(ps: seq<Piece>, s: string, i: nat)
    requires i <= |s|
    decreases |ps|, |s| - i
  {
    if ps == [] then true
    else
      var p := ps[0];
      if p.max == Some(0) then MatchesAt(ps[1..], s, i)
      else
        match p.atom
        case Begin => (p.min == 0 || i == 0) && MatchesAt(ps[1..], s, i)
        case End => (p.min == 0 || i == |s|) && MatchesAt(ps[1..], s, i)
        case _ =>
          (p.min == 0 && MatchesAt(ps[1..], s, i)) ||
          (i < |s| && Takes(p.atom, s[i]) && MatchesAt([Less(p)] + ps[1..], s, i + 1))
  }

  /** MatchString: some alternative matches from some position on. */
  predicate Matches(alternatives: seq<seq<Piece>>, s: string) {
    exists k, i :: 0 <= k < |alternatives| && 0 <= i <= |s| && MatchesAt(alternatives[k], s, i)
  }

  // -------------------------------------------------------------------- parsing

  function DigitsEnd(s: string): (n: nat)
    ensures n <= |s| && AllDigits(s[..n]) && (n < |s| ==> !IsDigit(s[n]))
  {
    if s != "" && IsDigit(s[0]) then
      assert s[..1 + DigitsEnd(s[1..])] == [s[0]] + s[1..][..DigitsEnd(s[1..])];
      1 + DigitsEnd(s[1..])
    else 0
  }

  /** A number without leading zeros at the start of a text, and what follows it. */
  function TakeNumber(s: string): Option<(nat, string)> {
    var n := DigitsEnd(s);
    if n == 0 || (n >= 2 && s[0] == '0') then None else Some((DigitsValue(s[..n]), s[n..]))
  }

  datatype Braces = Braces(min: nat, max: Option<nat>, rest: string)

  /** A repetition {n}, {n,} or {n,m} at the start of a text; None if the brace starts none. */
  function TakeBraces(s: string): (b: Option<Braces>)
    ensures b.Some? ==> |b.value.rest| < |s|
  {
    if s == "" || s[0] != '{' then None
    else
      match TakeNumber(s[1..])
      case None => None
      case Some((min, r)) => TakeMax(min, r)
  }

  /** The repetition behind its first number. */
  function TakeMax(min: nat, r: string): (b: Option<Braces>)
    ensures b.Some? ==> |b.value.rest| < |r|
  {
    if r != "" && r[0] == '}' then Some(Braces(min, Some(min), r[1..]))
    else if r == "" || r[0] != ',' then None
    else if |r| >= 2 && r[1] == '}' then Some(Braces(min, None, r[2..]))
    else
      match TakeNumber(r[1..])
      case None => None
      case Some((max, q)) =>
        if q != "" && q[0] == '}' then Some(Braces(min, Some(max), q[1..])) else None
  }

  /** The counts that a repetition may have. */
  predicate IsSized(min: nat, max: Option<nat>) {
    min <= 1000 && (max.Some? ==> min <= max.value <= 1000)
  }

  /** A question mark behind a repetition only changes which match is preferred. */
  function AfterLazy(s: string): (r: string)
    ensures |r| <= |s|
  {
    if s != "" && s[0] == '?' then s[1..] else s
  }

  /** The last piece of an alternative, repeated. */
  function RepeatLast(ps: seq<Piece>, min: nat, max: Option<nat>): (r: seq<Piece>)
    requires ps != []
    ensures |r| == |ps| && r[..|ps| - 1] == ps[..|ps| - 1] && r[|ps| - 1] == Piece(ps[|ps| - 1].atom, min, max)
  {
    ps[..|ps| - 1] + [Piece(ps[|ps| - 1].atom, min, max)]
  }

  /** ASCII punctuation, which a backslash makes literal. */
  predicate IsPunctuation(c: char) {
    c < '\U{80}' && !('0' <= c <= '9') && !('a' <= c <= 'z') && !('A' <= c <= 'Z')
  }

  function Cons(x: seq<Piece>, xs: Option<seq<seq<Piece>>>): Option<seq<seq<Piece>>> {
    if xs.None? then None else Some([x] + xs.value)
  }

  /** syntax.Parse from some point on: `current` are the pieces of the alternative so far, and `repeated` says that
      the last of them was just repeated. A repetition of nothing, of a repetition, or of too many times is an error;
      groups and classes, which compiled globs do not have, are not read. */
  function Parse(t: string, current: seq<Piece>, repeated: bool): Option<seq<seq<Piece>>>
    decreases |t|
  {
    if t == "" then Some([current])
    else if t[0] == '|' then Cons(current, Parse(t[1..], [], false))
    else if t[0] == '^' then Parse(t[1..], current + [Once(Begin)], false)
    else if t[0] == '$' then Parse(t[1..], current + [Once(End)], false)
    else if t[0] == '.' then Parse(t[1..], current + [Once(AnyChar)], false)
    else if t[0] == '*' || t[0] == '+' || t[0] == '?' then
      var (min, max) := Star(t[0]);
      if repeated || current == [] then None else Parse(AfterLazy(t[1..]), RepeatLast(current, min, max), true)
    else if t[0] == '{' && TakeBraces(t).Some? then
      var b := TakeBraces(t).value;
      if !IsSized(b.min, b.max) || repeated || current == [] then None
      else Parse(AfterLazy(b.rest), RepeatLast(current, b.min, b.max), true)
    else if t[0] == '\\' then
      if |t| >= 2 && IsPunctuation(t[1]) then Parse(t[2..], current + [Once(Char(t[1]))], false) else None
    else if t[0] == '(' || t[0] == ')' || t[0] == '[' then None
    else Parse(t[1..], current + [Once(Char(t[0]))], false)
  }

  function Star(c: char): (nat, Option<nat>) {
    if c == '*' then (0, None) else if c == '+' then (1, None) else (0, Some(1))
  }

  // ------------------------------------------------------------------ witnesses

  function Times(c: char, n: nat): (s: string)
    ensures |s| == n && forall i :: 0 <= i < n ==> s[i] == c
  {
    seq(n, i => c)
  }

  /** The shortest text of a piece. */
  function Expansion(p: Piece): string {
    match p.atom
    case Char(c) => Times(c, p.min)
    case AnyChar => Times('x', p.min)
    case _ => ""
  }

  function Witness(ps: seq<Piece>): string {
    if ps == [] then "" else Witness(ps[..|ps| - 1]) + Expansion(ps[|ps| - 1])
  }

  predicate IsBounded(p: Piece) {
    p.max.Some? ==> p.min <= p.max.value
  }

  /** Anchors stand only at the ends, and no piece has more minimum than maximum. */
  predicate IsAnchored(ps: seq<Piece>) {
    forall i :: 0 <= i < |ps| ==>
      IsBounded(ps[i]) && (ps[i].atom.Begin? ==> i == 0) && (ps[i].atom.End? ==> i == |ps| - 1)
  }

  lemma {:induction false} TakeTimes(p: Piece, rest: seq<Piece>, s: string, i: nat)
    requires IsBounded(p) && (p.atom.Char? || p.atom.AnyChar?)
    requires i + p.min <= |s| && forall j :: i <= j < i + p.min ==> Takes(p.atom, s[j])
    requires MatchesAt(rest, s, i + p.min)
    ensures MatchesAt([p] + rest, s, i)
    decreases p.min
  {
    assert ([p] + rest)[1..] == rest;
    if p.min > 0 {
      TakeTimes(Less(p), rest, s, i + 1);
    }
  }

  lemma {:induction false} WitnessFrom(ps: seq<Piece>, n: nat)
    requires n <= |ps|
    ensures |Witness(ps[..n])| <= |Witness(ps)| && Witness(ps)[..|Witness(ps[..n])|] == Witness(ps[..n])
  {
    if n == |ps| {
      assert ps[..n] == ps;
    } else {
      WitnessFrom(ps[..|ps| - 1], n);
      assert ps[..|ps| - 1][..n] == ps[..n];
    }
  }

  lemma AnchorHolds(p: Piece, rest: seq<Piece>, s: string, i: nat)
    requires i <= |s| && ((p.atom.Begin? && i == 0) || (p.atom.End? && i == |s|)) && MatchesAt(rest, s, i)
    ensures MatchesAt([p] + rest, s, i)
  {
    assert ([p] + rest)[1..] == rest;
  }

  lemma ExpansionTaken(p: Piece, c: char)
    requires p.atom.Char? || p.atom.AnyChar?
    ensures |Expansion(p)| == p.min && (c in Expansion(p) ==> Takes(p.atom, c))
  {
  }

  lemma WitnessNext(ps: seq<Piece>, n: nat)
    requires n < |ps|
    ensures Witness(ps[..n + 1]) == Witness(ps[..n]) + Expansion(ps[n])
  {
    assert ps[..n + 1][..n] == ps[..n];
  }

  /** An anchored alternative accepts its witness from any piece on. */
  lemma {:induction false} WitnessMatches(ps: seq<Piece>, n: nat)
    requires IsAnchored(ps) && n <= |ps|
    ensures |Witness(ps[..n])| <= |Witness(ps)| && MatchesAt(ps[n..], Witness(ps), |Witness(ps[..n])|)
    decreases |ps| - n
  {
    hide MatchesAt, Witness, Expansion;
    WitnessFrom(ps, n);
    if n == |ps| {
      assert ps[n..] == [] && ps[..n] == ps;
      NothingMatches(Witness(ps), |Witness(ps)|);
    } else {
      var s, i, p := Witness(ps), |Witness(ps[..n])|, ps[n];
      WitnessFrom(ps, n + 1);
      WitnessNext(ps, n);
      WitnessMatches(ps, n + 1);
      assert ps[n..] == [p] + ps[n + 1..];
      if p.atom.Char? || p.atom.AnyChar? {
        ExpansionTaken(p, 'x');
        forall x | i <= x < i + p.min ensures Takes(p.atom, s[x]) {
          assert s[x] == s[..i + p.min][x] == Expansion(p)[x - i];
          ExpansionTaken(p, s[x]);
        }
        TakeTimes(p, ps[n + 1..], s, i);
      } else {
        AnchorExpansion(p);
        WitnessOfNone(ps, n);
        assert p.atom.End? ==> ps[..n + 1] == ps;
        AnchorHolds(p, ps[n + 1..], s, i);
      }
    }
  }

  lemma NothingMatches(s: string, i: nat)
    requires i <= |s|
    ensures MatchesAt([], s, i)
  {
  }

  lemma AnchorExpansion(p: Piece)
    requires p.atom.Begin? || p.atom.End?
    ensures Expansion(p) == ""
  {
  }

  lemma WitnessOfNone(ps: seq<Piece>, n: nat)
    requires n <= |ps|
    ensures n == 0 ==> Witness(ps[..n]) == ""
  {
  }

  /** One character, or any number of them. */
  lemma PieceStep(p: Piece, rest: seq<Piece>, s: string, i: nat)
    requires i <= |s|
    ensures p.atom.Char? && p == Once(p.atom) ==>
      (MatchesAt([p] + rest, s, i) <==> i < |s| && s[i] == p.atom.c && MatchesAt(rest, s, i + 1))
    ensures p == Piece(AnyChar, 0, None) ==>
      (MatchesAt([p] + rest, s, i) <==>
       MatchesAt(rest, s, i) || (i < |s| && s[i] != '\n' && MatchesAt([p] + rest, s, i + 1)))
  {
    assert ([p] + rest)[1..] == rest;
    if p.atom.Char? && p == Once(p.atom) && i < |s| {
      var used := Less(p);
      assert ([used] + rest)[1..] == rest;
      assert MatchesAt([used] + rest, s, i + 1) <==> MatchesAt(rest, s, i + 1);
    }
  }

  lemma BeginStep(rest: seq<Piece>, s: string, i: nat)
    requires i <= |s|
    ensures MatchesAt([Once(Begin)] + rest, s, i) <==> i == 0 && MatchesAt(rest, s, i)
  {
    assert ([Once(Begin)] + rest)[1..] == rest;
  }

  // --------------------------------------------------------- what repeats mean

  predicate IsOnly(s: string, c: char) {
    forall i :: 0 <= i < |s| ==> s[i] == c
  }

  lemma EndOnly(s: string, i: nat)
    requires i <= |s|
    ensures MatchesAt([Once(End)], s, i) <==> i == |s|
  {
    assert [Once(End)][1..] == [];
  }

  lemma {:induction false} RunMatches(p: Piece, s: string, i: nat)
    requires p.atom.Char? && IsBounded(p) && i <= |s|
    ensures MatchesAt([p, Once(End)], s, i) <==>
      IsOnly(s[i..], p.atom.c) && p.min <= |s| - i && (p.max.Some? ==> |s| - i <= p.max.value)
    decreases |s| - i
  {
    var rest := [Once(End)];
    assert [p, Once(End)] == [p] + rest && ([p] + rest)[1..] == rest;
    EndOnly(s, i);
    if i < |s| && s[i] == p.atom.c && p.max != Some(0) {
      assert [Less(p)] + rest == [Less(p), Once(End)];
      RunMatches(Less(p), s, i + 1);
      assert s[i..] == [s[i]] + s[i + 1..];
    } else if i < |s| {
      assert s[i..][0] == s[i];
    }
  }

  /** A character repeated between anchors matches exactly the texts of it whose length is within the bounds. */
  lemma RepeatMeaning(c: char, min: nat, max: Option<nat>, s: string)
    requires max.Some? ==> min <= max.value
    ensures Matches([[Once(Begin), Piece(Char(c), min, max), Once(End)]], s) <==>
      IsOnly(s, c) && min <= |s| && (max.Some? ==> |s| <= max.value)
  {
    var p := Piece(Char(c), min, max);
    var ps, rest := [Once(Begin), p, Once(End)], [p, Once(End)];
    assert ps == [Once(Begin)] + rest;
    RunMatches(p, s, 0);
    assert s[0..] == s;
    hide IsOnly, MatchesAt;
    forall i | 0 <= i <= |s| ensures MatchesAt(ps, s, i) <==> i == 0 && MatchesAt(rest, s, i) {
      BeginStep(rest, s, i);
    }
    OneAlternative(ps, s);
    BeginStep(rest, s, 0);
    if Matches([ps], s) {
      var i :| 0 <= i <= |s| && MatchesAt(ps, s, i);
    } else {
      assert !MatchesAt(ps, s, 0);
    }
  }

  lemma OneAlternative(ps: seq<Piece>, s: string)
    ensures Matches([ps], s) <==> exists i :: 0 <= i <= |s| && MatchesAt(ps, s, i)
  {
    hide MatchesAt;
    if i :| 0 <= i <= |s| && MatchesAt(ps, s, i) {
      assert MatchesAt([ps][0], s, i);
    }
    if k, i :| 0 <= k < |[ps]| && 0 <= i <= |s| && MatchesAt([ps][k], s, i) {
      assert MatchesAt(ps, s, i);
    }
  }

  /** Alternatives match what one of them does. */
  lemma AlternativesMatch(a: seq<seq<Piece>>, b: seq<seq<Piece>>, s: string)
    ensures Matches(a + b, s) <==> Matches(a, s) || Matches(b, s)
  {
    hide MatchesAt;
    if k, i :| 0 <= k < |a + b| && 0 <= i <= |s| && MatchesAt((a + b)[k], s, i) {
      assert if k < |a| then a[k] == (a + b)[k] else b[k - |a|] == (a + b)[k];
    }
    if k, i :| 0 <= k < |a| && 0 <= i <= |s| && MatchesAt(a[k], s, i) {
      assert (a + b)[k] == a[k];
    }
    if k, i :| 0 <= k < |b| && 0 <= i <= |s| && MatchesAt(b[k], s, i) {
      assert (a + b)[|a| + k] == b[k];
    }
  }
}
