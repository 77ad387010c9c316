/** The placeholders of a request body: $ADDR, $TTL and $$ (rest_api.go). */
module Placeholders {
  import opened Strings

  /** strings.ReplaceAll of a text of any length. */
  function ReplaceText(s: string, from: string, to: string): string
    requires from != ""
  {
    if |s| < |from| then s
    else if s[..|from|] == from then to + ReplaceText(s[|from|..], from, to)
    else [s[0]] + ReplaceText(s[1..], from, to)
  }

  /** A body with its placeholders filled in. */
  function Filled(body: string, remote: string): string {
    ReplaceText(ReplaceText(ReplaceText(body, "$ADDR", remote), "$TTL", "3600"), "$$", "$")
  }

  predicate StartsPlaceholder(s: string) {
    HasPrefix(s, "$ADDR") || HasPrefix(s, "$TTL") || HasPrefix(s, "$$")
  }

  predicate HasPlaceholder(s: string) {
    exists i :: 0 <= i <= |s| && StartsPlaceholder(s[i..])
  }

  lemma {:induction false} NothingReplaced(s: string, from: string, to: string)
    requires from != "" && forall i :: 0 <= i <= |s| ==> !HasPrefix(s[i..], from)
    ensures ReplaceText(s, from, to) == s
  {
    if |s| >= |from| {
      assert s[0..] == s;
      forall i | 0 <= i <= |s| - 1 ensures !HasPrefix(s[1..][i..], from) {
        assert s[1..][i..] == s[i + 1..];
      }
      NothingReplaced(s[1..], from, to);
    }
  }

  lemma ReplaceNext(c: char, s: string, from: string, to: string)
    requires from != "" && from[0] != c
    ensures ReplaceText([c] + s, from, to) == [c] + ReplaceText(s, from, to)
  {
    assert ([c] + s)[1..] == s;
    assert |[c] + s| >= |from| ==> ([c] + s)[..|from|][0] == c;
  }

  /** Text without the first character of a placeholder is passed over. */
  lemma {:induction false} ReplaceBehind(p: string, s: string, from: string, to: string)
    requires from != "" && from[0] !in p
    ensures ReplaceText(p + s, from, to) == p + ReplaceText(s, from, to)
  {
    hide ReplaceText;
    if p == "" {
      assert p + s == s;
    } else {
      assert p + s == [p[0]] + (p[1..] + s);
      ReplaceNext(p[0], p[1..] + s, from, to);
      ReplaceBehind(p[1..], s, from, to);
    }
  }

  /** Every place where a placeholder stands is replaced, and nothing else. */
  lemma {:induction false} AllReplaced(parts: seq<string>, from: string, to: string)
    requires from != "" && forall p :: p in parts ==> from[0] !in p
    ensures ReplaceText(Join(parts, from), from, to) == Join(parts, to)
  {
    if |parts| == 1 {
      ReplaceBehind(parts[0], "", from, to);
      assert parts[0] + "" == parts[0];
    } else if |parts| > 1 {
      var rest := Join(parts[1..], from);
      AllReplaced(parts[1..], from, to);
      assert Join(parts, from) == parts[0] + (from + rest) && (from + rest)[|from|..] == rest;
      ReplaceBehind(parts[0], from + rest, from, to);
      assert parts[0] + (to + Join(parts[1..], to)) == Join(parts, to);
    }
  }

  /** Another placeholder is left alone. */
  lemma {:induction false} OtherLeft(parts: seq<string>, other: string, from: string, to: string)
    requires |from| >= 2 && |other| >= 2 && from[0] == other[0] && from[1] != other[1]
    requires from[0] !in other[1..] && forall p :: p in parts ==> from[0] !in p
    ensures ReplaceText(Join(parts, other), from, to) == Join(parts, other)
  {
    if |parts| == 1 {
      ReplaceBehind(parts[0], "", from, to);
      assert parts[0] + "" == parts[0];
    } else if |parts| > 1 {
      var rest := Join(parts[1..], other);
      OtherLeft(parts[1..], other, from, to);
      var s := other + rest;
      assert Join(parts, other) == parts[0] + s && s[1..] == other[1..] + rest;
      ReplaceBehind(parts[0], s, from, to);
      ReplaceBehind(other[1..], rest, from, to);
      assert s[1] == other[1];
      assert [s[0]] + (other[1..] + rest) == s;
    }
  }

  /** $ADDR becomes the client's address and $TTL becomes 3600, at every place where they stand. */
  lemma PlacesFilled(parts: seq<string>, remote: string)
    requires '$' !in remote && forall p :: p in parts ==> '$' !in p
    ensures Filled(Join(parts, "$ADDR"), remote) == Join(parts, remote)
    ensures Filled(Join(parts, "$TTL"), remote) == Join(parts, "3600")
  {
    AllReplaced(parts, "$ADDR", remote);
    OtherLeft(parts, "$TTL", "$ADDR", remote);
    AllReplaced(parts, "$TTL", "3600");
    JoinContains(parts, remote, '$');
    JoinContains(parts, "3600", '$');
    NothingLeft(Join(parts, remote));
    NothingLeft(Join(parts, "3600"));
  }

  lemma NothingLeft(s: string)
    requires '$' !in s
    ensures ReplaceText(s, "$TTL", "3600") == s && ReplaceText(s, "$$", "$") == s
  {
    ReplaceBehind(s, "", "$TTL", "3600");
    ReplaceBehind(s, "", "$$", "$");
    assert s + "" == s;
  }

  /** $$ becomes a dollar sign, where no text behind it makes it part of another placeholder. */
  lemma DollarsFilled(parts: seq<string>, remote: string)
    requires forall p :: p in parts ==> '$' !in p && !HasPrefix(p, "A") && !HasPrefix(p, "T")
    ensures Filled(Join(parts, "$$"), remote) == Join(parts, "$")
  {
    DollarsLeft(parts, "$ADDR", remote);
    DollarsLeft(parts, "$TTL", "3600");
    AllReplaced(parts, "$$", "$");
  }

  lemma {:induction false} DollarsLeft(parts: seq<string>, from: string, to: string)
    requires |from| >= 2 && from[0] == '$' && (from[1] == 'A' || from[1] == 'T')
    requires forall p :: p in parts ==> '$' !in p && !HasPrefix(p, "A") && !HasPrefix(p, "T")
    ensures ReplaceText(Join(parts, "$$"), from, to) == Join(parts, "$$")
    ensures Join(parts, "$$") != "" ==> Join(parts, "$$")[0] != 'A' && Join(parts, "$$")[0] != 'T'
  {
    if |parts| == 1 {
      ReplaceBehind(parts[0], "", from, to);
      assert parts[0] + "" == parts[0];
    } else if |parts| > 1 {
      var rest := Join(parts[1..], "$$");
      DollarsLeft(parts[1..], from, to);
      var t := "$" + rest;
      var s := "$" + t;
      assert Join(parts, "$$") == parts[0] + s;
      ReplaceBehind(parts[0], s, from, to);
      assert s[1..] == t && t[1..] == rest;
      assert ReplaceText(t, from, to) == t;
      assert ReplaceText(s, from, to) == s;
    }
  }

  /** A body without placeholders is taken as it is. */
  lemma NothingFilled(body: string, remote: string)
    requires !HasPlaceholder(body)
    ensures Filled(body, remote) == body
  {
    forall i | 0 <= i <= |body| ensures !StartsPlaceholder(body[i..]) {
    }
    NothingReplaced(body, "$ADDR", remote);
    NothingReplaced(body, "$TTL", "3600");
    NothingReplaced(body, "$$", "$");
  }

  lemma NoDollarNoPlaceholder(s: string)
    requires '$' !in s
    ensures !HasPlaceholder(s)
  {
    forall i | 0 <= i <= |s| ensures !StartsPlaceholder(s[i..]) {
      if i < |s| {
        assert s[i..][0] == s[i] && s[i] in s;
      }
    }
  }

  predicate IsSeparator(c: char) {
    c == ' ' || c == '\n'
  }

  /** No placeholder reaches across a separator. */
  lemma AcrossSeparator(a: string, c: char, b: string)
    requires IsSeparator(c)
    ensures HasPlaceholder(a + [c] + b) <==> HasPlaceholder(a) || HasPlaceholder(b)
  {
    var s := a + [c] + b;
    forall i | 0 <= i <= |a| ensures StartsPlaceholder(s[i..]) <==> StartsPlaceholder(a[i..]) {
      assert s[i..] == a[i..] + ([c] + b);
      BeforeSeparator(a[i..], c, b);
    }
    forall i | 0 <= i <= |b| ensures s[|a| + 1 + i..] == b[i..] {
    }
    if HasPlaceholder(s) {
      var i :| 0 <= i <= |s| && StartsPlaceholder(s[i..]);
      assert i > |a| ==> s[i..] == b[i - |a| - 1..];
    }
    if i :| 0 <= i <= |b| && StartsPlaceholder(b[i..]) {
      assert StartsPlaceholder(s[|a| + 1 + i..]);
    }
  }

  lemma BeforeSeparator(a: string, c: char, b: string)
    requires IsSeparator(c)
    ensures StartsPlaceholder(a + ([c] + b)) <==> StartsPlaceholder(a)
  {
    PrefixBefore(a, c, b, "$ADDR");
    PrefixBefore(a, c, b, "$TTL");
    PrefixBefore(a, c, b, "$$");
  }

  lemma PrefixBefore(a: string, c: char, b: string, w: string)
    requires c !in w
    ensures HasPrefix(a + ([c] + b), w) <==> HasPrefix(a, w)
  {
    var s := a + ([c] + b);
    if |w| <= |a| {
      assert s[..|w|] == a[..|w|];
    } else if |w| <= |s| {
      assert s[..|w|][|a|] == c;
    }
  }

  lemma {:induction false} JoinedPlaceholder(parts: seq<string>, sep: char)
    requires IsSeparator(sep) && forall i :: 0 <= i < |parts| ==> !HasPlaceholder(parts[i])
    ensures !HasPlaceholder(Join(parts, [sep]))
  {
    if |parts| == 0 {
      NoDollarNoPlaceholder("");
    } else if |parts| > 1 {
      JoinedPlaceholder(parts[1..], sep);
      AcrossSeparator(parts[0], sep, Join(parts[1..], [sep]));
    }
  }
}
