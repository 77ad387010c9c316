/** Semicolons in TXT records: the text forms of the dynamic store are cut at the first semicolon, and the text of a
    TXT record is the only place where a record can hold one. */
module Semicolons {
  import opened Strings
  import opened Records
  import Addresses

  predicate HoldsSemicolon(r: Record) {
    r.Txt? && ';' in r.text
  }

  predicate IsMark(c: char) {
    c == ';' || c == '\n'
  }

  lemma NameIsClean(name: Domain, c: char)
    requires IsPlainName(name) && IsMark(c)
    ensures c !in Fqdn(name)
  {
    PlainNameFqdn(name);
    TokenHasNoSpace(name);
  }

  lemma DataIsClean(r: Record, c: char)
    requires WellFormed(r) && IsMark(c) && (r.Txt? ==> c !in r.text)
    ensures c !in DataText(r)
  {
    hide Fqdn;
    match r {
      case Address(_, _, ip) => Addresses.TextChars(ip);
      case Ns(_, target) => NameIsClean(target, c);
      case Cname(_, _, target) => NameIsClean(target, c);
      case Ptr(_, _, domain) => NameIsClean(domain, c);
      case Mx(_, _, _, target) => NameIsClean(target, c);
      case Txt(_, _, _) =>
      case Srv(_, _, _, _, _, target) => NameIsClean(target, c);
    }
  }

  lemma LineIsClean(name: Domain, ttl: U32, qtype: U16, data: string, c: char)
    requires IsPlainName(name) && IsMark(c)
    ensures c in Line(name, ttl, QtypeToString(qtype), data) <==> c in data
    ensures c in Fqdn(name) + " IN NS " + data <==> c in data
  {
    hide IsPlainName, Fqdn;
    NameIsClean(name, c);
    assert c !in Decimal(ttl) && c !in " IN " && c !in QtypeToString(qtype) && c !in " IN NS ";
  }

  lemma CharInText(r: Record, c: char)
    requires WellFormed(r) && IsMark(c)
    ensures c in Text(r) <==> r.Txt? && c in r.text
  {
    PlainNameOf(r);
    hide Fqdn, WellFormed, IsPlainName, QtypeToString, Line, DataText;
    LineIsClean(r.name, r.GetTTL(), r.GetQtype(), DataText(r), c);
    if r.Txt? && c in r.text {
      QuotedHolds(r, c);
    } else {
      DataIsClean(r, c);
    }
  }

  /** The text of a record holds a semicolon exactly when it is a TXT record that says one; no text holds a newline. */
  lemma TextIsClean(r: Record)
    requires WellFormed(r)
    ensures ';' in Text(r) <==> HoldsSemicolon(r)
    ensures '\n' !in Text(r)
  {
    hide Text, WellFormed;
    CharInText(r, ';');
    CharInText(r, '\n');
    WellFormedHasNoNewline(r);
  }

  lemma WellFormedHasNoNewline(r: Record)
    requires WellFormed(r)
    ensures r.Txt? ==> '\n' !in r.text
  {
  }

  lemma QuotedHolds(r: Record, c: char)
    requires r.Txt? && c in r.text
    ensures c in DataText(r)
  {
  }

  lemma PlainNameOf(r: Record)
    requires WellFormed(r)
    ensures IsPlainName(r.name)
  {
  }

  /** A quoted text that is cut off before its closing quote is no TXT record. */
  lemma BrokenQuote(name: Domain, ttl: U32, text: string)
    requires IsPlainName(name) && '"' !in text
    ensures NewRecord(Line(name, ttl, QtypeToString(TYPE_TXT), "\"" + text)) == Malformed
  {
    hide IsPlainName, ParseLine, Line, QtypeToString, ParseData, SetsDefault, LacksText, TrimBlanks;
    var data := "\"" + text;
    var t := TrimBlanks(data);
    TrimBlanksKeepsHead('"', text);
    var pad := data[|t|..];
    assert data == t + pad;
    var line := Line(name, ttl, QtypeToString(TYPE_TXT), t);
    LineEnds(name, ttl, QtypeToString(TYPE_TXT), t);
    LinePadded(name, ttl, QtypeToString(TYPE_TXT), t, pad);
    NoBlankEnd(line, pad);
    Records.LineRoundTrip(name, ttl, TYPE_TXT, t);
    assert |t| >= 2 ==> t[|t| - 1] == data[|t| - 1] == text[|t| - 2];
    NotQuoted(name, ttl, t);
    TextIsNotLacking(name, ttl, t);
  }

  /** A line with an owner and something behind its type does not panic. */
  lemma TextIsNotLacking(name: Domain, ttl: U32, data: string)
    requires IsPlainName(name)
    ensures var line := Line(name, ttl, QtypeToString(TYPE_TXT), data); !SetsDefault(line) && !LacksText(line)
  {
    hide IsPlainName, IsDirective, Header, IsToken, Absolute, ParseNumber;
    NameIsNoDirective(name);
    PlainNameFqdn(name);
    PlainNameAbsolute(name);
    TokenHasNoSpace(name);
    ParseNumberDecimal(ttl, 0x1_0000_0000);
    var rest := "TXT" + [' '] + data;
    assert "IN TXT " + data == "IN" + [' '] + rest;
    assert Line(name, ttl, "TXT", data) == name + [' '] + (Decimal(ttl) + [' '] + ("IN" + [' '] + rest));
    CutAt(name, ' ', Decimal(ttl) + [' '] + ("IN" + [' '] + rest));
    SecondField(name, Decimal(ttl), "IN" + [' '] + rest);
    CutAt("IN", ' ', rest);
    DirectiveWords(name);
  }

  lemma DirectiveWords(word: string)
    requires !IsDirective(word)
    ensures Upper(word) != "$TTL" && Upper(word) != "$ORIGIN"
  {
  }

  lemma NotQuoted(name: Domain, ttl: U32, t: string)
    requires |t| < 2 || t[|t| - 1] != '"'
    ensures ParseData(name, ttl, TYPE_TXT, t) == None
  {
  }

  lemma {:induction false} TrimBlanksKeepsHead(c: char, s: string)
    requires !IsBlank(c)
    ensures TrimBlanks([c] + s) != [] && TrimBlanks([c] + s)[0] == c
  {
    if s != [] {
      TrimBlanksKeepsHead(c, s[..|s| - 1]);
      assert ([c] + s)[..|s|] == [c] + s[..|s| - 1];
    }
  }

  lemma LinePadded(name: Domain, ttl: U32, kind: string, data: string, pad: string)
    ensures Line(name, ttl, kind, data) + pad == Line(name, ttl, kind, data + pad)
    ensures data != [] ==> Line(name, ttl, kind, data) != []
  {
  }

  lemma Regroup(a: string, b: string, c: string)
    ensures a + b + c == a + (b + c)
  {
  }

  lemma TxtText(r: Record, before: string, after: string)
    requires r.Txt? && r.text == before + [';'] + after
    ensures Text(r) == Line(r.name, r.ttl, QtypeToString(TYPE_TXT), "\"" + before) + [';'] + (after + "\"")
  {
    hide Line, QtypeToString, Fqdn;
    var rest := [';'] + (after + "\"");
    LinePadded(r.name, r.ttl, QtypeToString(TYPE_TXT), "\"" + before, rest);
    var head := Line(r.name, r.ttl, QtypeToString(TYPE_TXT), "\"" + before);
    assert head + rest == head + [';'] + (after + "\"");
    assert "\"" + before + rest == "\"" + r.text + "\"";
  }

  lemma TextHasNoQuote(r: Record)
    requires WellFormed(r) && r.Txt?
    ensures '"' !in r.text
  {
  }

  /** What the first semicolon leaves of the text of such a record, whatever follows it, is no record. */
  lemma CutTextIsBroken(r: Record, tail: string)
    requires WellFormed(r) && HoldsSemicolon(r)
    ensures NewRecord(Cut(Text(r) + tail, ';').0) == Malformed
  {
    PlainNameOf(r);
    TextHasNoQuote(r);
    hide IsPlainName, WellFormed, Line, QtypeToString, Text, IsTextChar, Decimal, Cut, NewRecord;
    var (before, after) := Cut(r.text, ';');
    assert r.text == before + [';'] + after.value;
    var head := Line(r.name, r.ttl, QtypeToString(TYPE_TXT), "\"" + before);
    LineIsClean(r.name, r.ttl, TYPE_TXT, "\"" + before, ';');
    TxtText(r, before, after.value);
    Regroup(head + [';'], after.value + "\"", tail);
    CutAt(head, ';', after.value + "\"" + tail);
    BrokenQuote(r.name, r.ttl, before);
  }
}
