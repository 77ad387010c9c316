/** The JavaScript client: record classes, their printers, and their parsers, which are regular expressions searched
    for anywhere in a line (client/js-client/src/index.ts). */
module JsClient {
  import opened Strings
  import Records
  import Addresses
  import opened DynamicRecords
  import DynamicText
  import Semicolons

  // ------------------------------------------------------- regular expressions

  /** A repeated character class, greedy, in a capturing group or not; or a single character of a class. */
  datatype Item = Run(accepts: char -> bool, min: nat, group: bool) | One(accepts: char -> bool)

  /** The longest prefix of characters of a class. */
  function RunLength(s: string, p: char -> bool): (n: nat)
    ensures n <= |s| && (n < |s| ==> !p(s[n]))
    ensures forall i :: 0 <= i < n ==> p(s[i])
  {
    if s != [] && p(s[0]) then 1 + RunLength(s[1..], p) else 0
  }

  /** Matching at the start of a text, with backtracking; the result lists what the groups captured. */
  function Match(items: seq<Item>, s: string): Option<seq<string>>
    decreases |items|, 1, 0
  {
    if items == [] then Some([])
    else
      match items[0]
      case One(p) => if s != [] && p(s[0]) then Match(items[1..], s[1..]) else None
      case Run(p, _, _) => TryRun(items, s, RunLength(s, p))
  }

  /** The first repeated class takes n characters, or as many fewer as it takes for the rest to match. */
  function TryRun(items: seq<Item>, s: string, n: nat): Option<seq<string>>
    requires items != [] && items[0].Run? && n <= |s|
    decreases |items|, 0, n
  {
    if n < items[0].min then None
    else
      match Match(items[1..], s[n..])
      case Some(captured) => Some((if items[0].group then [s[..n]] else []) + captured)
      case None => if n == 0 then None else TryRun(items, s, n - 1)
  }

  /** String.match: the leftmost match. */
  function Search(items: seq<Item>, s: string): Option<seq<string>> {
    if Match(items, s).Some? || s == [] then Match(items, s) else Search(items, s[1..])
  }

  /** Group n of a match. */
  function Group(m: seq<string>, n: nat): string {
    if 1 <= n <= |m| then m[n - 1] else ""
  }

  /** A greedy run before a character that is not of its class takes all of it if the rest matches then. */
  lemma MatchRun(p: char -> bool, min: nat, group: bool, items: seq<Item>, run: string, rest: string)
    requires |run| >= min && forall i :: 0 <= i < |run| ==> p(run[i])
    requires rest == [] || !p(rest[0])
    requires Match(items, rest).Some?
    ensures Match([Run(p, min, group)] + items, run + rest)
         == Some((if group then [run] else []) + Match(items, rest).value)
  {
    var all, s := [Run(p, min, group)] + items, run + rest;
    RunLengthIs(p, run, rest);
    assert all[1..] == items && s[|run|..] == rest && s[..|run|] == run;
  }

  lemma {:induction false} RunLengthIs(p: char -> bool, run: string, rest: string)
    requires forall i :: 0 <= i < |run| ==> p(run[i])
    requires rest == [] || !p(rest[0])
    ensures RunLength(run + rest, p) == |run|
  {
    if run == [] {
      assert run + rest == rest;
    } else {
      RunLengthIs(p, run[1..], rest);
      assert (run + rest)[1..] == run[1..] + rest;
    }
  }

  lemma MatchOne(p: char -> bool, items: seq<Item>, c: char, rest: string)
    requires p(c)
    ensures Match([One(p)] + items, [c] + rest) == Match(items, rest)
  {
    assert ([One(p)] + items)[1..] == items && ([c] + rest)[1..] == rest;
  }

  /** What any match says about the start of the text. */
  lemma RunSplit(items: seq<Item>, s: string) returns (n: nat)
    requires items != [] && items[0].Run? && Match(items, s).Some?
    ensures items[0].min <= n <= |s| && Match(items[1..], s[n..]).Some?
    ensures forall i :: 0 <= i < n ==> items[0].accepts(s[i])
  {
    n := TrySplit(items, s, RunLength(s, items[0].accepts));
  }

  lemma {:induction false} TrySplit(items: seq<Item>, s: string, n: nat) returns (m: nat)
    requires items != [] && items[0].Run? && n <= |s| && TryRun(items, s, n).Some?
    ensures items[0].min <= m <= n && Match(items[1..], s[m..]).Some?
    decreases n
  {
    if Match(items[1..], s[n..]).Some? {
      m := n;
    } else {
      m := TrySplit(items, s, n - 1);
    }
  }

  lemma OneSplit(items: seq<Item>, s: string)
    requires items != [] && items[0].One? && Match(items, s).Some?
    ensures s != [] && items[0].accepts(s[0]) && Match(items[1..], s[1..]).Some?
  {
  }

  // ----------------------------------------------------------------- classes

  predicate IsBlank(c: char) {
    c == ' ' || c == '\t'
  }

  /** [^ \t;] */
  predicate IsValueChar(c: char) {
    !IsBlank(c) && c != ';'
  }

  function NonBlank(): char -> bool { c => !IsBlank(c) }
  function Blank(): char -> bool { c => IsBlank(c) }
  function Digit(): char -> bool { c => IsDigit(c) }
  function Capital(): char -> bool { c => 'A' <= c <= 'Z' }
  function ValueChar(): char -> bool { c => IsValueChar(c) }
  function NotQuote(): char -> bool { c => c != '"' }
  function Is(d: char): char -> bool { c => c == d }

  function Gap(): Item { Run(Blank(), 1, false) }
  function Number(): Item { Run(Digit(), 1, true) }
  function Value(): Item { Run(ValueChar(), 1, true) }

  // ------------------------------------------------------------------ records

  datatype JsRecord =
    | ARecord(name: string, address: string, ttl: nat)
    | AaaaRecord(name: string, address: string, ttl: nat)
    | CnameRecord(name: string, target: string, ttl: nat)
    | PtrRecord(name: string, domain: string, ttl: nat)
    | TxtRecord(name: string, text: string, ttl: nat)
    | SrvRecord(name: string, target: string, port: nat, priority: nat, weight: nat, ttl: nat)

  function Kind(r: JsRecord): string {
    match r
    case ARecord(_, _, _) => "A"
    case AaaaRecord(_, _, _) => "AAAA"
    case CnameRecord(_, _, _) => "CNAME"
    case PtrRecord(_, _, _) => "PTR"
    case TxtRecord(_, _, _) => "TXT"
    case SrvRecord(_, _, _, _, _, _) => "SRV"
  }

  function Data(r: JsRecord): string {
    match r
    case ARecord(_, address, _) => address
    case AaaaRecord(_, address, _) => address
    case CnameRecord(_, target, _) => target
    case PtrRecord(_, domain, _) => domain
    case TxtRecord(_, text, _) => "\"" + text + "\""
    case SrvRecord(_, target, port, priority, weight, _) =>
      Decimal(priority) + " " + Decimal(weight) + " " + Decimal(port) + " " + target
  }

  /** toString. */
  function ToText(r: JsRecord): string {
    Line(r.name, Decimal(r.ttl), Kind(r), Data(r))
  }

  function Line(name: string, ttl: string, kind: string, data: string): string {
    name + " " + ttl + " IN " + kind + " " + data
  }

  // ------------------------------------------------------------------ parsers

  const MAX_SAFE_INTEGER: nat := 0x1F_FFFF_FFFF_FFFF

  /** The distance of neighbouring doubles around a natural number. */
  function Spacing(n: nat): (u: nat)
    ensures u >= 1 && (n <= MAX_SAFE_INTEGER ==> u == 1)
  {
    if n <= MAX_SAFE_INTEGER then 1 else 2 * Spacing(n / 2)
  }

  /** The double nearest to a natural number, ties to even. */
  function ToDouble(n: nat): (d: nat)
    ensures n <= MAX_SAFE_INTEGER ==> d == n
  {
    var u := Spacing(n);
    if 2 * (n % u) > u || (2 * (n % u) == u && n / u % 2 == 1) then (n / u + 1) * u else n - n % u
  }

  /** Numbers up to the largest safe integer are kept; above, ties go to the even neighbour. */
  lemma SafeNumbers(n: nat)
    ensures n <= 9007199254740991 ==> ToDouble(n) == n
    ensures ToDouble(9007199254740993) == 9007199254740992 && ToDouble(9007199254740995) == 9007199254740996
    ensures ToDouble(18014398509481987) == 18014398509481988
  {
    assert Spacing(9007199254740993) == 2 && Spacing(9007199254740995) == 2;
    assert Spacing(18014398509481987) == 2 * Spacing(9007199254740993) == 4;
  }

  /** parseInt of a run of digits. */
  function ParseDigits(s: string): nat {
    if AllDigits(s) then ToDouble(DigitsValue(s)) else 0
  }

  /** The pattern of one record class: name, TTL, IN, the type, and the data. */
  function Pattern(kind: string, data: seq<Item>): seq<Item> {
    [Run(NonBlank(), 1, true), Gap(), Number(), Gap(), One(Is('I')), One(Is('N')), Gap()] +
    (Word(kind) + ([Gap()] + data))
  }

  function Word(w: string): seq<Item> {
    if w == [] then [] else [One(Is(w[0]))] + Word(w[1..])
  }

  function TxtData(): seq<Item> {
    [One(Is('"')), Run(NotQuote(), 0, true), One(Is('"'))]
  }

  function SrvData(): seq<Item> {
    [Number(), Gap(), Number(), Gap(), Number(), Gap(), Value()]
  }

  function ParseA(s: string): Option<JsRecord> {
    match Search(Pattern("A", [Value()]), s)
    case None => None
    case Some(m) => Some(ARecord(Group(m, 1), Group(m, 3), ParseDigits(Group(m, 2))))
  }

  function ParseAaaa(s: string): Option<JsRecord> {
    match Search(Pattern("AAAA", [Value()]), s)
    case None => None
    case Some(m) => Some(AaaaRecord(Group(m, 1), Group(m, 3), ParseDigits(Group(m, 2))))
  }

  function ParseCname(s: string): Option<JsRecord> {
    match Search(Pattern("CNAME", [Value()]), s)
    case None => None
    case Some(m) => Some(CnameRecord(Group(m, 1), Group(m, 3), ParseDigits(Group(m, 2))))
  }

  function ParsePtr(s: string): Option<JsRecord> {
    match Search(Pattern("PTR", [Value()]), s)
    case None => None
    case Some(m) => Some(PtrRecord(Group(m, 1), Group(m, 3), ParseDigits(Group(m, 2))))
  }

  function ParseTxt(s: string): Option<JsRecord> {
    match Search(Pattern("TXT", TxtData()), s)
    case None => None
    case Some(m) => Some(TxtRecord(Group(m, 1), Group(m, 3), ParseDigits(Group(m, 2))))
  }

  function ParseSrv(s: string): Option<JsRecord> {
    match Search(Pattern("SRV", SrvData()), s)
    case None => None
    case Some(m) =>
      Some(SrvRecord(Group(m, 1), Group(m, 6), ParseDigits(Group(m, 5)), ParseDigits(Group(m, 3)),
                     ParseDigits(Group(m, 4)), ParseDigits(Group(m, 2))))
  }

  /** The pattern that finds the type of a line. */
  function KindPattern(): seq<Item> {
    [Run(NonBlank(), 1, false), Gap(), Run(Digit(), 1, false), Gap(), One(Is('I')), One(Is('N')), Gap(),
     Run(Capital(), 1, true), One(Blank())]
  }

  /** Record.parse; None is an exception. */
  function Parse(s: string): Option<JsRecord> {
    match Search(KindPattern(), s)
    case None => None
    case Some(m) => ParseKind(Group(m, 1), s)
  }

  function ParseKind(kind: string, s: string): Option<JsRecord> {
    if kind == "A" then ParseA(s)
    else if kind == "AAAA" then ParseAaaa(s)
    else if kind == "CNAME" then ParseCname(s)
    else if kind == "PTR" then ParsePtr(s)
    else if kind == "TXT" then ParseTxt(s)
    else if kind == "SRV" then ParseSrv(s)
    else None
  }

  /** The characters String.trim removes. */
  predicate IsJsSpace(c: char) {
    (IsSpace(c) && c != '\U{85}') || c == '\U{FEFF}'
  }

  function TrimStart(s: string): string {
    if s != [] && IsJsSpace(s[0]) then TrimStart(s[1..]) else s
  }

  function TrimEnd(s: string): string {
    if s != [] && IsJsSpace(s[|s| - 1]) then TrimEnd(s[..|s| - 1]) else s
  }

  function Trim(s: string): string {
    TrimEnd(TrimStart(s))
  }

  function TrimAll(lines: seq<string>): (r: seq<string>)
    ensures |r| == |lines| && forall i :: 0 <= i < |lines| ==> r[i] == Trim(lines[i])
  {
    seq(|lines|, i requires 0 <= i < |lines| => Trim(lines[i]))
  }

  function IsRecordLine(): string -> bool {
    line => line != "" && line[0] != ';'
  }

  /** Every line parsed; one exception is an exception of the whole. */
  function ParseAll(lines: seq<string>): Option<seq<JsRecord>> {
    if lines == [] then Some([])
    else
      match (ParseAll(lines[..|lines| - 1]), Parse(lines[|lines| - 1]))
      case (Some(rs), Some(r)) => Some(rs + [r])
      case _ => None
  }

  /** parseRecords. */
  function ParseRecords(text: string): Option<seq<JsRecord>> {
    ParseAll(Filter(TrimAll(Split(text, '\n')), IsRecordLine()))
  }

  // ------------------------------------------------- how patterns match a line

  lemma {:induction false} MatchWord(w: string, items: seq<Item>, rest: string)
    ensures Match(Word(w) + items, w + rest) == Match(items, rest)
  {
    hide Match;
    if w == [] {
      assert Word(w) + items == items && w + rest == rest;
    } else {
      MatchWord(w[1..], items, rest);
      MatchOne(Is(w[0]), Word(w[1..]) + items, w[0], w[1..] + rest);
      assert Word(w) + items == [One(Is(w[0]))] + (Word(w[1..]) + items);
      assert w + rest == [w[0]] + (w[1..] + rest);
    }
  }

  lemma MatchGap(items: seq<Item>, rest: string)
    requires rest != [] && !IsBlank(rest[0]) && Match(items, rest).Some?
    ensures Match([Gap()] + items, " " + rest) == Match(items, rest)
  {
    MatchRun(Blank(), 1, false, items, " ", rest);
    assert [] + Match(items, rest).value == Match(items, rest).value;
  }

  /** A text the pattern's digits run over. */
  predicate IsDigits(s: string) {
    s != [] && AllDigits(s)
  }

  predicate IsWord(s: string) {
    s != [] && forall i :: 0 <= i < |s| ==> !IsBlank(s[i])
  }

  /** Name, TTL and IN, captured or not. */
  lemma MatchHead(group: bool, items: seq<Item>, name: string, ttl: string, rest: string)
    requires IsWord(name) && IsDigits(ttl) && rest != [] && !IsBlank(rest[0]) && Match(items, rest).Some?
    ensures Match([Run(NonBlank(), 1, group), Gap(), Run(Digit(), 1, group), Gap(), One(Is('I')), One(Is('N')), Gap()]
                  + items, name + " " + ttl + " IN " + rest)
         == Some((if group then [name, ttl] else []) + Match(items, rest).value)
  {
    hide Match;
    var i7, s7 := [Gap()] + items, " " + rest;
    MatchGap(items, rest);
    var i6, s6 := [One(Is('N'))] + i7, "N" + s7;
    MatchOne(Is('N'), i7, 'N', s7);
    var i5, s5 := [One(Is('I'))] + i6, "I" + s6;
    MatchOne(Is('I'), i6, 'I', s6);
    var i4, s4 := [Gap()] + i5, " " + s5;
    MatchGap(i5, s5);
    var i3, s3 := [Run(Digit(), 1, group)] + i4, ttl + s4;
    MatchRun(Digit(), 1, group, i4, ttl, s4);
    var i2, s2 := [Gap()] + i3, " " + s3;
    MatchGap(i3, s3);
    MatchRun(NonBlank(), 1, group, i2, name, s2);
    assert s2 == " " + ttl + " IN " + rest;
    assert name + s2 == name + " " + ttl + " IN " + rest;
    ghost var v := Match(items, rest).value;
    assert (if group then [ttl] else []) + v == if group then [ttl] + v else v;
    assert (if group then [name] else []) + ((if group then [ttl] else []) + v)
        == (if group then [name, ttl] else []) + v;
    assert [Run(NonBlank(), 1, group)] + i2 ==
      [Run(NonBlank(), 1, group), Gap(), Run(Digit(), 1, group), Gap(), One(Is('I')), One(Is('N')), Gap()] + items;
  }

  lemma SearchAtStart(items: seq<Item>, s: string)
    requires Match(items, s).Some?
    ensures Search(items, s) == Match(items, s)
  {
    hide Match;
  }

  /** A line in front of anything a data pattern accepts. */
  lemma SearchLine(kind: string, data: seq<Item>, name: string, ttl: string, text: string)
    requires IsWord(name) && IsDigits(ttl) && IsWord(kind)
    requires text != [] && !IsBlank(text[0]) && Match(data, text).Some?
    ensures Search(Pattern(kind, data), Line(name, ttl, kind, text)) == Some([name, ttl] + Match(data, text).value)
  {
    hide Match;
    var items, rest := Word(kind) + ([Gap()] + data), kind + (" " + text);
    MatchGap(data, text);
    MatchWord(kind, [Gap()] + data, " " + text);
    MatchHead(true, items, name, ttl, rest);
    assert name + " " + ttl + " IN " + rest == Line(name, ttl, kind, text);
    SearchAtStart(Pattern(kind, data), Line(name, ttl, kind, text));
  }

  predicate IsCapitals(s: string) {
    s != [] && forall i :: 0 <= i < |s| ==> 'A' <= s[i] <= 'Z'
  }

  /** The type of a line is found whatever follows it. */
  lemma SearchKind(name: string, ttl: string, kind: string, text: string)
    requires IsWord(name) && IsDigits(ttl) && IsCapitals(kind)
    ensures Search(KindPattern(), Line(name, ttl, kind, text)) == Some([kind])
  {
    var items, rest := [Run(Capital(), 1, true), One(Blank())], kind + (" " + text);
    MatchOne(Blank(), [], ' ', text);
    assert [One(Blank())] + [] == [One(Blank())] && [' '] + text == " " + text;
    MatchRun(Capital(), 1, true, [One(Blank())], kind, " " + text);
    assert [Run(Capital(), 1, true)] + [One(Blank())] == items;
    assert Match(items, rest) == Some([kind]) by {
      MatchNone(text);
      assert [kind] + [] == [kind];
    }
    assert [] + [kind] == [kind];
    hide Match;
    MatchHead(false, items, name, ttl, rest);
    assert name + " " + ttl + " IN " + rest == Line(name, ttl, kind, text);
    assert [Run(NonBlank(), 1, false), Gap(), Run(Digit(), 1, false), Gap(), One(Is('I')), One(Is('N')), Gap()] + items
        == KindPattern();
    SearchAtStart(KindPattern(), Line(name, ttl, kind, text));
  }

  // -------------------------------------------------------- what can be read back

  predicate IsValue(s: string) {
    s != [] && forall i :: 0 <= i < |s| ==> IsValueChar(s[i])
  }

  /** What may follow the data on a line. */
  predicate IsTail(s: string) {
    s == [] || s[0] == ' '
  }

  lemma MatchNone(s: string)
    ensures Match([], s) == Some([])
  {
  }

  lemma MatchValue(v: string, tail: string)
    requires IsValue(v) && IsTail(tail)
    ensures Match([Value()], v + tail) == Some([v])
  {
    MatchNone(tail);
    MatchRun(ValueChar(), 1, true, [], v, tail);
    assert [Value()] + [] == [Value()] && [v] + [] == [v];
  }

  lemma MatchTxt(text: string, tail: string)
    requires '"' !in text
    ensures Match(TxtData(), "\"" + text + "\"" + tail) == Some([text])
  {
    hide Match;
    var close := "\"" + tail;
    MatchNone(tail);
    MatchOne(Is('"'), [], '"', tail);
    assert [One(Is('"'))] + [] == [One(Is('"'))];
    MatchRun(NotQuote(), 0, true, [One(Is('"'))], text, close);
    var items := [Run(NotQuote(), 0, true)] + [One(Is('"'))];
    MatchOne(Is('"'), items, '"', text + close);
    assert [One(Is('"'))] + items == TxtData();
    assert ['"'] + (text + close) == "\"" + text + "\"" + tail;
    assert [text] + [] == [text];
  }

  /** One number of an SRV line. */
  lemma MatchNumber(items: seq<Item>, n: nat, rest: string)
    requires rest != [] && !IsBlank(rest[0]) && Match(items, rest).Some?
    ensures Match([Number(), Gap()] + items, Decimal(n) + " " + rest) == Some([Decimal(n)] + Match(items, rest).value)
  {
    hide Match, Decimal;
    MatchGap(items, rest);
    MatchRun(Digit(), 1, true, [Gap()] + items, Decimal(n), " " + rest);
    assert [Number()] + ([Gap()] + items) == [Number(), Gap()] + items;
    assert Decimal(n) + (" " + rest) == Decimal(n) + " " + rest;
  }

  lemma MatchSrv(priority: nat, weight: nat, port: nat, target: string, tail: string)
    requires IsValue(target) && IsTail(tail)
    ensures Match(SrvData(), Decimal(priority) + " " + Decimal(weight) + " " + Decimal(port) + " " + target + tail)
         == Some([Decimal(priority), Decimal(weight), Decimal(port), target])
  {
    hide Match, Decimal;
    MatchValue(target, tail);
    var s3, i3 := Decimal(port) + " " + (target + tail), [Number(), Gap()] + [Value()];
    MatchNumber([Value()], port, target + tail);
    var s2, i2 := Decimal(weight) + " " + s3, [Number(), Gap()] + i3;
    MatchNumber(i3, weight, s3);
    var s1, i1 := Decimal(priority) + " " + s2, [Number(), Gap()] + i2;
    MatchNumber(i2, priority, s2);
    assert i1 == SrvData();
    assert [Decimal(priority)] + ([Decimal(weight)] + ([Decimal(port)] + [target]))
        == [Decimal(priority), Decimal(weight), Decimal(port), target];
    assert s1 == Decimal(priority) + " " + Decimal(weight) + " " + Decimal(port) + " " + target + tail;
  }

  /** Fields the patterns can capture and numbers JavaScript holds exactly. */
  predicate Capturable(r: JsRecord) {
    IsWord(r.name) && r.ttl <= MAX_SAFE_INTEGER &&
    match r
    case ARecord(_, address, _) => IsValue(address)
    case AaaaRecord(_, address, _) => IsValue(address)
    case CnameRecord(_, target, _) => IsValue(target)
    case PtrRecord(_, domain, _) => IsValue(domain)
    case TxtRecord(_, text, _) => '"' !in text
    case SrvRecord(_, target, port, priority, weight, _) =>
      IsValue(target) && port <= MAX_SAFE_INTEGER && priority <= MAX_SAFE_INTEGER && weight <= MAX_SAFE_INTEGER
  }

  lemma ParseDecimal(n: nat)
    requires n <= MAX_SAFE_INTEGER
    ensures ParseDigits(Decimal(n)) == n
  {
    DecimalValue(n);
  }

  function DataPattern(r: JsRecord): seq<Item> {
    match r
    case TxtRecord(_, _, _) => TxtData()
    case SrvRecord(_, _, _, _, _, _) => SrvData()
    case _ => [Value()]
  }

  /** What the groups of the data pattern capture. */
  function DataGroups(r: JsRecord): seq<string> {
    match r
    case TxtRecord(_, text, _) => [text]
    case SrvRecord(_, target, port, priority, weight, _) => [Decimal(priority), Decimal(weight), Decimal(port), target]
    case _ => [Data(r)]
  }

  lemma MatchData(r: JsRecord, tail: string)
    requires Capturable(r) && IsTail(tail)
    ensures Match(DataPattern(r), Data(r) + tail) == Some(DataGroups(r))
    ensures Data(r) != [] && !IsBlank(Data(r)[0])
  {
    hide Match;
    match r {
      case TxtRecord(_, text, _) => MatchTxt(text, tail);
      case SrvRecord(_, target, port, priority, weight, _) => MatchSrv(priority, weight, port, target, tail);
      case _ => MatchValue(Data(r), tail);
    }
  }

  lemma KindIsCapitals(r: JsRecord)
    ensures IsCapitals(Kind(r)) && IsWord(Kind(r))
  {
  }

  lemma DecimalIsDigits(n: nat)
    ensures IsDigits(Decimal(n))
  {
  }

  /** A printed record is parsed back, whatever stands behind a blank after it. */
  lemma ParseText(r: JsRecord, tail: string)
    requires Capturable(r) && IsTail(tail)
    ensures Parse(ToText(r) + tail) == Some(r)
  {
    hide Search, Pattern, KindPattern, Match, DataPattern, IsWord, Decimal, ParseDigits, Line, Data;
    var text := Data(r) + tail;
    MatchData(r, tail);
    KindIsCapitals(r);
    DecimalIsDigits(r.ttl);
    assert IsWord(r.name);
    SearchKind(r.name, Decimal(r.ttl), Kind(r), text);
    SearchLine(Kind(r), DataPattern(r), r.name, Decimal(r.ttl), text);
    LineTail(r.name, Decimal(r.ttl), Kind(r), Data(r), tail);
    ParseGroups(r, ToText(r) + tail);
  }

  lemma LineTail(name: string, ttl: string, kind: string, data: string, tail: string)
    ensures Line(name, ttl, kind, data) + tail == Line(name, ttl, kind, data + tail)
  {
  }

  lemma ParseGroups(r: JsRecord, s: string)
    requires Capturable(r)
    requires Search(Pattern(Kind(r), DataPattern(r)), s) == Some([r.name, Decimal(r.ttl)] + DataGroups(r))
    ensures ParseKind(Kind(r), s) == Some(r)
  {
    hide Search, Pattern, Decimal, ParseDigits, IsWord, IsValue;
    ParseDecimal(r.ttl);
    if r.SrvRecord? {
      ParseDecimal(r.port);
      ParseDecimal(r.priority);
      ParseDecimal(r.weight);
    }
  }

  // ------------------------------------------------------------ lists of records

  /** A line that trimming and filtering leave alone. */
  predicate IsKept(s: string) {
    s != [] && s[0] != ';' && HasVisibleEnds(s)
  }

  predicate HasVisibleEnds(s: string) {
    s != [] && !IsJsSpace(s[0]) && !IsJsSpace(s[|s| - 1])
  }

  lemma {:induction false} StartTrimmed(left: string, s: string)
    requires (forall i :: 0 <= i < |left| ==> IsJsSpace(left[i])) && s != [] && !IsJsSpace(s[0])
    ensures TrimStart(left + s) == s
  {
    hide IsJsSpace;
    if left == [] {
      assert left + s == s;
    } else {
      assert (left + s)[1..] == left[1..] + s;
      StartTrimmed(left[1..], s);
    }
  }

  lemma {:induction false} EndTrimmed(s: string, right: string)
    requires (forall i :: 0 <= i < |right| ==> IsJsSpace(right[i])) && s != [] && !IsJsSpace(s[|s| - 1])
    ensures TrimEnd(s + right) == s
  {
    hide IsJsSpace;
    if right == [] {
      assert s + right == s;
    } else {
      var n := |right| - 1;
      assert (s + right)[..|s + right| - 1] == s + right[..n];
      EndTrimmed(s, right[..n]);
    }
  }

  /** String.trim removes the white space at both ends: all that the server takes for it but U+0085, and the byte order
      mark. */
  lemma TrimRemoves(left: string, s: string, right: string)
    requires forall c :: c in left + right ==> (c in "\t\n\r \U{A0}\U{2003}\U{3000}\U{FEFF}")
    requires s != [] && (forall c :: c in [s[0], s[|s| - 1]] ==> c == '\U{85}' || !IsJsSpace(c))
    ensures Trim(left + s + right) == s
  {
    Spaces('\U{85}');
    assert !IsJsSpace('\U{85}');
    forall c | c in "\t\n\r \U{A0}\U{2003}\U{3000}\U{FEFF}" ensures IsJsSpace(c) {
      Spaces(c);
    }
    assert s[0] in [s[0], s[|s| - 1]] && s[|s| - 1] in [s[0], s[|s| - 1]];
    assert forall i :: 0 <= i < |left| ==> left[i] in left + right;
    assert forall i :: 0 <= i < |right| ==> right[i] in left + right;
    hide IsJsSpace;
    assert left + s + right == left + (s + right) && (s + right)[0] == s[0];
    StartTrimmed(left, s + right);
    EndTrimmed(s, right);
  }

  lemma TrimKeeps(s: string)
    requires HasVisibleEnds(s)
    ensures Trim(s) == s
  {
  }

  function Texts(rs: seq<JsRecord>): (lines: seq<string>)
    ensures |lines| == |rs| && forall i :: 0 <= i < |rs| ==> lines[i] == ToText(rs[i])
  {
    seq(|rs|, i requires 0 <= i < |rs| => ToText(rs[i]))
  }

  lemma {:induction false} ParseTexts(rs: seq<JsRecord>)
    requires forall i :: 0 <= i < |rs| ==> Capturable(rs[i])
    ensures ParseAll(Texts(rs)) == Some(rs)
  {
    hide Parse, ToText, Capturable;
    if rs != [] {
      var n := |rs| - 1;
      ParseTexts(rs[..n]);
      assert Texts(rs)[..n] == Texts(rs[..n]);
      ParseText(rs[n], "");
      assert ToText(rs[n]) + "" == ToText(rs[n]);
      assert rs == rs[..n] + [rs[n]];
    }
  }

  lemma {:induction false} KeepAll(lines: seq<string>)
    requires forall i :: 0 <= i < |lines| ==> IsKept(lines[i])
    ensures Filter(TrimAll(lines), IsRecordLine()) == lines
  {
    hide Trim;
    if lines != [] {
      var n := |lines| - 1;
      KeepAll(lines[..n]);
      TrimKeeps(lines[n]);
      assert TrimAll(lines)[..n] == TrimAll(lines[..n]);
    }
  }

  /** A record one line can carry: the fields are captured, and neither splitting nor trimming nor the comment
      filter takes anything away. */
  predicate WellFormed(r: JsRecord) {
    Capturable(r) && IsKept(ToText(r)) && '\n' !in ToText(r)
  }

  /** The same, field by field. */
  lemma WellFormedFields(r: JsRecord)
    requires Capturable(r)
    ensures WellFormed(r) <==>
      r.name[0] != ';' && !IsJsSpace(r.name[0]) && '\n' !in r.name && '\n' !in Data(r) &&
      !IsJsSpace(Data(r)[|Data(r)| - 1])
  {
    hide Data, Decimal, Line, IsJsSpace, Kind, IsWord;
    CapturableName(r);
    var d := Data(r);
    MatchData(r, "");
    KindIsCapitals(r);
    DecimalIsDigits(r.ttl);
    assert '\n' !in Decimal(r.ttl) && '\n' !in Kind(r);
    assert ToText(r) == Line(r.name, Decimal(r.ttl), Kind(r), d);
    LineParts(r.name, Decimal(r.ttl), Kind(r), d);
  }

  lemma CapturableName(r: JsRecord)
    requires Capturable(r)
    ensures r.name != []
  {
  }

  lemma LineParts(name: string, ttl: string, kind: string, data: string)
    requires name != [] && data != []
    ensures var t := Line(name, ttl, kind, data);
            t != [] && t[0] == name[0] && t[|t| - 1] == data[|data| - 1] &&
            ('\n' in t <==> '\n' in name || '\n' in ttl || '\n' in kind || '\n' in data)
  {
  }

  /** parseRecords of the printed records, one on a line, returns the same list. */
  lemma RoundTrip(rs: seq<JsRecord>)
    requires forall i :: 0 <= i < |rs| ==> WellFormed(rs[i])
    ensures ParseRecords(Join(Texts(rs), "\n")) == Some(rs)
  {
    hide ToText, ParseAll;
    if rs == [] {
      NothingToRead();
    } else {
      SplitJoin(Texts(rs), '\n');
      KeepAll(Texts(rs));
      ParseTexts(rs);
    }
  }

  lemma NothingToRead()
    ensures ParseRecords("") == Some([])
  {
    assert Split("", '\n') == [""];
    assert TrimAll([""])[..0] == [];
  }

  // ------------------------------------------------------ what the server lists

  /** The client's record for a record of the server; it has none for NS and MX. */
  function FromServer(r: Records.Record): Option<JsRecord> {
    match r
    case Address(name, ttl, ip) =>
      if ip.V4? then Some(ARecord(name, Addresses.Text(ip), ttl)) else Some(AaaaRecord(name, Addresses.Text(ip), ttl))
    case Cname(name, ttl, target) => Some(CnameRecord(name, target, ttl))
    case Ptr(name, ttl, domain) => Some(PtrRecord(name, domain, ttl))
    case Txt(name, ttl, text) => Some(TxtRecord(name, text, ttl))
    case Srv(name, ttl, priority, weight, port, target) => Some(SrvRecord(name, target, port, priority, weight, ttl))
    case Ns(_, _) => None
    case Mx(_, _, _, _) => None
  }

  lemma PlainNameIsValue(name: string)
    requires Records.IsPlainName(name)
    ensures IsValue(name) && IsWord(name) && Records.Fqdn(name) == name && name[0] != ';' && '\n' !in name
  {
    Records.PlainNameFqdn(name);
    Records.TokenHasNoSpace(name);
    assert IsSpace(' ') && IsSpace('\t');
  }

  lemma AddressIsValue(ip: Addresses.IP)
    ensures IsValue(Addresses.Text(ip))
  {
    Addresses.TextChars(ip);
    forall i | 0 <= i < |Addresses.Text(ip)| ensures IsValueChar(Addresses.Text(ip)[i]) {
      assert Addresses.Text(ip)[i] in Addresses.Text(ip);
    }
  }

  /** Server and client print the records both have alike. */
  lemma SameText(r: Records.Record)
    requires Records.WellFormed(r) && FromServer(r).Some?
    ensures Records.Text(r) == ToText(FromServer(r).value)
    ensures Capturable(FromServer(r).value)
  {
    hide Records.Fqdn, Decimal, Addresses.Text, IsValue, IsWord, Records.IsPlainName;
    PlainNameIsValue(r.name);
    match r {
      case Address(_, _, ip) => AddressIsValue(ip);
      case Cname(_, _, target) => PlainNameIsValue(target);
      case Ptr(_, _, domain) => PlainNameIsValue(domain);
      case Txt(_, _, text) =>
      case Srv(_, _, _, _, _, target) => PlainNameIsValue(target);
    }
  }

  // ----------------------------------------------------------- lines without a match

  lemma {:induction false} SearchFound(items: seq<Item>, s: string) returns (k: nat)
    requires Search(items, s).Some?
    ensures k <= |s| && Match(items, s[k..]).Some?
    decreases |s|
  {
    if Match(items, s).Some? {
      k := 0;
      assert s[0..] == s;
    } else {
      k := SearchFound(items, s[1..]);
      assert s[1..][k..] == s[k + 1..];
      k := k + 1;
    }
  }

  /** The word IN between blanks, and a digit right before the blanks on its left. */
  predicate HasIn(s: string, q: nat, p: nat) {
    q < p && p + 2 < |s| && IsDigit(s[q]) && s[p] == 'I' && s[p + 1] == 'N' && IsBlank(s[p + 2]) &&
    IsBlank(s[p - 1]) && forall x :: q < x < p ==> IsBlank(s[x])
  }

  lemma MatchNeedsIn(s: string) returns (q: nat, p: nat)
    requires Match(KindPattern(), s).Some?
    ensures HasIn(s, q, p)
  {
    hide Match;
    var items := KindPattern();
    var a := RunSplit(items, s);
    var b := RunSplit(items[1..], s[a..]);
    var t := s[a..][b..];
    var c := RunSplit(items[1..][1..], t);
    var d := RunSplit(items[1..][1..][1..], t[c..]);
    var u := t[c..][d..];
    OneSplit(items[1..][1..][1..][1..], u);
    OneSplit(items[1..][1..][1..][1..][1..], u[1..]);
    var e := RunSplit(items[1..][1..][1..][1..][1..][1..], u[1..][1..]);
    assert t == s[a + b..] && u == t[c + d..] && u[1..][1..] == u[2..];
    q, p := a + b + c - 1, a + b + c + d;
    assert s[q] == t[c - 1] && s[p] == u[0] && s[p + 1] == u[1] && s[p + 2] == u[2];
    forall x | q < x < p ensures IsBlank(s[x]) {
      assert s[x] == t[c..][x - (a + b + c)];
    }
  }

  /** The only place of an NS line where IN stands between blanks. */
  lemma NsInPosition(s: string, name: string, target: string, tail: string, p: nat)
    requires IsWord(name) && IsWord(target) && target[|target| - 1] == '.' && 'N' !in tail
    requires s == name + " IN NS " + target + tail && 1 <= p && p + 2 < |s|
    ensures IsBlank(s[p - 1]) && s[p] == 'I' && s[p + 1] == 'N' && IsBlank(s[p + 2]) ==> p == |name| + 1
  {
    var a := |name|;
    var b := a + 7 + |target|;
    assert s[..a] == name && s[a..a + 7] == " IN NS " && s[a + 7..b] == target && s[b..] == tail;
    if p <= a {
      assert s[p - 1] == name[p - 1];
    } else if p < a + 7 {
      assert s[p - 1] == " IN NS "[p - 1 - a] && s[p] == " IN NS "[p - a];
    } else if p + 1 >= b {
      assert s[p + 1] == tail[p + 1 - b];
    } else if p == a + 7 {
      assert s[p + 1] == target[1] && (|target| > 2 ==> s[p + 2] == target[2]);
    } else {
      assert s[p - 1] == target[p - 1 - (a + 7)];
    }
  }

  /** No line of an NS record matches: what stands before IN is the name, and the name ends in a dot. */
  lemma NsLineHasNoIn(name: string, target: string, tail: string, q: nat, p: nat)
    requires Records.IsPlainName(name) && Records.IsPlainName(target) && 'N' !in tail
    ensures !HasIn(name + " IN NS " + target + tail, q, p)
  {
    var s, a := name + " IN NS " + target + tail, |name|;
    PlainNameIsValue(name);
    PlainNameIsValue(target);
    assert s[a - 1] == name[a - 1] && s[a] == ' ';
    if q < p && p + 2 < |s| {
      NsInPosition(s, name, target, tail, p);
    }
  }

  lemma HasInLater(s: string, k: nat, q: nat, p: nat)
    requires k <= |s| && HasIn(s[k..], q, p)
    ensures HasIn(s, k + q, k + p)
  {
    var t := s[k..];
    assert forall x :: 0 <= x < |t| ==> t[x] == s[k + x];
    forall x | k + q < x < k + p ensures IsBlank(s[x]) {
      assert IsBlank(t[x - k]);
    }
  }

  lemma NsUnread(name: string, target: string, tail: string)
    requires Records.IsPlainName(name) && Records.IsPlainName(target) && 'N' !in tail
    ensures Parse(name + " IN NS " + target + tail) == None
  {
    hide Match, Search, KindPattern, HasIn;
    var s := name + " IN NS " + target + tail;
    if Search(KindPattern(), s).Some? {
      var k := SearchFound(KindPattern(), s);
      var q, p := MatchNeedsIn(s[k..]);
      HasInLater(s, k, q, p);
      NsLineHasNoIn(name, target, tail, k + q, k + p);
    }
  }

  lemma MxUnread(name: string, ttl: nat, data: string)
    requires IsWord(name)
    ensures Parse(Line(name, Decimal(ttl), "MX", data)) == None
  {
    hide Match, Search, KindPattern;
    DecimalIsDigits(ttl);
    SearchKind(name, Decimal(ttl), "MX", data);
  }

  // ------------------------------------------------------------- server listings

  /** What stands behind the record on a line of the server. */
  function TailOf(d: DynamicRecord): string {
    if DynamicText.Annotations(d) == [] then "" else " " + [';'] + DynamicText.Notes(d)
  }

  lemma BodyTail(d: DynamicRecord)
    ensures DynamicText.Body(d) == Records.Text(d.record) + TailOf(d)
    ensures IsTail(TailOf(d)) && 'N' !in TailOf(d)
  {
    hide Records.Text, DynamicText.Annotations, Join;
    if DynamicText.Annotations(d) != [] {
      DynamicText.BodyShape(d);
      NotesHaveNoN(d);
    } else {
      assert Records.Text(d.record) + "" == Records.Text(d.record);
    }
  }

  lemma NotesHaveNoN(d: DynamicRecord)
    ensures 'N' !in DynamicText.Notes(d)
  {
    hide Join;
    forall x | x in DynamicText.Annotations(d) ensures 'N' !in x {
      assert x == "Volatile" || (d.id.Some? && x == "ID:" + Itoa(d.id.value));
    }
    JoinContains(DynamicText.Annotations(d), " ", 'N');
  }

  /** An annotated line of the server is read as the client's record of the same fields; lines of NS and MX
      records are exceptions. */
  lemma ParseBody(d: DynamicRecord)
    requires Records.WellFormed(d.record)
    ensures Parse(DynamicText.Body(d)) == FromServer(d.record)
  {
    hide Parse, ToText, Decimal, Records.Fqdn, DynamicText.Body, TailOf, Capturable;
    BodyTail(d);
    var tail := TailOf(d);
    PlainNameIsValue(d.record.name);
    match d.record {
      case Ns(name, target) =>
        PlainNameIsValue(target);
        assert Records.Text(d.record) + tail == name + " IN NS " + target + tail;
        NsUnread(name, target, tail);
      case Mx(name, ttl, preference, target) =>
        var data := Records.DataText(d.record) + tail;
        assert Records.Text(d.record) + tail == Line(name, Decimal(ttl), "MX", data);
        MxUnread(name, ttl, data);
      case _ =>
        SameText(d.record);
        ParseText(FromServer(d.record).value, tail);
    }
  }

  function Enabled(): DynamicRecord -> bool {
    (d: DynamicRecord) => !d.disabled
  }

  function Bodies(ds: seq<DynamicRecord>): (lines: seq<string>)
    ensures |lines| == |ds| && forall i :: 0 <= i < |ds| ==> lines[i] == DynamicText.Body(ds[i])
  {
    seq(|ds|, i requires 0 <= i < |ds| => DynamicText.Body(ds[i]))
  }

  /** A well-formed record whose name does not start with a byte order mark, which only the client trims. */
  predicate IsListable(d: DynamicRecord) {
    Records.WellFormed(d.record) && d.record.name[0] != '\U{FEFF}'
  }

  lemma KeptChars()
    ensures !IsJsSpace('"') && !IsJsSpace('.')
  {
  }

  lemma AddressCharKept(c: char)
    requires Addresses.IsAddressChar(c)
    ensures !IsJsSpace(c)
  {
  }

  lemma LastDataChar(r: Records.Record)
    requires Records.WellFormed(r)
    ensures var t := Records.DataText(r); t != [] && !IsJsSpace(t[|t| - 1])
  {
    KeptChars();
    hide IsJsSpace, IsSpace, Records.Fqdn, Decimal, Addresses.Text, Addresses.IsAddressChar;
    match r {
      case Address(_, _, ip) =>
        Addresses.TextChars(ip);
        var t := Addresses.Text(ip);
        assert t[|t| - 1] in t;
        AddressCharKept(t[|t| - 1]);
      case Ns(_, target) => Records.PlainNameFqdn(target);
      case Cname(_, _, target) => Records.PlainNameFqdn(target);
      case Ptr(_, _, domain) => Records.PlainNameFqdn(domain);
      case Mx(_, _, preference, target) =>
        Records.PlainNameFqdn(target);
        Records.LastOf(Decimal(preference) + " ", target);
      case Txt(_, _, text) => Records.LastOf("\"" + text, "\"");
      case Srv(_, _, priority, weight, port, target) =>
        Records.PlainNameFqdn(target);
        Records.LastOf(Decimal(priority) + " " + Decimal(weight) + " " + Decimal(port) + " ", target);
    }
  }

  lemma TextEnds(r: Records.Record)
    requires Records.WellFormed(r)
    ensures var t := Records.Text(r); t != [] && t[0] == r.name[0] && t[0] != ';' && !IsJsSpace(t[|t| - 1])
    ensures !IsSpace(Records.Text(r)[0])
  {
    hide Records.WellFormed, Records.DataText, Records.Fqdn;
    LastDataChar(r);
    Records.TextTrimmed(r);
    var data := Records.DataText(r);
    if r.Ns? {
      Records.LastOf(Records.Fqdn(r.name) + " IN NS ", data);
    } else {
      var head := Records.Fqdn(r.name) + " " + Decimal(r.ttl) + " IN " + Records.QtypeToString(r.GetQtype()) + " ";
      Records.LastOf(head, data);
      assert Records.Text(r) == head + data;
    }
  }

  /** Annotations end in a digit or in the last letter of Volatile. */
  lemma NotesEnd(d: DynamicRecord)
    requires DynamicText.Annotations(d) != []
    ensures var t := DynamicText.Notes(d); t != [] && !IsJsSpace(t[|t| - 1])
  {
    hide Itoa;
    var xs := DynamicText.Annotations(d);
    var last := xs[|xs| - 1];
    assert last != [] && !IsJsSpace(last[|last| - 1]) by {
      if d.volatile {
        assert last == "Volatile";
      } else {
        DynamicText.ItoaVisible(d.id.value);
        ItoaEnd(d.id.value);
        Records.LastOf("ID:", Itoa(d.id.value));
      }
    }
    DynamicText.AnnotationsVisible(d);
    JoinEnds(xs, " ");
    Records.LastOf(" ", Join(xs, " "));
  }

  lemma ItoaEnd(n: int)
    ensures IsDigit(Itoa(n)[|Itoa(n)| - 1])
  {
  }

  /** What is left of a line of the server after trimming and filtering. */
  lemma LineKept(d: DynamicRecord)
    requires IsListable(d)
    ensures Trim(DynamicText.LineText(d)) == DynamicText.LineText(d)
    ensures IsRecordLine()(DynamicText.LineText(d)) <==> !d.disabled
  {
    hide Records.Text, Records.WellFormed, DynamicText.Body, Trim;
    BodyEnds(d);
    Records.LastOf(";", DynamicText.Body(d));
    TrimKeeps(DynamicText.LineText(d));
  }

  lemma BodyEnds(d: DynamicRecord)
    requires IsListable(d)
    ensures HasVisibleEnds(DynamicText.Body(d)) && DynamicText.Body(d)[0] != ';'
  {
    hide Records.Text, Records.WellFormed, DynamicText.Notes, Trim;
    TextEnds(d.record);
    BodyTail(d);
    if DynamicText.Annotations(d) != [] {
      NotesEnd(d);
      Records.LastOf(Records.Text(d.record) + " " + [';'], DynamicText.Notes(d));
      DynamicText.BodyShape(d);
    }
  }

  lemma {:induction false} KeptLines(ds: seq<DynamicRecord>)
    requires forall i :: 0 <= i < |ds| ==> IsListable(ds[i])
    ensures Filter(TrimAll(DynamicText.LineTexts(ds)), IsRecordLine()) == Bodies(Filter(ds, Enabled()))
  {
    hide Trim, DynamicText.Body, IsListable;
    if ds != [] {
      var n := |ds| - 1;
      KeptLines(ds[..n]);
      LineKept(ds[n]);
      var lines := TrimAll(DynamicText.LineTexts(ds));
      assert lines[..n] == TrimAll(DynamicText.LineTexts(ds[..n]));
      assert lines[n] == DynamicText.LineText(ds[n]);
      var front := Filter(ds[..n], Enabled());
      assert Bodies(front + [ds[n]]) == Bodies(front) + [DynamicText.Body(ds[n])];
    }
  }

  /** The client's records are the server's, one for one. */
  predicate Shows(rs: seq<JsRecord>, ds: seq<DynamicRecord>) {
    |rs| == |ds| && forall i :: 0 <= i < |ds| ==> FromServer(ds[i].record) == Some(rs[i])
  }

  lemma {:induction false} ParseBodies(ds: seq<DynamicRecord>)
    requires forall i :: 0 <= i < |ds| ==> Records.WellFormed(ds[i].record)
    ensures ParseAll(Bodies(ds)).Some? <==> forall i :: 0 <= i < |ds| ==> FromServer(ds[i].record).Some?
    ensures ParseAll(Bodies(ds)).Some? ==> Shows(ParseAll(Bodies(ds)).value, ds)
  {
    hide Parse, DynamicText.Body, FromServer, Records.WellFormed;
    if ds != [] {
      var n := |ds| - 1;
      ParseBodies(ds[..n]);
      ParseBody(ds[n]);
      assert Bodies(ds)[..n] == Bodies(ds[..n]);
      assert forall i :: 0 <= i < n ==> ds[..n][i] == ds[i];
    }
  }

  lemma TrailingNewline(ds: seq<DynamicRecord>)
    ensures Filter(TrimAll(DynamicText.LineTexts(ds) + [""]), IsRecordLine())
         == Filter(TrimAll(DynamicText.LineTexts(ds)), IsRecordLine())
  {
    var lines := TrimAll(DynamicText.LineTexts(ds) + [""]);
    assert lines[..|ds|] == TrimAll(DynamicText.LineTexts(ds));
    assert lines[|ds|] == "";
  }

  lemma NoNewlines(ds: seq<DynamicRecord>)
    requires forall i :: 0 <= i < |ds| ==> Records.WellFormed(ds[i].record)
    ensures forall i :: 0 <= i < |ds| ==> '\n' !in Records.Text(ds[i].record)
  {
    hide Records.WellFormed, Records.Text;
    forall i | 0 <= i < |ds| ensures '\n' !in Records.Text(ds[i].record) {
      Semicolons.TextIsClean(ds[i].record);
    }
  }

  /** The client reads a listing of the server exactly when the listing shows no enabled NS or MX record; then it
      gets the enabled records in their order with the fields the server printed. */
  lemma ListingIsRead(ds: seq<DynamicRecord>)
    requires forall i :: 0 <= i < |ds| ==> IsListable(ds[i])
    ensures var read := ParseRecords(Join(DynamicText.LineTexts(ds) + [""], "\n"));
            var shown := Filter(ds, Enabled());
            (read.Some? <==> forall i :: 0 <= i < |ds| ==> ds[i].disabled || !(ds[i].record.Ns? || ds[i].record.Mx?)) &&
            (read.Some? ==> Shows(read.value, shown))
  {
    hide ParseAll, Records.WellFormed, Records.Text, DynamicText.LineText, DynamicText.Body, Trim, Filter, Shows;
    var shown := Filter(ds, Enabled());
    NoNewlines(ds);
    DynamicText.SplitPrinted(ds);
    TrailingNewline(ds);
    KeptLines(ds);
    ShownLines(ds);
    ParseBodies(shown);
  }

  lemma ShownLines(ds: seq<DynamicRecord>)
    requires forall i :: 0 <= i < |ds| ==> IsListable(ds[i])
    ensures var shown := Filter(ds, Enabled());
            (forall i :: 0 <= i < |shown| ==> Records.WellFormed(shown[i].record)) &&
            ((forall i :: 0 <= i < |shown| ==> FromServer(shown[i].record).Some?) <==>
             (forall i :: 0 <= i < |ds| ==> ds[i].disabled || !(ds[i].record.Ns? || ds[i].record.Mx?)))
  {
    hide Records.WellFormed;
    var shown := Filter(ds, Enabled());
    forall i | 0 <= i < |shown| ensures shown[i] in ds && !shown[i].disabled {
      assert shown[i] in shown;
    }
    forall i | 0 <= i < |ds| && !ds[i].disabled ensures ds[i] in shown {
      assert ds[i] in ds && Enabled()(ds[i]);
    }
  }
}
