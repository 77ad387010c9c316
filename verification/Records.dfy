/** DNS records: fields, text forms, the parser of those text forms, and TTLs that age (records.go). */
module Records {
  import opened Strings
  import Addresses

  type Domain = string
  type U16 = n: nat | n < 0x1_0000
  type U32 = n: nat | n < 0x1_0000_0000

  // Query type numbers (section 3.2.2 of RFC 1035, RFC 3596, RFC 2782).
  const TYPE_A: U16 := 1
  const TYPE_NS: U16 := 2
  const TYPE_CNAME: U16 := 5
  const TYPE_PTR: U16 := 12
  const TYPE_MX: U16 := 15
  const TYPE_TXT: U16 := 16
  const TYPE_AAAA: U16 := 28
  const TYPE_SRV: U16 := 33

  /** The eight types a Record can have. */
  const RECORD_TYPES: set<U16> :=
    {TYPE_A, TYPE_NS, TYPE_CNAME, TYPE_PTR, TYPE_MX, TYPE_TXT, TYPE_AAAA, TYPE_SRV}

  function QtypeToString(qtype: U16): string {
    if qtype == TYPE_A then "A"
    else if qtype == TYPE_NS then "NS"
    else if qtype == TYPE_CNAME then "CNAME"
    else if qtype == TYPE_PTR then "PTR"
    else if qtype == TYPE_MX then "MX"
    else if qtype == TYPE_TXT then "TXT"
    else if qtype == TYPE_AAAA then "AAAA"
    else if qtype == TYPE_SRV then "SRV"
    else "UNKNOWN"
  }

  datatype Record =
    | Address(name: Domain, ttl: U32, ip: Addresses.IP)
    | Ns(name: Domain, target: Domain)
    | Cname(name: Domain, ttl: U32, target: Domain)
    | Ptr(name: Domain, ttl: U32, domain: Domain)
    | Mx(name: Domain, ttl: U32, preference: U16, target: Domain)
    | Txt(name: Domain, ttl: U32, text: string)
    | Srv(name: Domain, ttl: U32, priority: U16, weight: U16, port: U16, target: Domain)
  {
    /** NS records carry no TTL and report 0. */
    function GetTTL(): U32 {
      if Ns? then 0 else ttl
    }

    function GetQtype(): (q: U16)
      ensures q in RECORD_TYPES
      ensures q == TYPE_A || q == TYPE_AAAA <==> Address?
    {
      match this
      case Address(_, _, ip) => if ip.V4? then TYPE_A else TYPE_AAAA
      case Ns(_, _) => TYPE_NS
      case Cname(_, _, _) => TYPE_CNAME
      case Ptr(_, _, _) => TYPE_PTR
      case Mx(_, _, _, _) => TYPE_MX
      case Txt(_, _, _) => TYPE_TXT
      case Srv(_, _, _, _, _, _) => TYPE_SRV
    }

    /** The same record with another TTL; an NS record has none to change. */
    function WithTTL(t: U32): (r: Record)
      ensures r.name == name && r.GetQtype() == GetQtype()
      ensures r.GetTTL() == if Ns? then 0 else t
    {
      if Ns? then this else this.(ttl := t)
    }

    function Masked(): Record {
      WithTTL(0)
    }
  }

  // ------------------------------------------------------------------- names

  /** How many backslashes end a text. */
  function TrailingBackslashes(s: string): nat {
    if s != [] && s[|s| - 1] == '\\' then 1 + TrailingBackslashes(s[..|s| - 1]) else 0
  }

  /** dns.IsFqdn: the text ends in a dot that is not escaped. */
  predicate IsFqdn(s: string) {
    s != [] && s[|s| - 1] == '.' && TrailingBackslashes(s[..|s| - 1]) % 2 == 0
  }

  /** A dot behind a backslash is part of a label, and one behind two is not. */
  lemma EscapedDots()
    ensures IsFqdn("a.") && !IsFqdn("a\\.") && IsFqdn("a\\\\.") && !IsFqdn("a\\\\\\.") && !IsFqdn("a") && !IsFqdn("")
  {
    assert "a\\."[..2] == "a\\" && "a\\"[..1] == "a";
    assert "a\\\\."[..3] == "a\\\\" && "a\\\\"[..2] == "a\\";
    assert "a\\\\\\."[..4] == "a\\\\\\" && "a\\\\\\"[..3] == "a\\\\";
    assert "a."[..1] == "a";
  }

  /** Domain.String. */
  function Fqdn(d: Domain): Domain {
    if IsFqdn(d) then d else d + "."
  }

  /** A character that can stand in a name or another unquoted field as itself. */
  predicate IsTokenChar(c: char) {
    !IsSpace(c) && c != ';' && c != '"' && c != '\\' && c != '(' && c != ')'
  }

  predicate IsToken(s: string) {
    s != [] && forall i :: 0 <= i < |s| ==> IsTokenChar(s[i])
  }

  /** A fully qualified name written without escapes. */
  predicate IsPlainName(d: Domain) {
    IsToken(d) && d[|d| - 1] == '.'
  }

  lemma PlainNameFqdn(d: Domain)
    requires IsPlainName(d)
    ensures Fqdn(d) == d
  {
    assert d[..|d| - 1] != [] ==> IsTokenChar(d[|d| - 2]);
  }

  /** The name a token stands for in a record: "@" is the root, and a name without its final dot gets it. */
  function Absolute(s: string): (d: Domain)
    ensures IsToken(s) ==> IsPlainName(d)
  {
    if s == "@" then "." else Fqdn(s)
  }

  lemma PlainNameAbsolute(d: Domain)
    requires IsPlainName(d)
    ensures Absolute(d) == d && IsToken(d)
  {
    PlainNameFqdn(d);
  }

  /** The labels of a text, cut at each dot that no backslash escapes. */
  function SplitLabels(s: string, escaped: bool): (labels: seq<string>)
    ensures |labels| >= 1
  {
    if s == [] then [""]
    else if s[0] == '.' && !escaped then [""] + SplitLabels(s[1..], false)
    else
      var rest := SplitLabels(s[1..], s[0] == '\\' && !escaped);
      [[s[0]] + rest[0]] + rest[1..]
  }

  /** dns.SplitDomainName of the fully qualified name; the root has no labels. */
  function Labels(d: Domain): seq<string> {
    var name := Fqdn(d);
    if name == "." then [] else SplitLabels(name[..|name| - 1], false)
  }

  /** What Domain.ToPath returns, as a function of the name. */
  function PathOf(d: Domain): string {
    "/" + Join(Reversed(Labels(d)), "/")
  }

  /** Domain.ToPath: an array of labels filled from its end, then joined. */
  method ToPath(d: Domain) returns (path: string)
    ensures path == PathOf(d)
  {
    var labels := Labels(d);
    var rev := new string[|labels|](_ => "");
    for i := 0 to |labels|
      invariant forall k :: 0 <= k < i ==> rev[|labels| - 1 - k] == labels[k]
    {
      rev[|labels| - i - 1] := labels[i];
    }
    assert rev[..] == Reversed(labels) by {
      forall j | 0 <= j < |labels| ensures rev[j] == labels[|labels| - 1 - j] {
        assert rev[|labels| - 1 - (|labels| - 1 - j)] == labels[|labels| - 1 - j];
      }
    }
    path := "/" + Join(rev[..], "/");
  }

  // --------------------------------------------------------------- text forms

  /** The fields every record but NS is printed with. */
  function Line(name: Domain, ttl: U32, kind: string, data: string): string {
    Fqdn(name) + " " + Decimal(ttl) + " IN " + kind + " " + data
  }

  /** The data fields of a record as they are printed. */
  function DataText(r: Record): string {
    match r
    case Address(_, _, ip) => Addresses.Text(ip)
    case Ns(_, target) => Fqdn(target)
    case Cname(_, _, target) => Fqdn(target)
    case Ptr(_, _, domain) => Fqdn(domain)
    case Mx(_, _, preference, target) => Decimal(preference) + " " + Fqdn(target)
    case Txt(_, _, text) => "\"" + text + "\""
    case Srv(_, _, priority, weight, port, target) => SrvData(priority, weight, port, Fqdn(target))
  }

  /** The fields of an NS record: it is printed without a TTL. */
  function NsLine(name: Domain, target: string): string {
    Fqdn(name) + " IN NS " + target
  }

  /** Record.String. */
  function Text(r: Record): string {
    if r.Ns? then NsLine(r.name, DataText(r))
    else Line(r.name, r.ttl, QtypeToString(r.GetQtype()), DataText(r))
  }

  function SrvData(priority: U16, weight: U16, port: U16, target: string): string {
    Decimal(priority) + " " + Decimal(weight) + " " + Decimal(port) + " " + target
  }

  /** How records are printed, field by field. */
  lemma TextFields(r: Record)
    requires WellFormed(r)
    ensures match r
            case Address(name, ttl, ip) =>
              Text(r) == name + " " + Decimal(ttl) + (if ip.V4? then " IN A " else " IN AAAA ") + Addresses.Text(ip)
            case Ns(name, target) => Text(r) == name + " IN NS " + target
            case Cname(name, ttl, target) => Text(r) == name + " " + Decimal(ttl) + " IN CNAME " + target
            case Ptr(name, ttl, domain) => Text(r) == name + " " + Decimal(ttl) + " IN PTR " + domain
            case Mx(name, ttl, preference, target) =>
              Text(r) == name + " " + Decimal(ttl) + " IN MX " + Decimal(preference) + " " + target
            case Txt(name, ttl, text) => Text(r) == name + " " + Decimal(ttl) + " IN TXT \"" + text + "\""
            case Srv(name, ttl, priority, weight, port, target) =>
              Text(r) == name + " " + Decimal(ttl) + " IN SRV " +
                         Decimal(priority) + " " + Decimal(weight) + " " + Decimal(port) + " " + target
  {
    hide WellFormed, Text, Decimal, Addresses.Text;
    match r {
      case Ns(_, _) => NsFields(r);
      case Mx(_, _, _, _) => MxFields(r);
      case Txt(_, _, _) => TxtFields(r);
      case Srv(_, _, _, _, _, _) => SrvFields(r);
      case _ => OtherFields(r);
    }
  }

  lemma NsFields(r: Record)
    requires WellFormed(r) && r.Ns?
    ensures Text(r) == r.name + " IN NS " + r.target
  {
    hide Fqdn, IsPlainName;
    PlainNameFqdn(r.name);
    PlainNameFqdn(r.target);
  }

  lemma OtherFields(r: Record)
    requires WellFormed(r)
    ensures r.Address? ==>
      Text(r) == r.name + " " + Decimal(r.ttl) + (if r.ip.V4? then " IN A " else " IN AAAA ") + Addresses.Text(r.ip)
    ensures r.Cname? ==> Text(r) == r.name + " " + Decimal(r.ttl) + " IN CNAME " + r.target
    ensures r.Ptr? ==> Text(r) == r.name + " " + Decimal(r.ttl) + " IN PTR " + r.domain
  {
    hide Fqdn, IsPlainName, Decimal, Addresses.Text, Line;
    if r.Address? {
      LineFields(r.name, r.ttl, if r.ip.V4? then "A" else "AAAA", Addresses.Text(r.ip));
    } else if r.Cname? {
      PlainNameFqdn(r.target);
      LineFields(r.name, r.ttl, "CNAME", r.target);
    } else if r.Ptr? {
      PlainNameFqdn(r.domain);
      LineFields(r.name, r.ttl, "PTR", r.domain);
    }
  }

  lemma MxFields(r: Record)
    requires WellFormed(r) && r.Mx?
    ensures Text(r) == r.name + " " + Decimal(r.ttl) + " IN MX " + Decimal(r.preference) + " " + r.target
  {
    hide Fqdn, IsPlainName, Decimal, Line;
    PlainNameFqdn(r.target);
    LineFields(r.name, r.ttl, "MX", Decimal(r.preference) + " " + r.target);
    DataParts(r.name + " " + Decimal(r.ttl) + " IN MX ", Decimal(r.preference), r.target);
  }

  lemma TxtFields(r: Record)
    requires WellFormed(r) && r.Txt?
    ensures Text(r) == r.name + " " + Decimal(r.ttl) + " IN TXT \"" + r.text + "\""
  {
    hide Fqdn, IsPlainName, Decimal, Line;
    LineFields(r.name, r.ttl, "TXT", "\"" + r.text + "\"");
    QuotedParts(r.name + " " + Decimal(r.ttl), r.text);
  }

  lemma SrvFields(r: Record)
    requires WellFormed(r) && r.Srv?
    ensures Text(r) == r.name + " " + Decimal(r.ttl) + " IN SRV " +
                       Decimal(r.priority) + " " + Decimal(r.weight) + " " + Decimal(r.port) + " " + r.target
  {
    hide Fqdn, IsPlainName, Decimal, Line;
    PlainNameFqdn(r.target);
    LineFields(r.name, r.ttl, "SRV", SrvData(r.priority, r.weight, r.port, r.target));
    FourParts(r.name + " " + Decimal(r.ttl) + " IN SRV ", Decimal(r.priority), Decimal(r.weight), Decimal(r.port),
              r.target);
  }

  lemma FourParts(head: string, a: string, b: string, c: string, d: string)
    ensures head + (a + " " + b + " " + c + " " + d) == head + a + " " + b + " " + c + " " + d
  {
  }

  lemma LineFields(name: Domain, ttl: U32, kind: string, data: string)
    requires IsPlainName(name)
    ensures Line(name, ttl, kind, data) == name + " " + Decimal(ttl) + (" IN " + kind + " ") + data
  {
    PlainNameFqdn(name);
  }

  lemma DataParts(head: string, a: string, b: string)
    ensures head + (a + " " + b) == head + a + " " + b
  {
  }

  lemma QuotedParts(head: string, text: string)
    ensures head + " IN TXT " + ("\"" + text + "\"") == head + " IN TXT \"" + text + "\""
  {
  }

  /** The numbers of the record types, and their names (section 3.2.2 of RFC 1035, RFC 3596, RFC 2782). */
  lemma TypeNumbers(r: Record)
    ensures match r
            case Address(_, _, ip) => r.GetQtype() == if ip.V4? then 1 else 28
            case Ns(_, _) => r.GetQtype() == 2
            case Cname(_, _, _) => r.GetQtype() == 5
            case Ptr(_, _, _) => r.GetQtype() == 12
            case Mx(_, _, _, _) => r.GetQtype() == 15
            case Txt(_, _, _) => r.GetQtype() == 16
            case Srv(_, _, _, _, _, _) => r.GetQtype() == 33
    ensures QtypeToString(1) == "A" && QtypeToString(2) == "NS" && QtypeToString(5) == "CNAME"
    ensures QtypeToString(12) == "PTR" && QtypeToString(15) == "MX" && QtypeToString(16) == "TXT"
    ensures QtypeToString(28) == "AAAA" && QtypeToString(33) == "SRV"
  {
  }

  /** Record.WithoutTTL: the same text with the TTL written as 0. */
  function WithoutTTL(r: Record): string {
    Text(r.Masked())
  }

  predicate IsTextChar(c: char) {
    c != '"' && c != '\\' && c != '\n'
  }

  /** A record dns.NewRR can return and whose text needs no escapes: plain names, an address in its
      shortest kind, and one TXT string of at most 255 characters. */
  predicate WellFormed(r: Record) {
    IsPlainName(r.name) &&
    match r
    case Address(_, _, ip) => Addresses.WellFormed(ip)
    case Ns(_, target) => IsPlainName(target)
    case Cname(_, _, target) => IsPlainName(target)
    case Ptr(_, _, domain) => IsPlainName(domain)
    case Mx(_, _, _, target) => IsPlainName(target)
    case Txt(_, _, text) => |text| <= 255 && forall i :: 0 <= i < |text| ==> IsTextChar(text[i])
    case Srv(_, _, _, _, _, target) => IsPlainName(target)
  }

  function ParseNumber(s: string, limit: nat): (n: Option<nat>)
    ensures n.Some? ==> n.value < limit
  {
    if s == [] || !AllDigits(s) || DigitsValue(s) >= limit then None else Some(DigitsValue(s))
  }

  function ParseQuoted(s: string): Option<string> {
    if |s| < 2 || s[0] != '"' || s[|s| - 1] != '"' then None
    else
      var text := s[1..|s| - 1];
      if |text| <= 255 && forall i :: 0 <= i < |text| ==> IsTextChar(text[i]) then Some(text) else None
  }

  function ParseMx(name: Domain, ttl: U32, data: string): Option<Record> {
    var (preference, target) := Cut(data, ' ');
    var p := ParseNumber(preference, 0x1_0000);
    if p.Some? && target.Some? && IsToken(target.value) then Some(Mx(name, ttl, p.value, Absolute(target.value)))
    else None
  }

  function ParseSrv(name: Domain, ttl: U32, data: string): Option<Record> {
    var (priority, rest) := Cut(data, ' ');
    if rest.None? then None
    else
      var (weight, rest2) := Cut(rest.value, ' ');
      if rest2.None? then None
      else
        var (port, target) := Cut(rest2.value, ' ');
        var a, b, c := ParseNumber(priority, 0x1_0000), ParseNumber(weight, 0x1_0000), ParseNumber(port, 0x1_0000);
        if a.Some? && b.Some? && c.Some? && target.Some? && IsToken(target.value)
        then Some(Srv(name, ttl, a.value, b.value, c.value, Absolute(target.value)))
        else None
  }

  /** The inverse of QtypeToString on the eight record types. */
  function ParseKind(kind: string): Option<U16> {
    if kind == "A" then Some(TYPE_A)
    else if kind == "NS" then Some(TYPE_NS)
    else if kind == "CNAME" then Some(TYPE_CNAME)
    else if kind == "PTR" then Some(TYPE_PTR)
    else if kind == "MX" then Some(TYPE_MX)
    else if kind == "TXT" then Some(TYPE_TXT)
    else if kind == "AAAA" then Some(TYPE_AAAA)
    else if kind == "SRV" then Some(TYPE_SRV)
    else None
  }

  lemma ParseKindOfType(qtype: U16)
    requires qtype in RECORD_TYPES
    ensures ParseKind(QtypeToString(qtype)) == Some(qtype)
    ensures ' ' !in QtypeToString(qtype)
  {
  }

  function ParseAddress(name: Domain, ttl: U32, ip: Option<Addresses.IP>): Option<Record> {
    if ip.Some? then Some(Address(name, ttl, ip.value)) else None
  }

  function ParseTxt(name: Domain, ttl: U32, data: string): Option<Record> {
    var text := ParseQuoted(data);
    if text.Some? then Some(Txt(name, ttl, text.value)) else None
  }

  function ParseData(name: Domain, ttl: U32, qtype: U16, data: string): Option<Record> {
    if qtype == TYPE_A then ParseAddress(name, ttl, Addresses.ParseV4(data))
    else if qtype == TYPE_AAAA then ParseAddress(name, ttl, Addresses.ParseV6(data))
    else if qtype == TYPE_MX then ParseMx(name, ttl, data)
    else if qtype == TYPE_TXT then ParseTxt(name, ttl, data)
    else if qtype == TYPE_SRV then ParseSrv(name, ttl, data)
    else if !IsToken(data) then None
    else if qtype == TYPE_CNAME then Some(Cname(name, ttl, Absolute(data)))
    else if qtype == TYPE_PTR then Some(Ptr(name, ttl, Absolute(data)))
    else if qtype == TYPE_NS then Some(Ns(name, Absolute(data)))
    else None
  }

  /** What follows the class: the type and the data. */
  function ParseTyped(name: Domain, ttl: U32, s: string): Option<Record> {
    var (kind, data) := Cut(s, ' ');
    var qtype := ParseKind(kind);
    if data.None? || qtype.None? then None else ParseData(name, ttl, qtype.value, data.value)
  }

  /** What follows the TTL: the class, and the rest. */
  function AfterClass(name: Domain, ttl: U32, s: string): Option<(Domain, U32, string)> {
    var (class_, rest) := Cut(s, ' ');
    if class_ != "IN" || rest.None? then None else Some((name, ttl, rest.value))
  }

  /** The TTL of a record that names none. */
  const DEFAULT_TTL: U32 := 3600

  /** The words that stand for a directive where a line would have its owner. */
  predicate IsDirective(word: string) {
    Upper(word) == "$TTL" || Upper(word) == "$ORIGIN" || Upper(word) == "$INCLUDE" || Upper(word) == "$GENERATE"
  }

  /** The owner and the TTL of a line, and what follows the class. */
  function Header(s: string): Option<(Domain, U32, string)> {
    var (owner, rest) := Cut(s, ' ');
    if rest.None? || !IsToken(owner) || IsDirective(owner) then None
    else
      var (second, rest2) := Cut(rest.value, ' ');
      if rest2.None? then None
      else if second == "IN" then Some((Absolute(owner), DEFAULT_TTL, rest2.value))
      else
        var ttl := ParseNumber(second, 0x1_0000_0000);
        if ttl.None? then None else AfterClass(Absolute(owner), ttl.value, rest2.value)
  }

  function ParseLine(s: string): Option<Record> {
    match Header(s)
    case None => None
    case Some((name, ttl, rest)) => ParseTyped(name, ttl, rest)
  }

  /** What the lexer drops at the end of a line. */
  predicate IsBlank(c: char) {
    c == ' ' || c == '\t'
  }

  predicate AllBlank(s: string) {
    forall i :: 0 <= i < |s| ==> IsBlank(s[i])
  }

  function TrimBlanks(s: string): (t: string)
    ensures t == [] || !IsBlank(t[|t| - 1])
    ensures |t| <= |s| && s[..|t|] == t && AllBlank(s[|t|..])
  {
    if s != [] && IsBlank(s[|s| - 1]) then
      var t := TrimBlanks(s[..|s| - 1]);
      assert s[|t|..] == s[..|s| - 1][|t|..] + [s[|s| - 1]];
      t
    else s
  }

  /** Directives that set what later lines inherit. */
  predicate SetsDefault(t: string) {
    var (word, rest) := Cut(t, ' ');
    rest.Some? &&
    ((Upper(word) == "$TTL" && rest.value != [] && AllDigits(rest.value)) ||
     (Upper(word) == "$ORIGIN" && IsToken(rest.value) && '.' in rest.value))
  }

  /** A TXT record with nothing behind its type. */
  predicate LacksText(t: string) {
    Header(t).Some? && Header(t).value.2 == "TXT"
  }

  /** What reading a record or a value ends with; a panic is what no caller gets an error for. */
  datatype Outcome<+T> = Ok(value: T) | Expired | Malformed | Panicked

  /** NewRecord: dns.NewRR on the forms `Text` writes, with blanks behind them allowed, names without their final dot,
      and no TTL. Where NewRR returns no record and no error, and where a TXT record has no text, it panics. */
  function NewRecord(s: string): Outcome<Record> {
    var t := TrimBlanks(s);
    if t == [] || SetsDefault(t) || LacksText(t) then Panicked
    else
      match ParseLine(t)
      case None => Malformed
      case Some(r) => Ok(r)
  }

  /** NewRecordWithTTL. */
  function NewRecordWithTTL(s: string, ttl: U32): Outcome<Record> {
    match NewRecord(s)
    case Ok(r) => Ok(r.WithTTL(ttl))
    case failed => failed
  }

  // ------------------------------------------------------- parsing undoes printing

  lemma ParseNumberDecimal(n: nat, limit: nat)
    requires n < limit
    ensures ParseNumber(Decimal(n), limit) == Some(n)
    ensures ' ' !in Decimal(n)
  {
    DecimalValue(n);
  }

  lemma TokenHasNoSpace(s: string)
    requires IsToken(s)
    ensures ' ' !in s && ';' !in s && '\n' !in s
  {
    assert IsSpace(' ') && IsSpace('\n');
  }

  lemma TypedRoundTrip(name: Domain, ttl: U32, qtype: U16, data: string)
    requires qtype in RECORD_TYPES
    ensures ParseTyped(name, ttl, QtypeToString(qtype) + [' '] + data) == ParseData(name, ttl, qtype, data)
  {
    hide ParseData;
    ParseKindOfType(qtype);
    CutAt(QtypeToString(qtype), ' ', data);
  }

  /** How a line is read up to its second field. */
  lemma SecondField(owner: string, second: string, rest: string)
    requires IsToken(owner) && !IsDirective(owner) && ' ' !in second
    ensures var ttl := ParseNumber(second, 0x1_0000_0000);
            Header(owner + [' '] + (second + [' '] + rest)) ==
              if second == "IN" then Some((Absolute(owner), DEFAULT_TTL, rest))
              else if ttl.None? then None else AfterClass(Absolute(owner), ttl.value, rest)
  {
    TokenHasNoSpace(owner);
    hide Absolute, IsToken, IsDirective, AfterClass, ParseNumber, Cut;
    CutAt(owner, ' ', second + [' '] + rest);
    CutAt(second, ' ', rest);
  }

  lemma FiveFields(owner: string, ttl: string, kind: string, data: string)
    ensures owner + " " + ttl + " IN " + kind + " " + data
         == owner + [' '] + (ttl + [' '] + ("IN " + kind + " " + data))
    ensures owner + " IN " + kind + " " + data == owner + [' '] + ("IN" + [' '] + (kind + [' '] + data))
  {
  }

  /** Owner, TTL, class and type, then data that holds what `data` says; and the same without a TTL. */
  lemma OwnerLine(owner: string, ttl: U32, qtype: U16, data: string)
    requires IsToken(owner) && !IsDirective(owner) && qtype in RECORD_TYPES
    ensures ParseLine(owner + " " + Decimal(ttl) + " IN " + QtypeToString(qtype) + " " + data)
         == ParseData(Absolute(owner), ttl, qtype, data)
    ensures ParseLine(owner + " IN " + QtypeToString(qtype) + " " + data)
         == ParseData(Absolute(owner), DEFAULT_TTL, qtype, data)
  {
    hide Absolute, IsToken, IsDirective, Header, ParseData, ParseTyped, ParseNumber, QtypeToString;
    ParseNumberDecimal(ttl, 0x1_0000_0000);
    assert Decimal(ttl)[0] != 'I';
    SecondField(owner, Decimal(ttl), "IN " + QtypeToString(qtype) + " " + data);
    SecondField(owner, "IN", QtypeToString(qtype) + [' '] + data);
    FiveFields(owner, Decimal(ttl), QtypeToString(qtype), data);
    assert "IN " + QtypeToString(qtype) + " " + data == "IN" + [' '] + (QtypeToString(qtype) + [' '] + data);
    CutAt("IN", ' ', QtypeToString(qtype) + [' '] + data);
    TypedRoundTrip(Absolute(owner), ttl, qtype, data);
    TypedRoundTrip(Absolute(owner), DEFAULT_TTL, qtype, data);
  }

  lemma NameIsNoDirective(d: Domain)
    requires IsPlainName(d)
    ensures !IsDirective(d)
  {
    assert Upper(d)[|d| - 1] == '.';
  }

  lemma LineRoundTrip(name: Domain, ttl: U32, qtype: U16, data: string)
    requires IsPlainName(name) && qtype in RECORD_TYPES
    ensures ParseLine(Line(name, ttl, QtypeToString(qtype), data)) == ParseData(name, ttl, qtype, data)
  {
    hide IsToken, IsPlainName, IsDirective, ParseLine, ParseData;
    NameIsNoDirective(name);
    PlainNameFqdn(name);
    PlainNameAbsolute(name);
    OwnerLine(name, ttl, qtype, data);
  }

  lemma NsRoundTrip(name: Domain, target: Domain)
    requires IsPlainName(name) && IsPlainName(target)
    ensures ParseLine(name + " IN NS " + target) == Some(Ns(name, target))
  {
    hide Absolute, IsToken, IsPlainName, IsDirective, Cut, Header;
    NameIsNoDirective(name);
    PlainNameAbsolute(name);
    PlainNameAbsolute(target);
    assert name + " IN NS " + target == name + [' '] + ("IN" + [' '] + ("NS" + [' '] + target));
    SecondField(name, "IN", "NS" + [' '] + target);
    CutAt("NS", ' ', target);
  }

  lemma MxRoundTrip(name: Domain, ttl: U32, preference: U16, target: Domain)
    requires IsPlainName(target)
    ensures ParseMx(name, ttl, Decimal(preference) + " " + target) == Some(Mx(name, ttl, preference, target))
  {
    PlainNameAbsolute(target);
    ParseNumberDecimal(preference, 0x1_0000);
    CutAt(Decimal(preference), ' ', target);
  }

  lemma SrvRoundTrip(name: Domain, ttl: U32, priority: U16, weight: U16, port: U16, target: Domain)
    requires IsPlainName(target)
    ensures ParseSrv(name, ttl, SrvData(priority, weight, port, target))
         == Some(Srv(name, ttl, priority, weight, port, target))
  {
    var a, b, c := Decimal(priority), Decimal(weight), Decimal(port);
    PlainNameAbsolute(target);
    ParseNumberDecimal(priority, 0x1_0000);
    ParseNumberDecimal(weight, 0x1_0000);
    ParseNumberDecimal(port, 0x1_0000);
    var tail2 := c + [' '] + target;
    var tail1 := b + [' '] + tail2;
    assert SrvData(priority, weight, port, target) == a + [' '] + tail1;
    CutAt(a, ' ', tail1);
    CutAt(b, ' ', tail2);
    CutAt(c, ' ', target);
  }

  lemma AddressRoundTrip(r: Record)
    requires r.Address? && Addresses.WellFormed(r.ip)
    ensures ParseData(r.name, r.ttl, r.GetQtype(), Addresses.Text(r.ip)) == Some(r)
  {
    if r.ip.V4? {
      Addresses.V4RoundTrip(r.ip);
    } else {
      Addresses.V6RoundTrip(r.ip);
    }
  }

  lemma QuotedRoundTrip(text: string)
    requires |text| <= 255 && forall i :: 0 <= i < |text| ==> IsTextChar(text[i])
    ensures ParseQuoted("\"" + text + "\"") == Some(text)
  {
    var quoted := "\"" + text + "\"";
    assert quoted[1..|quoted| - 1] == text;
  }

  lemma DataRoundTrip(r: Record)
    requires WellFormed(r) && !r.Ns?
    ensures ParseData(r.name, r.ttl, r.GetQtype(), DataText(r)) == Some(r)
  {
    hide Fqdn, IsPlainName, Decimal, Addresses.Text, ParseMx, ParseSrv, ParseQuoted, SrvData, Addresses.ParseV4,
      Addresses.ParseV6;
    match r {
      case Address(_, _, _) => AddressRoundTrip(r);
      case Cname(_, _, target) =>
        PlainNameFqdn(target);
        PlainNameAbsolute(target);
      case Ptr(_, _, domain) =>
        PlainNameFqdn(domain);
        PlainNameAbsolute(domain);
      case Mx(name, ttl, preference, target) =>
        PlainNameFqdn(target);
        MxRoundTrip(name, ttl, preference, target);
      case Txt(_, _, text) => QuotedRoundTrip(text);
      case Srv(name, ttl, priority, weight, port, target) =>
        PlainNameFqdn(target);
        SrvRoundTrip(name, ttl, priority, weight, port, target);
    }
  }

  /** Names may lack their final dot and lines their TTL: the owner is made absolute, and the TTL is 3600. */
  lemma ParseOwner(owner: string, r: Record)
    requires WellFormed(r) && !r.Ns? && IsToken(owner) && !IsDirective(owner) && Absolute(owner) == r.name
    ensures var rest := QtypeToString(r.GetQtype()) + " " + DataText(r);
            ParseLine(owner + " " + Decimal(r.ttl) + " IN " + rest) == Some(r) &&
            ParseLine(owner + " IN " + rest) == Some(r.WithTTL(3600))
  {
    hide WellFormed, IsToken, IsDirective, ParseLine, ParseData, Absolute, DataText;
    var kind, data, late := QtypeToString(r.GetQtype()), DataText(r), r.WithTTL(DEFAULT_TTL);
    WithTTLWellFormed(r, DEFAULT_TTL);
    DataRoundTrip(r);
    DataRoundTrip(late);
    OwnerLine(owner, r.ttl, r.GetQtype(), data);
    var a, b := owner + " " + Decimal(r.ttl) + " IN ", owner + " IN ";
    assert a + kind + " " + data == a + (kind + " " + data) && b + kind + " " + data == b + (kind + " " + data);
  }

  lemma WithTTLWellFormed(r: Record, ttl: U32)
    requires WellFormed(r)
    ensures WellFormed(r.WithTTL(ttl)) && DataText(r.WithTTL(ttl)) == DataText(r)
  {
  }

  lemma ParseLineText(r: Record)
    requires WellFormed(r)
    ensures ParseLine(Text(r)) == Some(r)
  {
    if r.Ns? {
      PlainNameFqdn(r.name);
      PlainNameFqdn(r.target);
      NsRoundTrip(r.name, r.target);
    } else {
      LineRoundTrip(r.name, r.ttl, r.GetQtype(), DataText(r));
      DataRoundTrip(r);
    }
  }

  lemma DataEnds(r: Record)
    requires WellFormed(r)
    ensures DataText(r) != [] && !IsSpace(DataText(r)[|DataText(r)| - 1])
  {
    QuoteIsVisible();
    hide IsSpace, Fqdn, IsPlainName, Decimal, Addresses.Text;
    match r {
      case Address(_, _, ip) => AddressEnd(ip);
      case Ns(_, target) => NameEnd("", target);
      case Cname(_, _, target) => NameEnd("", target);
      case Ptr(_, _, domain) => NameEnd("", domain);
      case Mx(_, _, preference, target) => NameEnd(Decimal(preference) + " ", target);
      case Txt(_, _, text) => LastOf("\"" + text, "\"");
      case Srv(_, _, priority, weight, port, target) =>
        NameEnd(Decimal(priority) + " " + Decimal(weight) + " " + Decimal(port) + " ", target);
    }
  }

  lemma QuoteIsVisible()
    ensures !IsSpace('"')
  {
  }

  lemma NameEnd(before: string, name: Domain)
    requires IsPlainName(name)
    ensures var t := before + Fqdn(name); t != [] && !IsSpace(t[|t| - 1])
    ensures Fqdn(name) != [] && !IsSpace(Fqdn(name)[|Fqdn(name)| - 1])
  {
    PlainNameFqdn(name);
  }

  lemma LastOf(s: string, t: string)
    requires t != []
    ensures (s + t)[|s + t| - 1] == t[|t| - 1]
  {
  }

  lemma AddressEnd(ip: Addresses.IP)
    ensures var t := Addresses.Text(ip); t != [] && !IsSpace(t[|t| - 1])
  {
    hide Addresses.Text, IsSpace, Addresses.IsAddressChar;
    Addresses.TextChars(ip);
    var t := Addresses.Text(ip);
    assert t[|t| - 1] in t;
    AddressCharVisible(t[|t| - 1]);
  }

  lemma AddressCharVisible(c: char)
    requires Addresses.IsAddressChar(c)
    ensures !IsSpace(c)
  {
  }

  lemma LineEnds(name: Domain, ttl: U32, kind: string, data: string)
    requires IsPlainName(name) && data != []
    ensures Line(name, ttl, kind, data) != [] && Line(name, ttl, kind, data)[0] == name[0]
    ensures Line(name, ttl, kind, data)[|Line(name, ttl, kind, data)| - 1] == data[|data| - 1]
  {
    PlainNameFqdn(name);
  }

  lemma TextShape(r: Record) returns (kind: string)
    ensures Text(r) == if r.Ns? then NsLine(r.name, DataText(r)) else Line(r.name, r.ttl, kind, DataText(r))
  {
    kind := QtypeToString(r.GetQtype());
  }

  lemma NsLineEnds(name: Domain, data: string)
    requires IsPlainName(name) && data != []
    ensures NsLine(name, data) != [] && NsLine(name, data)[0] == name[0]
    ensures NsLine(name, data)[|NsLine(name, data)| - 1] == data[|data| - 1]
  {
    PlainNameFqdn(name);
  }

  lemma NameStarts(r: Record)
    requires WellFormed(r)
    ensures IsPlainName(r.name) && r.name != [] && IsTokenChar(r.name[0]) && !IsSpace(r.name[0])
  {
  }

  lemma TextEnds(r: Record)
    requires IsPlainName(r.name) && DataText(r) != []
    ensures Text(r) != [] && Text(r)[0] == r.name[0] && Text(r)[|Text(r)| - 1] == DataText(r)[|DataText(r)| - 1]
  {
    hide DataText, Text, IsPlainName, Line, NsLine;
    var kind := TextShape(r);
    if r.Ns? {
      NsLineEnds(r.name, DataText(r));
    } else {
      LineEnds(r.name, r.ttl, kind, DataText(r));
    }
  }

  /** A record's text starts and ends with visible characters. */
  lemma TextTrimmed(r: Record)
    requires WellFormed(r)
    ensures Trimmed(Text(r)) && Text(r)[0] == r.name[0] && IsTokenChar(Text(r)[0])
  {
    hide DataText, Text, WellFormed, IsPlainName, IsSpace, IsTokenChar;
    NameStarts(r);
    DataEnds(r);
    TextEnds(r);
  }

  lemma NoBlankEnd(s: string, pad: string)
    requires s != [] && !IsBlank(s[|s| - 1]) && AllBlank(pad)
    ensures TrimBlanks(s + pad) == s
    decreases |pad|
  {
    if pad == [] {
      assert s + pad == s;
    } else {
      var t := s + pad;
      assert t[..|t| - 1] == s + pad[..|pad| - 1] && t[|t| - 1] == pad[|pad| - 1];
      NoBlankEnd(s, pad[..|pad| - 1]);
    }
  }

  /** What parses to a record is none of the lines that panic. */
  lemma RecordsDoNotPanic(t: string)
    requires ParseLine(t).Some?
    ensures t != [] && !SetsDefault(t) && !LacksText(t)
  {
    hide ParseData, IsToken, Absolute, ParseNumber, ParseKind;
    assert LacksText(t) ==> Cut("TXT", ' ').1.None?;
  }

  /** Parsing the text of a record gives the record back, with any blanks behind it and with none before it. */
  lemma NewRecordText(r: Record, pad: string)
    requires WellFormed(r) && AllBlank(pad)
    ensures NewRecord(Text(r) + pad) == Ok(r)
    ensures pad != [] ==> NewRecord(pad + Text(r)) == Malformed
  {
    hide Text, WellFormed, ParseLine, SetsDefault, LacksText, IsSpace;
    TextTrimmed(r);
    BlankIsSpace();
    ParseLineText(r);
    NoBlankEnd(Text(r), pad);
    RecordsDoNotPanic(Text(r));
    if pad != [] {
      var t := pad + Text(r);
      NoBlankEnd(t, "");
      assert t + "" == t;
      BlankFirst(t);
    }
  }

  lemma OwnEnd(t: string)
    requires t != [] && !IsBlank(t[|t| - 1])
    ensures TrimBlanks(t) == t
  {
    NoBlankEnd(t, "");
    assert t + "" == t;
  }

  /** Texts that panic: nothing, the directives $TTL and $ORIGIN in any case, and a TXT record without a text. */
  lemma PanicTexts(digits: string, name: string, owner: Domain, ttl: U32)
    requires digits != [] && AllDigits(digits) && IsToken(name) && '.' in name && IsPlainName(owner)
    ensures NewRecord("") == Panicked && NewRecord(" \t") == Panicked
    ensures NewRecord("$TTL " + digits) == Panicked && NewRecord("$ttl " + digits) == Panicked
    ensures NewRecord("$ORIGIN " + name) == Panicked
    ensures NewRecord(owner + " " + Decimal(ttl) + " IN TXT") == Panicked
  {
    hide NewRecord, Decimal, IsToken, IsPlainName, AllDigits;
    BlanksPanic();
    DefaultPanics("$TTL", digits);
    DefaultPanics("$ttl", digits);
    DefaultPanics("$ORIGIN", name);
    TextlessPanics(owner, ttl);
    assert "$TTL" + [' '] == "$TTL " && "$ttl" + [' '] == "$ttl " && "$ORIGIN" + [' '] == "$ORIGIN ";
  }

  lemma BlanksPanic()
    ensures NewRecord("") == Panicked && NewRecord(" \t") == Panicked
  {
    hide Header, ParseLine, LacksText, SetsDefault;
    assert " \t"[..1] == " " && " "[..0] == "";
  }

  lemma TokenEnd(name: string)
    requires IsToken(name)
    ensures name != [] && !IsBlank(name[|name| - 1])
  {
    BlankIsSpace();
  }

  lemma DefaultPanics(word: string, rest: string)
    requires ((word == "$TTL" || word == "$ttl") && rest != [] && AllDigits(rest)) ||
             (word == "$ORIGIN" && IsToken(rest) && '.' in rest)
    ensures NewRecord(word + [' '] + rest) == Panicked
  {
    hide IsToken, Header, ParseLine, LacksText;
    CutAt(word, ' ', rest);
    assert Upper("$TTL") == "$TTL" && Upper("$ttl") == "$TTL" && Upper("$ORIGIN") == "$ORIGIN";
    if word == "$ORIGIN" {
      TokenEnd(rest);
    } else {
      assert IsDigit(rest[|rest| - 1]);
    }
    OwnEnd(word + [' '] + rest);
  }

  lemma TextlessPanics(owner: Domain, ttl: U32)
    requires IsPlainName(owner)
    ensures NewRecord(owner + " " + Decimal(ttl) + " IN TXT") == Panicked
  {
    hide IsToken, IsPlainName, IsDirective, Header, ParseLine, SetsDefault, Absolute, Decimal;
    NameIsNoDirective(owner);
    PlainNameAbsolute(owner);
    ParseNumberDecimal(ttl, 0x1_0000_0000);
    assert Decimal(ttl)[0] != 'I';
    var t := owner + " " + Decimal(ttl) + " IN TXT";
    assert t == owner + [' '] + (Decimal(ttl) + [' '] + ("IN" + [' '] + "TXT"));
    SecondField(owner, Decimal(ttl), "IN" + [' '] + "TXT");
    CutAt("IN", ' ', "TXT");
    OwnEnd(t);
  }

  lemma BlankIsSpace()
    ensures forall c :: IsBlank(c) ==> IsSpace(c)
  {
  }

  lemma BlankFirst(t: string)
    requires t != [] && IsBlank(t[0])
    ensures !SetsDefault(t) && Header(t) == None && ParseLine(t) == None && !LacksText(t)
  {
    var (word, rest) := Cut(t, ' ');
    assert t[0] == ' ' ==> word == [];
    assert word != [] ==> word[0] == t[0] && IsSpace(word[0]) && Upper(word)[0] == t[0];
  }

  lemma ParseText(r: Record)
    requires WellFormed(r)
    ensures NewRecord(Text(r)) == Ok(r)
  {
    hide Text, NewRecord, WellFormed;
    assert Text(r) + "" == Text(r);
    NewRecordText(r, "");
  }

  /** Whatever the parser returns is well formed. */
  lemma ParsedWellFormed(s: string)
    ensures NewRecord(s).Ok? ==> WellFormed(NewRecord(s).value)
  {
    hide TrimBlanks, ParseLine, SetsDefault, LacksText, WellFormed;
    LineWellFormed(TrimBlanks(s));
  }

  lemma LineWellFormed(s: string)
    ensures ParseLine(s).Some? ==> WellFormed(ParseLine(s).value)
  {
    hide Header, ParseTyped, WellFormed, IsPlainName;
    if Header(s).Some? {
      HeaderNamesPlain(s);
      TypedWellFormed(Header(s).value.0, Header(s).value.1, Header(s).value.2);
    }
  }

  lemma HeaderNamesPlain(s: string)
    ensures Header(s).Some? ==> IsPlainName(Header(s).value.0)
  {
    hide Cut, Absolute, IsToken, IsPlainName, IsDirective, ParseNumber;
  }

  lemma TypedWellFormed(name: Domain, ttl: U32, s: string)
    requires IsPlainName(name)
    ensures ParseTyped(name, ttl, s).Some? ==> WellFormed(ParseTyped(name, ttl, s).value)
  {
    hide Cut, IsPlainName, ParseKind, ParseData, WellFormed;
    var (kind, data) := Cut(s, ' ');
    if data.Some? && ParseKind(kind).Some? {
      DataWellFormed(name, ttl, ParseKind(kind).value, data.value);
    }
  }

  lemma DataWellFormed(name: Domain, ttl: U32, qtype: U16, data: string)
    requires IsPlainName(name)
    ensures ParseData(name, ttl, qtype, data).Some? ==> WellFormed(ParseData(name, ttl, qtype, data).value)
  {
    hide Cut, IsPlainName, IsToken, Absolute;
  }

  lemma ParseWithoutTTL(r: Record, ttl: U32)
    requires WellFormed(r)
    ensures NewRecordWithTTL(WithoutTTL(r), ttl) == Ok(r.WithTTL(ttl))
  {
    hide Text, NewRecord, WellFormed;
    WithTTLWellFormed(r, 0);
    ParseText(r.Masked());
  }

  /** The text of a record determines it, and the text without its TTL determines all but the TTL. */
  lemma TextInjective(x: Record, y: Record)
    requires WellFormed(x) && WellFormed(y)
    ensures Text(x) == Text(y) <==> x == y
    ensures WithoutTTL(x) == WithoutTTL(y) <==> x.Masked() == y.Masked()
  {
    hide Text, NewRecord, WellFormed;
    WithTTLWellFormed(x, 0);
    WithTTLWellFormed(y, 0);
    ParseText(x);
    ParseText(y);
    ParseText(x.Masked());
    ParseText(y.Masked());
  }

  // ----------------------------------------------------------- reverse records

  /** The implicit PTR record of an address record. */
  function ReverseRecord(r: Record): (p: Record)
    requires r.Address?
    ensures p.Ptr? && p.GetTTL() == r.GetTTL() && p.domain == r.name
  {
    Ptr(Addresses.ReverseAddr(r.ip), r.ttl, r.name)
  }

  /** The reverse record of an IPv4 address is filed under the parts of its text in reverse order. */
  lemma ReverseRecordLabels(r: Record)
    requires r.Address? && r.ip.V4?
    ensures var p := ReverseRecord(r);
            p.domain == r.name && p.ttl == r.ttl &&
            Split(p.name, '.') == Reversed(Split(Addresses.Text(r.ip), '.')) + ["in-addr", "arpa", ""]
  {
    Addresses.ReverseV4Labels(r.ip);
  }

  lemma ReverseNamePlain(ip: Addresses.IP)
    ensures IsPlainName(Addresses.ReverseAddr(ip))
  {
    var name := Addresses.ReverseAddr(ip);
    Addresses.ReverseAddrChars(ip);
    forall i | 0 <= i < |name| ensures IsTokenChar(name[i]) {
      assert name[i] in name;
    }
  }

  lemma ReverseRecordWellFormed(r: Record)
    requires WellFormed(r) && r.Address?
    ensures WellFormed(ReverseRecord(r))
  {
    ReverseNamePlain(r.ip);
  }

  /** Different address rows have different PTR rows. */
  lemma ReverseRecordInjective(x: Record, y: Record)
    requires WellFormed(x) && WellFormed(y) && x.Address? && y.Address?
    ensures ReverseRecord(x).Masked() == ReverseRecord(y).Masked() <==> x.Masked() == y.Masked()
  {
    Addresses.ReverseAddrInjective(x.ip, y.ip);
  }

  // ------------------------------------------------------------- time and TTLs

  // Times and durations are in nanoseconds; times count from 1970.

  /** The duration of a number of seconds. */
  function Seconds(n: int): int {
    n * 1_000_000_000
  }

  /** time.Time.Unix: whole seconds, rounded down. */
  function Unix(t: int): int {
    t / 1_000_000_000
  }

  /** math.Round of a duration in seconds: half away from zero. */
  function RoundSeconds(d: int): int {
    if d >= 0 then (2 * d + 1_000_000_000) / 2_000_000_000 else -((2 * -d + 1_000_000_000) / 2_000_000_000)
  }

  /** A second is 1000000000 nanoseconds; Unix times are rounded down, and halves of seconds away from zero. */
  lemma Clocks(t: int, n: nat)
    ensures Seconds(1) == 1_000_000_000 && Seconds(Unix(t)) <= t < Seconds(Unix(t)) + 1_000_000_000
    ensures RoundSeconds(Seconds(n) + 500_000_000) == n + 1 && RoundSeconds(Seconds(n) + 499_999_999) == n
    ensures RoundSeconds(-t) == -RoundSeconds(t)
  {
  }

  /** uint32(x) of a whole number of seconds. */
  function ToU32(n: int): U32 {
    n % 0x1_0000_0000
  }

  /** The conversion keeps numbers of 32 bits and drops the higher bits of others. */
  lemma LowBits(n: int)
    ensures 0 <= n < 4294967296 ==> ToU32(n) == n
    ensures exists m: int :: n == 4294967296 * m + ToU32(n)
  {
    assert n == 4294967296 * (n / 4294967296) + ToU32(n);
  }

  lemma RoundSecondsNearest(d: int)
    ensures -Seconds(1) <= 2 * (Seconds(RoundSeconds(d)) - d) <= Seconds(1)
    ensures d >= 0 ==> RoundSeconds(d) >= 0
  {
  }

  lemma RoundSecondsMonotone(d: int, e: int)
    requires d <= e
    ensures RoundSeconds(d) <= RoundSeconds(e)
  {
  }

  lemma RoundSecondsExact(n: int)
    ensures RoundSeconds(Seconds(n)) == n
  {
  }

  /** NewRecordWithExpire. */
  function NewRecordWithExpire(s: string, expire: int, now: int): Outcome<Record> {
    if expire < now then Expired else NewRecordWithTTL(s, ToU32(RoundSeconds(expire - now)))
  }

  lemma ParseWithExpire(r: Record, expire: int, now: int, left: int)
    requires WellFormed(r) && now <= expire && left == RoundSeconds(expire - now)
    ensures NewRecordWithExpire(Text(r), expire, now) == Ok(r.WithTTL(ToU32(left)))
  {
    ParseText(r);
  }
}
