/** IP addresses: their text (net.IP.String), a parser of that text, and the name of their reverse zone
    (dns.ReverseAddr; section 3.5 of RFC 1035 and section 2.5 of RFC 3596). */
module Addresses {
  import opened Strings

  type Byte = n: nat | n < 0x100
  type Word = n: nat | n < 0x1_0000

  type Bytes16 = b: seq<Byte> | |b| == 16 witness seq(16, i => 0)

  /** An address is V4 when net.IP.To4 succeeds on it; a V4-mapped IPv6 address is such an address. */
  datatype IP = V4(a: Byte, b: Byte, c: Byte, d: Byte) | V6(bytes: Bytes16)

  predicate IsV4Mapped(bytes: Bytes16) {
    (forall i :: 0 <= i < 10 ==> bytes[i] == 0) && bytes[10] == 0xff && bytes[11] == 0xff
  }

  /** A mapped address has the groups 0:0:0:0:0:ffff and then those of the IPv4 address. */
  lemma MappedGroups(bytes: Bytes16)
    ensures IsV4Mapped(bytes) <==> Groups(bytes)[..6] == [0, 0, 0, 0, 0, 0xffff]
  {
    var groups := Groups(bytes);
    assert forall i :: 0 <= i < 8 ==> groups[i] == 0x100 * (bytes[2 * i] as int) + bytes[2 * i + 1] as int;
    if groups[..6] == [0, 0, 0, 0, 0, 0xffff] {
      assert forall i :: 0 <= i < 6 ==> groups[..6][i] == groups[i];
      forall i | 0 <= i < 10 ensures bytes[i] == 0 {
        assert groups[i / 2] == 0;
      }
      assert groups[5] == 0xffff;
    }
  }

  predicate WellFormed(ip: IP) {
    ip.V6? ==> !IsV4Mapped(ip.bytes)
  }

  // ------------------------------------------------------------- hexadecimal

  function HexDigit(n: nat): (c: char)
    requires n < 16
    ensures IsHexDigit(c) && HexDigitValue(c) == n
  {
    if n < 10 then '0' + n as char else 'a' + (n - 10) as char
  }

  predicate IsHexDigit(c: char) {
    '0' <= c <= '9' || 'a' <= c <= 'f'
  }

  function HexDigitValue(c: char): (n: nat)
    requires IsHexDigit(c)
    ensures n < 16
  {
    if c <= '9' then (c - '0') as nat else 10 + (c - 'a') as nat
  }

  predicate AllHex(s: string) {
    forall i :: 0 <= i < |s| ==> IsHexDigit(s[i])
  }

  /** Lower-case hexadecimal text without leading zeros. */
  function Hex(n: nat): (s: string)
    ensures |s| > 0 && AllHex(s)
  {
    if n < 16 then [HexDigit(n)] else Hex(n / 16) + [HexDigit(n % 16)]
  }

  /** The digits of a number, from the highest to the lowest. */
  lemma HexDigits(n: nat, d: nat)
    requires d < 16
    ensures Hex(d) == ["0123456789abcdef"[d]] == [HexDigit(d)]
    ensures n > 0 ==> Hex(16 * n + d) == Hex(n) + ["0123456789abcdef"[d]]
  {
    assert (16 * n + d) / 16 == n && (16 * n + d) % 16 == d;
    assert "0123456789abcdef"[d] == if d < 10 then '0' + d as char else 'a' + (d - 10) as char;
  }

  function HexValue(s: string): nat
    requires AllHex(s)
  {
    if s == [] then 0 else 16 * HexValue(s[..|s| - 1]) + HexDigitValue(s[|s| - 1])
  }

  lemma {:induction false} HexHexValue(n: nat)
    ensures HexValue(Hex(n)) == n
  {
    if n >= 16 {
      HexHexValue(n / 16);
      assert Hex(n)[..|Hex(n)| - 1] == Hex(n / 16);
    }
  }

  // -------------------------------------------------------- 16-bit groups

  function Groups(bytes: Bytes16): (groups: seq<Word>)
    ensures |groups| == 8
  {
    seq(8, i requires 0 <= i < 8 => (bytes[2 * i] as int * 0x100 + bytes[2 * i + 1]) as Word)
  }

  function GroupBytes(groups: seq<Word>): Bytes16
    requires |groups| == 8
  {
    seq(16, i requires 0 <= i < 16 =>
      (if i % 2 == 0 then groups[i / 2] / 0x100 else groups[i / 2] % 0x100) as Byte)
  }

  lemma GroupsRoundTrip(bytes: Bytes16)
    ensures GroupBytes(Groups(bytes)) == bytes
  {
    forall i | 0 <= i < 16 ensures GroupBytes(Groups(bytes))[i] == bytes[i] {
      assert i == 2 * (i / 2) + i % 2;
    }
  }

  function HexAll(groups: seq<Word>): (texts: seq<string>)
    ensures |texts| == |groups|
    ensures forall t :: t in texts ==> |t| > 0 && ':' !in t && AllHex(t)
  {
    if groups == [] then [] else
      assert ':' !in Hex(groups[0]);
      [Hex(groups[0])] + HexAll(groups[1..])
  }

  function ParseHexAll(texts: seq<string>): Option<seq<Word>> {
    if texts == [] then Some([])
    else
      var rest := ParseHexAll(texts[1..]);
      if rest.None? || texts[0] == [] || !AllHex(texts[0]) || HexValue(texts[0]) >= 0x1_0000 then None
      else Some([HexValue(texts[0]) as Word] + rest.value)
  }

  lemma {:induction false} HexAllRoundTrip(groups: seq<Word>)
    ensures ParseHexAll(HexAll(groups)) == Some(groups)
  {
    if groups != [] {
      HexHexValue(groups[0]);
      HexAllRoundTrip(groups[1..]);
      assert HexAll(groups)[0] == Hex(groups[0]) && HexAll(groups)[1..] == HexAll(groups[1..]);
      assert [groups[0]] + groups[1..] == groups;
    }
  }

  // ------------------------------------------------------- run of zero groups

  function RunEnd(groups: seq<Word>, i: nat): (j: nat)
    requires i <= |groups|
    ensures i <= j <= |groups|
    ensures forall k :: i <= k < j ==> groups[k] == 0
    decreases |groups| - i
  {
    if i < |groups| && groups[i] == 0 then RunEnd(groups, i + 1) else i
  }

  /** The first longest run of zero groups from `i` on that beats the run found so far. */
  function LongestRun(groups: seq<Word>, i: nat, start: nat, length: nat): (r: (nat, nat))
    requires start + length <= |groups|
    requires forall k :: start <= k < start + length ==> groups[k] == 0
    ensures r.0 + r.1 <= |groups|
    ensures forall k :: r.0 <= k < r.0 + r.1 ==> groups[k] == 0
    decreases |groups| - i
  {
    if i >= |groups| then (start, length)
    else
      var j := RunEnd(groups, i);
      if j - i > length then LongestRun(groups, j + 1, i, j - i)
      else LongestRun(groups, i + 1, start, length)
  }

  predicate IsZeroRun(groups: seq<Word>, i: int, j: int) {
    0 <= i <= j <= |groups| && forall k :: i <= k < j ==> groups[k] == 0
  }

  /** The first of the longest runs of zero groups. */
  ghost predicate IsBestRun(groups: seq<Word>, start: int, end: int) {
    IsZeroRun(groups, start, end) &&
    forall m, n :: IsZeroRun(groups, m, n) ==> n - m <= end - start && (n - m == end - start > 0 ==> start <= m)
  }

  lemma {:induction false} RunEndIsEnd(groups: seq<Word>, i: nat)
    requires i <= |groups|
    ensures RunEnd(groups, i) < |groups| ==> groups[RunEnd(groups, i)] != 0
    decreases |groups| - i
  {
    if i < |groups| && groups[i] == 0 {
      RunEndIsEnd(groups, i + 1);
    }
  }

  /** No run of zero groups from `i` on is longer than the one found, and none as long starts before it. */
  lemma {:induction false} LongestRunWins(groups: seq<Word>, i: nat, start: nat, length: nat, m: nat, n: nat)
    requires start + length <= |groups| && forall k :: start <= k < start + length ==> groups[k] == 0
    requires i <= m <= n && IsZeroRun(groups, m, n)
    ensures var r := LongestRun(groups, i, start, length);
            length <= r.1 && n - m <= r.1 && (r.1 == length ==> r.0 == start) &&
            (n - m == r.1 && r.1 > length ==> r.0 <= m)
    decreases |groups| - i
  {
    if i < |groups| {
      hide RunEnd;
      var j := RunEnd(groups, i);
      RunEndIsEnd(groups, i);
      assert m <= j ==> n <= j;
      var (next, s, l) := if j - i > length then (j + 1, i, j - i) else (i + 1, start, length);
      if m >= next {
        LongestRunWins(groups, next, s, l, m, n);
      } else if next <= |groups| {
        LongestRunWins(groups, next, s, l, next, next);
      }
    }
  }

  // ----------------------------------------------------------------- the text

  function JoinHex(groups: seq<Word>): string {
    Join(HexAll(groups), ":")
  }

  /** net.IP.String: the longest run of at least two zero groups becomes "::". */
  function Text(ip: IP): string {
    match ip
    case V4(a, b, c, d) => Join([Decimal(a), Decimal(b), Decimal(c), Decimal(d)], ".")
    case V6(bytes) =>
      var groups := Groups(bytes);
      var (start, length) := LongestRun(groups, 0, 0, 0);
      if length < 2 then JoinHex(groups)
      else JoinHex(groups[..start]) + "::" + JoinHex(groups[start + length..])
  }

  function ParseByte(s: string): Option<Byte> {
    if s == [] || !AllDigits(s) || DigitsValue(s) >= 0x100 then None else Some(DigitsValue(s) as Byte)
  }

  function ParseV4(s: string): Option<IP> {
    var parts := Split(s, '.');
    if |parts| != 4 then None
    else
      match (ParseByte(parts[0]), ParseByte(parts[1]), ParseByte(parts[2]), ParseByte(parts[3]))
      case (Some(a), Some(b), Some(c), Some(d)) => Some(V4(a, b, c, d))
      case _ => None
  }

  /** The text before and after the first "::". */
  function CutDouble(s: string): Option<(string, string)> {
    if |s| < 2 then None
    else if s[0] == ':' && s[1] == ':' then Some(("", s[2..]))
    else
      match CutDouble(s[1..])
      case None => None
      case Some((left, right)) => Some(([s[0]] + left, right))
  }

  function ParseJoinHex(s: string): Option<seq<Word>> {
    if s == "" then Some([]) else ParseHexAll(Split(s, ':'))
  }

  function Zeros(n: nat): seq<Word> {
    seq(n, i => 0)
  }

  /** The groups of an IPv6 text; "::" stands for the zero groups that are missing. */
  function ParseGroups(s: string): Option<seq<Word>> {
    match CutDouble(s)
    case None => ParseHexAll(Split(s, ':'))
    case Some((left, right)) => Expand(ParseJoinHex(left), ParseJoinHex(right))
  }

  function Expand(left: Option<seq<Word>>, right: Option<seq<Word>>): Option<seq<Word>> {
    if left.None? || right.None? || |left.value| + |right.value| >= 8 then None
    else Some(left.value + Zeros(8 - |left.value| - |right.value|) + right.value)
  }

  function ParseV6(s: string): Option<IP> {
    var groups := ParseGroups(s);
    if groups.Some? && |groups.value| == 8 && !IsV4Mapped(GroupBytes(groups.value))
    then Some(V6(GroupBytes(groups.value)))
    else None
  }

  function Parse(s: string): Option<IP> {
    if ParseV4(s).Some? then ParseV4(s) else ParseV6(s)
  }

  lemma ParseByteDecimal(n: Byte)
    ensures ParseByte(Decimal(n)) == Some(n)
    ensures '.' !in Decimal(n)
  {
    DecimalValue(n);
  }

  lemma V4RoundTrip(ip: IP)
    requires ip.V4?
    ensures ParseV4(Text(ip)) == Some(ip)
  {
    ParseByteDecimal(ip.a);
    ParseByteDecimal(ip.b);
    ParseByteDecimal(ip.c);
    ParseByteDecimal(ip.d);
    SplitJoin([Decimal(ip.a), Decimal(ip.b), Decimal(ip.c), Decimal(ip.d)], '.');
  }

  predicate DoubleAt(s: string, i: nat)
    requires i + 1 < |s|
  {
    s[i] == ':' && s[i + 1] == ':'
  }

  predicate NoDouble(s: string) {
    forall i: nat :: i + 1 < |s| ==> !DoubleAt(s, i)
  }

  /** Joined groups never hold "::" and do not start or end with ':'. */
  predicate Single(s: string) {
    NoDouble(s) && (s != [] ==> s[|s| - 1] != ':' && s[0] != ':')
  }

  lemma {:induction false} JoinHexSingle(groups: seq<Word>)
    ensures Single(JoinHex(groups))
    ensures groups != [] ==> JoinHex(groups) != []
  {
    if |groups| > 0 {
      var head := HexAll(groups)[0];
      assert head == Hex(groups[0]) && ':' !in head;
      if |groups| == 1 {
        SingleWord(head);
      } else {
        JoinHexSingle(groups[1..]);
        SingleJoin(head, JoinHex(groups[1..]));
        assert HexAll(groups)[1..] == HexAll(groups[1..]);
      }
    }
  }

  lemma SingleWord(s: string)
    requires ':' !in s
    ensures Single(s)
  {
    forall i: nat | i + 1 < |s| ensures !DoubleAt(s, i) {
      assert s[i] in s;
    }
  }

  lemma SingleJoin(head: string, tail: string)
    requires ':' !in head && head != [] && Single(tail) && tail != []
    ensures Single(head + ":" + tail)
  {
    var s := head + ":" + tail;
    forall i: nat | i + 1 < |s| ensures !DoubleAt(s, i) {
      if i > |head| {
        assert !DoubleAt(tail, i - |head| - 1);
      } else if i < |head| {
        assert s[i] == head[i];
      } else {
        assert s[i + 1] == tail[0];
      }
    }
  }

  lemma {:induction false} JoinHexChars(groups: seq<Word>)
    ensures forall c :: c in JoinHex(groups) ==> c == ':' || IsHexDigit(c)
  {
    if |groups| > 0 {
      var texts := HexAll(groups);
      assert texts[0] == Hex(groups[0]);
      if |groups| > 1 {
        JoinHexChars(groups[1..]);
        assert JoinHex(groups) == texts[0] + ":" + JoinHex(groups[1..]);
      }
    }
  }

  /** The characters of an IPv6 text. */
  lemma V6TextChars(ip: IP)
    requires ip.V6?
    ensures forall c :: c in Text(ip) ==> c == ':' || IsHexDigit(c)
  {
    var groups := Groups(ip.bytes);
    var (start, length) := LongestRun(groups, 0, 0, 0);
    if length < 2 {
      JoinHexChars(groups);
    } else {
      JoinHexChars(groups[..start]);
      JoinHexChars(groups[start + length..]);
      assert Text(ip) == JoinHex(groups[..start]) + "::" + JoinHex(groups[start + length..]);
    }
  }

  lemma {:induction false} CutDoubleAt(left: string, right: string)
    requires NoDouble(left) && (left != [] ==> left[|left| - 1] != ':')
    ensures CutDouble(left + "::" + right) == Some((left, right))
  {
    var s := left + "::" + right;
    if left == [] {
      assert s[2..] == right;
    } else {
      assert s[1..] == left[1..] + "::" + right;
      assert s[0] == left[0] && (|left| > 1 ==> s[1] == left[1] && !DoubleAt(left, 0));
      forall i: nat | i + 1 < |left[1..]| ensures !DoubleAt(left[1..], i) {
        assert !DoubleAt(left, i + 1);
      }
      CutDoubleAt(left[1..], right);
      assert left == [left[0]] + left[1..];
    }
  }

  lemma {:induction false} CutDoubleNone(s: string)
    requires NoDouble(s)
    ensures CutDouble(s) == None
  {
    if |s| >= 2 {
      assert !DoubleAt(s, 0);
      forall i: nat | i + 1 < |s[1..]| ensures !DoubleAt(s[1..], i) {
        assert !DoubleAt(s, i + 1);
      }
      CutDoubleNone(s[1..]);
    }
  }

  lemma ParseJoinHexRoundTrip(groups: seq<Word>)
    ensures ParseJoinHex(JoinHex(groups)) == Some(groups)
    ensures groups != [] ==> ParseHexAll(Split(JoinHex(groups), ':')) == Some(groups)
  {
    JoinHexSingle(groups);
    HexAllRoundTrip(groups);
    if groups != [] {
      SplitJoin(HexAll(groups), ':');
    }
  }

  lemma CutShortened(left: seq<Word>, right: seq<Word>)
    ensures CutDouble(JoinHex(left) + "::" + JoinHex(right)) == Some((JoinHex(left), JoinHex(right)))
  {
    JoinHexSingle(left);
    CutDoubleAt(JoinHex(left), JoinHex(right));
  }

  lemma ExpandShortened(left: seq<Word>, right: seq<Word>)
    requires |left| + |right| < 8
    ensures Expand(ParseJoinHex(JoinHex(left)), ParseJoinHex(JoinHex(right)))
         == Some(left + Zeros(8 - |left| - |right|) + right)
  {
    hide ParseJoinHex, JoinHex;
    ParseJoinHexRoundTrip(left);
    ParseJoinHexRoundTrip(right);
  }

  lemma ShortenedRoundTrip(left: seq<Word>, right: seq<Word>)
    requires |left| + |right| < 8
    ensures ParseGroups(JoinHex(left) + "::" + JoinHex(right)) == Some(left + Zeros(8 - |left| - |right|) + right)
  {
    CutShortened(left, right);
    ExpandShortened(left, right);
  }

  /** What the text of an IPv6 address parses to, run of zeros or not. */
  lemma GroupsText(groups: seq<Word>, start: nat, length: nat)
    requires |groups| == 8 && start + length <= 8
    requires forall k :: start <= k < start + length ==> groups[k] == 0
    ensures length < 2 ==> ParseGroups(JoinHex(groups)) == Some(groups)
    ensures length >= 2 ==>
      ParseGroups(JoinHex(groups[..start]) + "::" + JoinHex(groups[start + length..])) == Some(groups)
  {
    if length < 2 {
      ParseJoinHexRoundTrip(groups);
      JoinHexSingle(groups);
      CutDoubleNone(JoinHex(groups));
    } else {
      var left, right := groups[..start], groups[start + length..];
      assert left + Zeros(8 - |left| - |right|) + right == groups;
      ShortenedRoundTrip(left, right);
    }
  }

  lemma V6RoundTrip(ip: IP)
    requires ip.V6? && WellFormed(ip)
    ensures ParseV6(Text(ip)) == Some(ip)
  {
    var groups := Groups(ip.bytes);
    var (start, length) := LongestRun(groups, 0, 0, 0);
    GroupsRoundTrip(ip.bytes);
    GroupsText(groups, start, length);
  }

  /** What the text of an IPv6 address shortens to "::": the first of the longest runs of zero groups; and nothing if
      no two zero groups follow each other. */
  lemma TextShortens(ip: IP) returns (start: nat, end: nat)
    requires ip.V6?
    ensures var groups, cut := Groups(ip.bytes), CutDouble(Text(ip));
            (cut.Some? <==> exists i :: 0 <= i < 7 && groups[i] == 0 && groups[i + 1] == 0) &&
            (cut.Some? ==> IsBestRun(groups, start, end) && end <= 8 &&
                           cut.value == (JoinHex(groups[..start]), JoinHex(groups[end..])))
  {
    hide LongestRun, JoinHex, CutDouble;
    var groups := Groups(ip.bytes);
    var (s, length) := LongestRun(groups, 0, 0, 0);
    start, end := s, s + length;
    forall m, n | IsZeroRun(groups, m, n) ensures n - m <= length && (n - m == length > 0 ==> start <= m) {
      LongestRunWins(groups, 0, 0, 0, m, n);
    }
    if i :| 0 <= i < 7 && groups[i] == 0 && groups[i + 1] == 0 {
      assert IsZeroRun(groups, i, i + 2);
    }
    if length < 2 {
      JoinHexSingle(groups);
      CutDoubleNone(JoinHex(groups));
    } else {
      assert groups[start] == 0 && groups[start + 1] == 0 && IsZeroRun(groups, start, end);
      CutShortened(groups[..start], groups[end..]);
    }
  }

  lemma V6TextIsNotV4(ip: IP)
    requires ip.V6?
    ensures ParseV4(Text(ip)).None?
  {
    V6TextChars(ip);
    assert '.' !in Text(ip);
    CutNone(Text(ip), '.');
  }

  /** The text of an IPv6 address without "::" has its eight groups in their order. */
  lemma V6Labels(ip: IP)
    requires ip.V6? && CutDouble(Text(ip)).None?
    ensures Split(Text(ip), ':') == HexAll(Groups(ip.bytes))
    ensures forall i :: 0 <= i < 8 ==>
              HexAll(Groups(ip.bytes))[i] == Hex(0x100 * (ip.bytes[2 * i] as int) + ip.bytes[2 * i + 1] as int)
  {
    hide Text, Split, Hex;
    var groups := Groups(ip.bytes);
    PlainV6(ip);
    SplitJoin(HexAll(groups), ':');
    HexAllAt(groups);
  }

  lemma PlainV6(ip: IP)
    requires ip.V6? && CutDouble(Text(ip)).None?
    ensures Text(ip) == Join(HexAll(Groups(ip.bytes)), ":")
  {
    hide LongestRun, CutDouble, HexAll, Join;
    var groups := Groups(ip.bytes);
    var (start, length) := LongestRun(groups, 0, 0, 0);
    if length >= 2 {
      CutShortened(groups[..start], groups[start + length..]);
    }
  }

  lemma {:induction false} HexAllAt(groups: seq<Word>)
    ensures forall i :: 0 <= i < |groups| ==> HexAll(groups)[i] == Hex(groups[i])
  {
    if groups != [] {
      HexAllAt(groups[1..]);
    }
  }

  /** Parsing the text of an address gives the address back. */
  lemma ParseText(ip: IP)
    requires WellFormed(ip)
    ensures Parse(Text(ip)) == Some(ip)
  {
    if ip.V4? {
      V4RoundTrip(ip);
    } else {
      V6RoundTrip(ip);
      V6TextIsNotV4(ip);
    }
  }

  /** The text of an address is one visible token of digits, hex letters, '.' and ':'. */
  predicate IsAddressChar(c: char) {
    IsHexDigit(c) || c == '.' || c == ':'
  }

  lemma {:induction false} JoinAddressChars(parts: seq<string>)
    requires forall p :: p in parts ==> AllHex(p)
    ensures forall c :: c in Join(parts, ".") ==> IsAddressChar(c)
  {
    if |parts| == 1 {
      assert parts[0] in parts;
    } else if |parts| > 1 {
      assert parts[0] in parts;
      JoinAddressChars(parts[1..]);
    }
  }

  lemma TextChars(ip: IP)
    ensures Text(ip) != []
    ensures forall c :: c in Text(ip) ==> IsAddressChar(c)
  {
    match ip {
      case V4(a, b, c, d) =>
        JoinAddressChars([Decimal(a), Decimal(b), Decimal(c), Decimal(d)]);
      case V6(bytes) =>
        V6TextChars(ip);
        JoinHexSingle(Groups(bytes));
    }
  }

  // ------------------------------------------------------------ reverse zone

  /** The half-bytes of an IPv6 address from the last to the first, each followed by a dot. */
  function ReverseNibbles(bytes: seq<Byte>): (s: string)
    ensures |s| == 4 * |bytes|
    ensures forall c :: c in s ==> IsHexDigit(c) || c == '.'
  {
    if bytes == [] then ""
    else
      var last := bytes[|bytes| - 1];
      [HexDigit(last % 16), '.', HexDigit(last / 16), '.'] + ReverseNibbles(bytes[..|bytes| - 1])
  }

  const IN_ADDR := "in-addr.arpa."
  const IP6 := "ip6.arpa."

  /** dns.ReverseAddr. */
  function ReverseAddr(ip: IP): string {
    match ip
    case V4(a, b, c, d) => Join([Decimal(d), Decimal(c), Decimal(b), Decimal(a)], ".") + "." + IN_ADDR
    case V6(bytes) => ReverseNibbles(bytes) + IP6
  }

  /** The reverse name of an IPv6 address has its half-bytes from the last to the first, each a label. */
  lemma {:induction false} ReverseNibblesAt(bytes: seq<Byte>, i: nat)
    requires i < |bytes|
    ensures var s, b := ReverseNibbles(bytes), bytes[|bytes| - 1 - i];
            s[4 * i..4 * i + 4] == [HexDigit(b % 16), '.', HexDigit(b / 16), '.']
  {
    var n := |bytes| - 1;
    var s, rest := ReverseNibbles(bytes), ReverseNibbles(bytes[..n]);
    var head := [HexDigit(bytes[n] % 16), '.', HexDigit(bytes[n] / 16), '.'];
    assert s == head + rest;
    hide ReverseNibbles, HexDigit;
    if i == 0 {
      assert s[..4] == head;
    } else {
      ReverseNibblesAt(bytes[..n], i - 1);
      FourOn(head, rest, 4 * (i - 1));
    }
  }

  lemma FourOn(head: string, rest: string, k: nat)
    requires |head| == 4 && k + 4 <= |rest|
    ensures (head + rest)[k + 4..k + 8] == rest[k..k + 4]
  {
  }

  lemma ReverseNibblesInjective(x: seq<Byte>, y: seq<Byte>)
    requires |x| == |y| && ReverseNibbles(x) == ReverseNibbles(y)
    ensures x == y
  {
    hide ReverseNibbles, HexDigit;
    var n := |x|;
    forall k | 0 <= k < n ensures x[k] == y[k] {
      var i := n - 1 - k;
      ReverseNibblesAt(x, i);
      ReverseNibblesAt(y, i);
      SameDigits(x[n - 1 - i], y[n - 1 - i]);
    }
  }

  lemma SameDigits(a: Byte, b: Byte)
    requires [HexDigit(a % 16), '.', HexDigit(a / 16), '.'] == [HexDigit(b % 16), '.', HexDigit(b / 16), '.']
    ensures a == b
  {
    hide HexDigit;
    var p, q := [HexDigit(a % 16), '.', HexDigit(a / 16), '.'], [HexDigit(b % 16), '.', HexDigit(b / 16), '.'];
    assert p[0] == q[0] && p[2] == q[2];
  }

  lemma ReverseV4Injective(x: IP, y: IP)
    requires x.V4? && y.V4? && ReverseAddr(x) == ReverseAddr(y)
    ensures x == y
  {
    var px := [Decimal(x.d), Decimal(x.c), Decimal(x.b), Decimal(x.a)];
    var py := [Decimal(y.d), Decimal(y.c), Decimal(y.b), Decimal(y.a)];
    var tx, ty := Join(px, "."), Join(py, ".");
    assert ReverseAddr(x)[..|ReverseAddr(x)| - |"." + IN_ADDR|] == tx;
    assert ReverseAddr(y)[..|ReverseAddr(y)| - |"." + IN_ADDR|] == ty;
    SplitJoin(px, '.');
    SplitJoin(py, '.');
    assert px == py;
    DecimalInjective(x.a, y.a);
    DecimalInjective(x.b, y.b);
    DecimalInjective(x.c, y.c);
    DecimalInjective(x.d, y.d);
  }

  lemma ReverseAddrEnd(x: IP)
    ensures |ReverseAddr(x)| > 13 && ReverseAddr(x)[|ReverseAddr(x)| - 7] == if x.V4? then 'r' else '6'
  {
    if x.V4? {
      var t := Join([Decimal(x.d), Decimal(x.c), Decimal(x.b), Decimal(x.a)], ".");
      assert ReverseAddr(x) == t + "." + IN_ADDR;
    }
  }

  /** The characters of a reverse name; the last one is a dot. */
  lemma ReverseAddrChars(ip: IP)
    ensures var r := ReverseAddr(ip); r != [] && r[|r| - 1] == '.'
    ensures forall c :: c in ReverseAddr(ip) ==> 'a' <= c <= 'z' || IsAddressChar(c) || c == '-'
  {
    match ip {
      case V4(a, b, c, d) =>
        var parts := [Decimal(d), Decimal(c), Decimal(b), Decimal(a)];
        assert forall p :: p in parts ==> AllHex(p);
        JoinAddressChars(parts);
        assert ReverseAddr(ip) == Join(parts, ".") + "." + IN_ADDR;
      case V6(bytes) =>
        assert ReverseAddr(ip) == ReverseNibbles(bytes) + IP6;
    }
  }

  /** The text of an IPv4 address has its four bytes in their order. */
  lemma V4Labels(ip: IP)
    requires ip.V4?
    ensures Split(Text(ip), '.') == [Decimal(ip.a), Decimal(ip.b), Decimal(ip.c), Decimal(ip.d)]
  {
    SplitJoin([Decimal(ip.a), Decimal(ip.b), Decimal(ip.c), Decimal(ip.d)], '.');
  }

  lemma SplitZone()
    ensures Split(IN_ADDR, '.') == ["in-addr", "arpa", ""]
  {
    var zone := ["in-addr", "arpa", ""];
    assert zone[1..] == ["arpa", ""] && zone[1..][1..] == [""];
    assert Join(zone, ".") == IN_ADDR;
    SplitJoin(zone, '.');
  }

  /** The reverse name of an IPv4 address has the parts of its text from the last to the first. */
  lemma ReverseV4Labels(ip: IP)
    requires ip.V4?
    ensures Split(ReverseAddr(ip), '.') == Reversed(Split(Text(ip), '.')) + ["in-addr", "arpa", ""]
  {
    hide Decimal, Split;
    var a, b, c, d := Decimal(ip.a), Decimal(ip.b), Decimal(ip.c), Decimal(ip.d);
    var parts, zone := [d, c, b, a], ["in-addr", "arpa", ""];
    V4Labels(ip);
    assert Reversed([a, b, c, d]) == parts;
    SplitJoin(parts, '.');
    SplitZone();
    SplitConcat(Join(parts, "."), IN_ADDR, '.');
  }

  lemma ReverseV6Labels(ip: IP)
    requires ip.V6?
    ensures |ReverseAddr(ip)| == 73 && ReverseAddr(ip)[64..] == "ip6.arpa."
    ensures forall i :: 0 <= i < 16 ==>
              ReverseAddr(ip)[4 * i..4 * i + 4] ==
              [HexDigit(ip.bytes[15 - i] % 16), '.', HexDigit(ip.bytes[15 - i] / 16), '.']
  {
    forall i | 0 <= i < 16
      ensures ReverseAddr(ip)[4 * i..4 * i + 4] ==
              [HexDigit(ip.bytes[15 - i] % 16), '.', HexDigit(ip.bytes[15 - i] / 16), '.']
    {
      ReverseNibblesAt(ip.bytes, i);
      assert ReverseAddr(ip)[4 * i..4 * i + 4] == ReverseNibbles(ip.bytes)[4 * i..4 * i + 4];
    }
  }

  /** Two addresses with the same reverse name are the same address. */
  lemma ReverseAddrInjective(x: IP, y: IP)
    ensures ReverseAddr(x) == ReverseAddr(y) <==> x == y
  {
    if ReverseAddr(x) == ReverseAddr(y) {
      var r := ReverseAddr(x);
      ReverseAddrEnd(x);
      ReverseAddrEnd(y);
      if x.V4? {
        ReverseV4Injective(x, y);
      } else {
        assert r[..64] == ReverseNibbles(x.bytes) && r[..64] == ReverseNibbles(y.bytes);
        ReverseNibblesInjective(x.bytes, y.bytes);
      }
    }
  }
}
