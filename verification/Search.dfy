/** Names as lists of labels: the reversed path, the suffix endpoint that undoes it, and what a suffix search
    finds in each backend. */
module Search {
  import opened Strings
  import opened Records
  import opened Globs
  import opened Sqlite
  import opened Etcd

  // -------------------------------------------------------- names and labels

  /** A label without the characters that names and paths are cut at. */
  predicate IsLabel(s: string) {
    s != "" && '.' !in s && '/' !in s && '\\' !in s
  }

  predicate AreLabels(labels: seq<string>) {
    forall l :: l in labels ==> IsLabel(l)
  }

  /** The fully qualified name with these labels. */
  function NameOf(labels: seq<string>): Domain {
    if labels == [] then "" else labels[0] + "." + NameOf(labels[1..])
  }

  lemma {:induction false} NameOfAppend(a: seq<string>, b: seq<string>)
    ensures NameOf(a + b) == NameOf(a) + NameOf(b)
  {
    if a == [] {
      assert a + b == b;
    } else {
      NameOfAppend(a[1..], b);
      assert (a + b)[1..] == a[1..] + b;
    }
  }

  lemma {:induction false} NameOfIsJoin(labels: seq<string>)
    requires labels != []
    ensures NameOf(labels) == Join(labels, ".") + "."
  {
    if |labels| > 1 {
      NameOfIsJoin(labels[1..]);
    } else {
      assert NameOf(labels[1..]) == "";
    }
  }

  lemma {:induction false} SplitLabelsPlain(s: string)
    requires '\\' !in s
    ensures SplitLabels(s, false) == Split(s, '.')
    decreases |s|
  {
    if s != [] {
      SplitLabelsPlain(s[1..]);
      if s[0] == '.' {
        CutAt("", '.', s[1..]);
        assert "" + ['.'] + s[1..] == s;
      } else {
        SplitHead(s, '.');
      }
    } else {
      CutNone("", '.');
    }
  }

  lemma SplitHead(s: string, sep: char)
    requires s != [] && s[0] != sep
    ensures Split(s, sep) == [[s[0]] + Split(s[1..], sep)[0]] + Split(s[1..], sep)[1..]
  {
    var (before, after) := Cut(s[1..], sep);
    assert Cut(s, sep) == ([s[0]] + before, after);
  }

  lemma {:induction false} NameHasNo(labels: seq<string>, c: char)
    requires c != '.' && forall l :: l in labels ==> c !in l
    ensures c !in NameOf(labels)
  {
    if labels != [] {
      NameHasNo(labels[1..], c);
    }
  }

  lemma NameIsFqdn(labels: seq<string>)
    requires labels != [] && AreLabels(labels)
    ensures IsFqdn(NameOf(labels)) && Fqdn(NameOf(labels)) == NameOf(labels) && NameOf(labels) != "."
    ensures NameOf(labels)[..|NameOf(labels)| - 1] == Join(labels, ".")
    ensures Fqdn(Join(labels, ".")) == NameOf(labels)
    ensures Join(labels, ".") != "" && Join(labels, ".")[0] != '.'
  {
    var j, n := Join(labels, "."), |labels| - 1;
    NameOfIsJoin(labels);
    NameHasNo(labels, '\\');
    assert forall i :: 0 <= i < |labels| ==> labels[i] in labels;
    JoinEnds(labels, ".");
    assert '\\' !in j by {
      assert forall c :: c in j ==> c in NameOf(labels);
    }
    assert labels[n][|labels[n]| - 1] in labels[n] && labels[0][0] in labels[0];
  }

  /** The labels of a name are the labels it was made of. */
  lemma LabelsOfName(labels: seq<string>)
    requires labels != [] && AreLabels(labels)
    ensures Labels(NameOf(labels)) == labels
  {
    NameIsFqdn(labels);
    NameHasNo(labels, '\\');
    var j := Join(labels, ".");
    assert forall c :: c in j ==> c in NameOf(labels);
    SplitLabelsPlain(j);
    SplitJoin(labels, '.');
  }

  lemma PathOfName(labels: seq<string>)
    requires labels != [] && AreLabels(labels)
    ensures PathOf(NameOf(labels)) == "/" + Join(Reversed(labels), "/")
  {
    LabelsOfName(labels);
  }

  // ------------------------------------------------------- the suffix endpoint

  const SUFFIX_ROUTE := "/v1/suffix/"

  /** dns.IsDomainName: labels shorter than 64, no empty label but a leading one, at most 256 octets in all. */
  predicate IsDomainName(s: string) {
    s != "" && ScanName(Fqdn(s), 0, 0, 0, false)
  }

  predicate ScanName(s: string, i: nat, off: int, begin: int, wasDot: bool)
    decreases |s| - i
  {
    if i >= |s| then true
    else if s[i] == '\\' then
      off + 1 <= 256 &&
      if i + 3 < |s| && IsDigit(s[i + 1]) && IsDigit(s[i + 2]) && IsDigit(s[i + 3])
      then ScanName(s, i + 4, off, begin + 3, false)
      else ScanName(s, i + 2, off, begin + 1, false)
    else if s[i] == '.' then
      !wasDot && i - begin < 64 && off + 1 + (i - begin) <= 256 &&
      ScanName(s, i + 1, off + 1 + (i - begin), i + 1, true)
    else ScanName(s, i + 1, off, begin, false)
  }

  /** The characters of a label are passed over. */
  lemma {:induction false} ScanLabel(s: string, i: nat, end: nat, off: int, begin: int, wasDot: bool)
    requires i < end <= |s| && forall j :: i <= j < end ==> s[j] != '.' && s[j] != '\\'
    ensures ScanName(s, i, off, begin, wasDot) == ScanName(s, end, off, begin, false)
    decreases end - i
  {
    if i + 1 < end {
      ScanLabel(s, i + 1, end, off, begin, false);
    }
  }

  lemma {:induction false} ScanLabels(s: string, pre: string, labels: seq<string>, wasDot: bool)
    requires AreLabels(labels) && s == pre + NameOf(labels) && (labels != [] || |s| <= 256)
    ensures ScanName(s, |pre|, |pre|, |pre|, wasDot) <==> |s| <= 256 && forall l :: l in labels ==> |l| < 64
    decreases |labels|
  {
    hide ScanName;
    if labels == [] {
      ScanEnd(s, |pre|, |pre|, |pre|, wasDot);
    } else {
      var head, rest := labels[0], labels[1..];
      var dot := |pre| + |head|;
      assert head in labels && forall j :: |pre| <= j < dot ==> s[j] == head[j - |pre|] && s[j] in head;
      assert s[dot] == '.';
      ScanLabel(s, |pre|, dot, |pre|, |pre|, wasDot);
      ScanDot(s, dot, |pre|, |pre|);
      var next := pre + head + ".";
      assert s == next + NameOf(rest) && |next| == dot + 1;
      assert forall l :: l in labels <==> l == head || l in rest;
      if rest != [] || |s| <= 256 {
        ScanLabels(s, next, rest, true);
      }
    }
  }

  lemma ScanEnd(s: string, i: nat, off: int, begin: int, wasDot: bool)
    requires i >= |s|
    ensures ScanName(s, i, off, begin, wasDot)
  {
  }

  lemma ScanDot(s: string, i: nat, off: int, begin: int)
    requires i < |s| && s[i] == '.'
    ensures ScanName(s, i, off, begin, false) <==>
      i - begin < 64 && off + 1 + (i - begin) <= 256 && ScanName(s, i + 1, off + 1 + (i - begin), i + 1, true)
  {
  }

  /** Which names made of labels are valid: those with no label of 64 characters or more and no more than 256 in all. */
  lemma ValidNames(labels: seq<string>)
    requires labels != [] && AreLabels(labels)
    ensures IsDomainName(NameOf(labels)) <==> |NameOf(labels)| <= 256 && forall l :: l in labels ==> |l| < 64
  {
    NameIsFqdn(labels);
    assert "" + NameOf(labels) == NameOf(labels);
    ScanLabels(NameOf(labels), "", labels, false);
  }

  /** GetRecordsBySuffix up to the search: the rest of the path, split at slashes and reversed. */
  method SuffixDomain(path: string) returns (domain: Option<Domain>)
    requires HasPrefix(path, SUFFIX_ROUTE)
    ensures var items := Split(path[|SUFFIX_ROUTE|..], '/');
            var d := Join(Reversed(items), ".");
            domain == if path[|path| - 1] == '/' || !IsDomainName(d) || Fqdn(d)[0] == '.' then None else Some(d)
  {
    if path[|path| - 1] == '/' {
      return None;
    }
    var items := Split(path[|SUFFIX_ROUTE|..], '/');
    var rev := new string[|items|](_ => "");
    for i := 0 to |items|
      invariant forall j :: 0 <= j < i ==> rev[j] == items[|items| - 1 - j]
    {
      rev[i] := items[|items| - 1 - i];
    }
    assert rev[..] == Reversed(items);
    var d := Join(rev[..], ".");
    if !IsDomainName(d) || Fqdn(d)[0] == '.' {
      return None;
    }
    return Some(d);
  }

  /** The suffix endpoint undoes ToPath: asked for the path of a name, it searches for that name. */
  lemma SuffixEndpointUndoesPath(labels: seq<string>)
    requires labels != [] && AreLabels(labels) && IsDomainName(NameOf(labels))
    ensures var path := "/v1/suffix" + PathOf(NameOf(labels));
            var d := Join(Reversed(Split(path[|SUFFIX_ROUTE|..], '/')), ".");
            HasPrefix(path, SUFFIX_ROUTE) && path[|path| - 1] != '/' && IsDomainName(d) && Fqdn(d)[0] != '.' &&
            Fqdn(d) == NameOf(labels)
  {
    hide ScanName, NameOf, Labels, PathOf, Fqdn, IsFqdn, Join, Split, Reversed;
    var rev := Reversed(labels);
    var tail := Join(rev, "/");
    var path := "/v1/suffix" + PathOf(NameOf(labels));
    PathOfName(labels);
    assert path == SUFFIX_ROUTE + tail;
    assert path[|SUFFIX_ROUTE|..] == tail;
    ReversedMembers(labels);
    SplitJoin(rev, '/');
    ReversedTwice(labels);
    NameIsFqdn(labels);
    assert forall i :: 0 <= i < |rev| ==> rev[i] in rev;
    JoinEnds(rev, "/");
    assert rev[|rev| - 1][|rev[|rev| - 1]| - 1] in rev[|rev| - 1];
    LastOf(SUFFIX_ROUTE, tail);
  }

  /** Asked for a name written with dots, the suffix endpoint searches for that name too. */
  lemma SuffixEndpointTakesNames(labels: seq<string>)
    requires labels != [] && AreLabels(labels) && IsDomainName(NameOf(labels))
    ensures var path := SUFFIX_ROUTE + Join(labels, ".");
            var d := Join(Reversed(Split(path[|SUFFIX_ROUTE|..], '/')), ".");
            path[|path| - 1] != '/' && IsDomainName(d) && Fqdn(d)[0] != '.' && Fqdn(d) == NameOf(labels)
  {
    var j := Join(labels, ".");
    NameIsFqdn(labels);
    JoinContains(labels, ".", '/');
    CutNone(j, '/');
    LastOf(SUFFIX_ROUTE, j);
    assert (SUFFIX_ROUTE + j)[|SUFFIX_ROUTE|..] == j;
    assert Reversed([j]) == [j];
    assert j[|j| - 1] in j;
  }

  // --------------------------------------------------------- paths and prefixes

  /** The name with labels `a` is the name with labels `b` or above it. */
  predicate IsAtOrBelow(b: seq<string>, a: seq<string>) {
    |a| <= |b| && b[|b| - |a|..] == a
  }

  /** Slash-separated texts as raw prefixes: all parts but the last agree, and the last is a prefix of its
      counterpart. */
  predicate PartsStartWith(b: seq<string>, a: seq<string>)
    requires a != []
  {
    |a| <= |b| && b[..|a| - 1] == a[..|a| - 1] && HasPrefix(b[|a| - 1], a[|a| - 1])
  }

  lemma JoinCons(parts: seq<string>)
    requires |parts| > 1
    ensures Join(parts, "/") == parts[0] + ['/'] + Join(parts[1..], "/")
  {
  }

  lemma PrefixOfWord(s: string, a: string)
    requires HasPrefix(s, a) && '/' !in a
    ensures HasPrefix(Cut(s, '/').0, a)
  {
    var before := Cut(s, '/').0;
    assert |before| < |s| ==> s[|before|] == '/';
    assert forall i :: 0 <= i < |a| ==> s[i] == a[i] && a[i] in a;
    if |before| >= |a| {
      assert before == s[..|before|];
      assert before[..|a|] == s[..|a|];
    }
  }

  lemma {:induction false} JoinPrefix(b: seq<string>, a: seq<string>)
    requires a != [] && b != []
    requires forall p :: p in a ==> '/' !in p
    requires forall p :: p in b ==> '/' !in p
    ensures HasPrefix(Join(b, "/"), Join(a, "/")) <==> PartsStartWith(b, a)
  {
    var s, t := Join(b, "/"), Join(a, "/");
    assert a[0] in a && b[0] in b;
    if |a| == 1 {
      OneWordPrefix(b, a[0]);
      assert b[..0] == a[..0];
    } else if |b| == 1 {
      JoinCons(a);
      assert t[|a[0]|] == '/';
      assert s == b[0] && forall i :: 0 <= i < |s| ==> s[i] in b[0];
      assert |t| <= |s| ==> s[..|t|][|a[0]|] == s[|a[0]|] && s[|a[0]|] != '/';
    } else {
      JoinCons(a);
      JoinCons(b);
      JoinPrefix(b[1..], a[1..]);
      TwoWordsPrefix(b[0], Join(b[1..], "/"), a[0], Join(a[1..], "/"));
      PartsCons(b, a);
    }
  }

  lemma PartsCons(b: seq<string>, a: seq<string>)
    requires |a| > 1 && b != []
    ensures PartsStartWith(b, a) <==> b[0] == a[0] && PartsStartWith(b[1..], a[1..])
  {
    if |a| <= |b| {
      var n := |a| - 1;
      assert b[..n] == [b[0]] + b[1..][..n - 1];
      assert a[..n] == [a[0]] + a[1..][..n - 1];
      assert b[..n] == a[..n] ==> b[1..][..n - 1] == b[..n][1..] == a[..n][1..] == a[1..][..n - 1];
    }
  }

  lemma OneWordPrefix(b: seq<string>, a: string)
    requires b != [] && '/' !in a && forall p :: p in b ==> '/' !in p
    ensures HasPrefix(Join(b, "/"), a) <==> HasPrefix(b[0], a)
  {
    var s := Join(b, "/");
    assert b[0] in b;
    if |b| == 1 {
    } else {
      JoinCons(b);
      CutAt(b[0], '/', Join(b[1..], "/"));
      if HasPrefix(s, a) {
        PrefixOfWord(s, a);
      }
      if HasPrefix(b[0], a) {
        assert s[..|a|] == b[0][..|a|];
      }
    }
  }

  lemma TwoWordsPrefix(x: string, s: string, y: string, t: string)
    requires '/' !in x && '/' !in y
    ensures HasPrefix(x + ['/'] + s, y + ['/'] + t) <==> x == y && HasPrefix(s, t)
  {
    var u, v := x + ['/'] + s, y + ['/'] + t;
    if HasPrefix(u, v) {
      assert u == v + u[|v|..];
      assert u == y + ['/'] + (t + u[|v|..]);
      CutAt(y, '/', t + u[|v|..]);
      CutAt(x, '/', s);
      assert s[..|t|] == t;
    }
    if x == y && HasPrefix(s, t) {
      assert u[..|v|] == x + ['/'] + s[..|t|];
    }
  }

  lemma SuffixIsReversedPrefix(b: seq<string>, a: seq<string>)
    ensures IsAtOrBelow(b, a) <==> |a| <= |b| && Reversed(b)[..|a|] == Reversed(a)
  {
    if |a| <= |b| {
      var rb, ra := Reversed(b), Reversed(a);
      if b[|b| - |a|..] == a {
        forall i | 0 <= i < |a| ensures rb[..|a|][i] == ra[i] {
          assert rb[i] == b[|b| - 1 - i] == b[|b| - |a|..][|a| - 1 - i];
        }
      }
      if rb[..|a|] == ra {
        forall i | 0 <= i < |a| ensures b[|b| - |a|..][i] == a[i] {
          assert a[i] == ra[|a| - 1 - i] == rb[|a| - 1 - i];
        }
      }
    }
  }

  /** One path is a prefix of another at a label boundary exactly when the labels are in suffix relation. */
  lemma PathPrefixIsSuffix(b: seq<string>, a: seq<string>)
    requires a != [] && b != [] && AreLabels(a) && AreLabels(b)
    ensures HasPrefix(PathOf(NameOf(b)) + "/", PathOf(NameOf(a)) + "/") <==> IsAtOrBelow(b, a)
  {
    hide PathOf, Join, HasPrefix;
    var rb, ra := Reversed(b) + [""], Reversed(a) + [""];
    ClosedPath(a);
    ClosedPath(b);
    PrefixAfter("/", Join(rb, "/"), Join(ra, "/"));
    JoinPrefix(rb, ra);
    BoundaryPrefix(b, a);
  }

  /** A path with a slash at its end, as a joined list of parts of which the last is empty. */
  lemma ClosedPath(labels: seq<string>)
    requires labels != [] && AreLabels(labels)
    ensures PathOf(NameOf(labels)) + "/" == "/" + Join(Reversed(labels) + [""], "/")
    ensures forall p :: p in Reversed(labels) + [""] ==> '/' !in p
  {
    ReversedMembers(labels);
    PathOfName(labels);
    JoinAppend(Reversed(labels), "", "/");
  }

  lemma BoundaryPrefix(b: seq<string>, a: seq<string>)
    ensures PartsStartWith(Reversed(b) + [""], Reversed(a) + [""]) <==> IsAtOrBelow(b, a)
  {
    hide Reversed;
    var rb, ra := Reversed(b) + [""], Reversed(a) + [""];
    SuffixIsReversedPrefix(b, a);
    assert ra[|ra| - 1] == "" && ra[..|a|] == Reversed(a);
    if |a| <= |b| {
      assert rb[..|a|] == Reversed(b)[..|a|];
      assert HasPrefix(rb[|a|], "");
    }
  }

  // ------------------------------------------------------- suffix search in etcd

  /** What SearchRecords finds in etcd: the path is a raw prefix of the key, so the last label of the suffix need
      only be the beginning of a label, or of the number that ends the key. */
  lemma EtcdFinds(prefix: string, ln: seq<string>, id: nat, ls: seq<string>)
    requires ls != [] && ln != [] && AreLabels(ls) && AreLabels(ln)
    ensures HasPrefix(KeyFor(prefix, NameOf(ln), id), prefix + "/records" + PathOf(NameOf(ls)))
       <==> PartsStartWith(Reversed(ln) + [Decimal(id)], Reversed(ls))
  {
    hide PathOf, Join, HasPrefix, Decimal;
    var base := prefix + "/records/";
    var rn, rs := Reversed(ln) + [Decimal(id)], Reversed(ls);
    OpenKey(prefix, ln, id);
    ReversedMembers(ls);
    PathOfName(ls);
    assert prefix + "/records" + ("/" + Join(rs, "/")) == base + Join(rs, "/");
    PrefixAfter(base, Join(rn, "/"), Join(rs, "/"));
    JoinPrefix(rn, rs);
  }

  lemma OpenKey(prefix: string, ln: seq<string>, id: nat)
    requires ln != [] && AreLabels(ln)
    ensures KeyFor(prefix, NameOf(ln), id) == prefix + "/records/" + Join(Reversed(ln) + [Decimal(id)], "/")
    ensures forall p :: p in Reversed(ln) + [Decimal(id)] ==> '/' !in p
  {
    hide PathOf, Join, Decimal;
    ReversedMembers(ln);
    PathOfName(ln);
    JoinAppend(Reversed(ln), Decimal(id), "/");
    DecimalHasNoSlash(id);
    var j := Join(Reversed(ln), "/");
    assert prefix + "/records" + ("/" + j) + "/" + Decimal(id) == prefix + "/records/" + (j + "/" + Decimal(id));
  }

  /** The search never misses a name equal to or below the suffix. */
  lemma EtcdNeverMisses(prefix: string, ln: seq<string>, id: nat, ls: seq<string>)
    requires ls != [] && ln != [] && AreLabels(ls) && AreLabels(ln) && IsAtOrBelow(ln, ls)
    ensures HasPrefix(KeyFor(prefix, NameOf(ln), id), prefix + "/records" + PathOf(NameOf(ls)))
  {
    EtcdFinds(prefix, ln, id, ls);
    SuffixIsReversedPrefix(ln, ls);
    var rn, rs, n := Reversed(ln), Reversed(ls), |ls| - 1;
    assert (rn + [Decimal(id)])[..n] == rn[..n] == rn[..|ls|][..n] == rs[..n];
    assert (rn + [Decimal(id)])[n] == rn[..|ls|][n] == rs[n];
  }

  // ----------------------------------------------------- suffix search in SQLite

  function FoldAll(labels: seq<string>): seq<string> {
    seq(|labels|, i requires 0 <= i < |labels| => Fold(labels[i]))
  }

  lemma FoldAppend(a: string, b: string)
    ensures Fold(a + b) == Fold(a) + Fold(b)
  {
  }

  lemma {:induction false} FoldName(labels: seq<string>)
    ensures Fold(NameOf(labels)) == NameOf(FoldAll(labels))
  {
    if labels != [] {
      FoldName(labels[1..]);
      FoldAppend(labels[0] + ".", NameOf(labels[1..]));
      FoldAppend(labels[0], ".");
      assert FoldAll(labels)[1..] == FoldAll(labels[1..]);
      assert Fold(".") == ".";
    }
  }

  lemma FoldLabels(labels: seq<string>)
    requires forall l :: l in labels ==> '.' !in l
    ensures forall l :: l in FoldAll(labels) ==> '.' !in l
  {
    forall l | l in FoldAll(labels) ensures '.' !in l {
      var i :| 0 <= i < |labels| && l == Fold(labels[i]);
      assert labels[i] in labels;
      forall j | 0 <= j < |l| ensures l[j] != '.' {
        assert labels[i][j] in labels[i];
      }
    }
  }

  lemma SplitName(labels: seq<string>)
    requires forall l :: l in labels ==> '.' !in l
    ensures Split(NameOf(labels), '.') == labels + [""]
  {
    SplitJoin(labels + [""], '.');
    if labels == [] {
      assert NameOf(labels) == Join([""], ".");
    } else {
      NameOfIsJoin(labels);
      JoinAppend(labels, "", ".");
      assert Join(labels, ".") + "." + "" == NameOf(labels);
    }
  }

  /** A name ends in "." and another name exactly when it is properly below it. */
  lemma EndsWithName(b: seq<string>, a: seq<string>)
    requires forall l :: l in a ==> '.' !in l
    requires forall l :: l in b ==> '.' !in l
    ensures (exists x: string :: NameOf(b) == x + "." + NameOf(a)) <==> IsAtOrBelow(b, a) && |a| < |b|
  {
    if x: string :| NameOf(b) == x + "." + NameOf(a) {
      SplitConcat(x, NameOf(a), '.');
      SplitName(a);
      SplitName(b);
      var p := Split(x, '.');
      assert b + [""] == p + (a + [""]);
      assert |b| == |p| + |a|;
      assert b == (b + [""])[..|b|] == (p + (a + [""]))[..|b|] == p + a;
    }
    if IsAtOrBelow(b, a) && |a| < |b| {
      var pre := b[..|b| - |a|];
      assert b == pre + a;
      NameOfAppend(pre, a);
      NameOfIsJoin(pre);
      assert NameOf(b) == Join(pre, ".") + "." + NameOf(a);
    }
  }

  lemma EscapeDot(s: string)
    ensures EscapeLike("." + s) == "." + EscapeLike(s)
  {
    ReplaceChainAppend(".", s, LIKE_ESCAPES);
    LikeCharCorrect('.');
  }

  lemma FoldEnds(suffix: string, name: string)
    ensures (exists i :: 0 <= i <= |name| && Fold(name[i..]) == "." + Fold(suffix)) <==>
            (exists x: string :: Fold(name) == x + "." + Fold(suffix))
  {
    if i :| 0 <= i <= |name| && Fold(name[i..]) == "." + Fold(suffix) {
      assert name == name[..i] + name[i..];
      FoldAppend(name[..i], name[i..]);
      assert Fold(name) == Fold(name[..i]) + "." + Fold(suffix);
    }
    if x: string :| Fold(name) == x + "." + Fold(suffix) {
      var i := |x|;
      assert |Fold(name)| == |name|;
      assert Fold(name[i..]) == Fold(name)[i..] == "." + Fold(suffix);
    }
  }

  /** "%." and an escaped text: the name ends in a dot and the text, up to ASCII case. */
  lemma LikeEnding(suffix: string, name: string)
    ensures Like("%." + EscapeLike(suffix), name) <==> exists x: string :: Fold(name) == x + "." + Fold(suffix)
  {
    hide Like, EscapeLike, Fold;
    var p := "." + EscapeLike(suffix);
    EscapeDot(suffix);
    assert "%." + EscapeLike(suffix) == "%" + p;
    PercentTakesAnyPrefix(p, name);
    FoldDot(suffix);
    forall i | 0 <= i <= |name| ensures Like(p, name[i..]) <==> Fold(name[i..]) == "." + Fold(suffix) {
      EscapeLikeMeaning("." + suffix, name[i..]);
    }
    FoldEnds(suffix, name);
  }

  lemma FoldDot(s: string)
    ensures Fold("." + s) == "." + Fold(s)
  {
  }

  /** What SearchRecords finds in SQLite: the names properly below the suffix, up to ASCII case, and the name
      that is spelled like the escaped suffix. */
  lemma SqliteFinds(ln: seq<string>, ls: seq<string>)
    requires AreLabels(ls) && AreLabels(ln)
    ensures SuffixFinds(NameOf(ls), NameOf(ln))
       <==> NameOf(ln) == EscapeLike(NameOf(ls)) || (IsAtOrBelow(FoldAll(ln), FoldAll(ls)) && |ls| < |ln|)
  {
    LikeEnding(NameOf(ls), NameOf(ln));
    FoldName(ls);
    FoldName(ln);
    FoldLabels(ls);
    FoldLabels(ln);
    EndsWithName(FoldAll(ln), FoldAll(ls));
  }

  predicate HasWildcard(s: string) {
    '%' in s || '_' in s || '\\' in s
  }

  lemma {:induction false} EscapeGrows(s: string)
    ensures |Substitute(s, EscapedChar)| >= |s|
    ensures Substitute(s, EscapedChar) == s <==> !HasWildcard(s)
    ensures HasWildcard(s) ==> |Substitute(s, EscapedChar)| > |s|
  {
    if s != "" {
      EscapeGrows(s[1..]);
      assert s == [s[0]] + s[1..];
    }
  }

  /** The search never misses a name properly below the suffix, and finds the suffix itself exactly when the
      suffix holds none of the characters that LIKE treats specially: `_http._tcp.example.com.` is not found. */
  lemma SqliteFindsSuffixItself(ls: seq<string>)
    requires AreLabels(ls)
    ensures SuffixFinds(NameOf(ls), NameOf(ls)) <==> !HasWildcard(NameOf(ls))
  {
    SqliteFinds(ls, ls);
    EscapeLikeIsSubstitution(NameOf(ls));
    EscapeGrows(NameOf(ls));
  }

  lemma SqliteNeverMissesBelow(ln: seq<string>, ls: seq<string>)
    requires AreLabels(ls) && AreLabels(ln) && IsAtOrBelow(ln, ls) && |ls| < |ln|
    ensures SuffixFinds(NameOf(ls), NameOf(ln))
  {
    SqliteFinds(ln, ls);
    var n := |ln| - |ls|;
    forall i | 0 <= i < |ls| ensures FoldAll(ln)[n..][i] == FoldAll(ls)[i] {
      assert ln[n..][i] == ls[i];
    }
    assert FoldAll(ln)[n..] == FoldAll(ls);
  }
}
