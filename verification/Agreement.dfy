/** Listings of the two backends: where they hold the same rows they list the same records, or exactly when. */
module Agreement {
  import opened Strings
  import opened Records
  import opened DynamicRecords
  import opened Store
  import opened Expiry
  import opened Globs
  import opened CompiledGlobs
  import Sqlite
  import opened Etcd
  import opened EtcdResolver
  import opened Search
  import opened Backends

  // ----------------------------------------------------------- any two listings

  /** A condition on rows and one on files pick alike. */
  ghost predicate PickAlike(files: Files, p: (Record, Row) -> bool, q: (nat, VolatileRecord) -> bool) {
    forall id :: id in files ==> (p(files[id].record.Masked(), RowOfFile(files[id], id)) <==> q(id, files[id]))
  }

  lemma ShownAlike(files: Files, last: nat, id: nat, now: int)
    requires Unique(files) && AllSound(files) && id in files
    ensures var k, t := files[id].record.Masked(), TableOf(files, last);
            k in t.rows && t.rows[k] == RowOfFile(files[id], id) && IsVisible(t.rows[k], Unix(now)) &&
            Sqlite.ShownRecord(k, t.rows[k], now) == ShownFile(files[id], id, now)
  {
    hide Record.Masked, Record.WithTTL, Record.GetQtype, TableOf, Shown, IsVisible, ShownTTL;
    RecordOfRow(files, last, id, now);
    TableAt(files, last, id);
  }

  /** A listing of rows, seen from the files they stand for. */
  lemma RowsListed(rs: seq<DynamicRecord>, files: Files, last: nat, now: int, p: (Record, Row) -> bool)
    requires Unique(files) && AllSound(files) && Sqlite.IsListing(rs, TableOf(files, last), now, p)
    ensures forall r :: r in rs <==>
              exists id :: id in files && p(files[id].record.Masked(), RowOfFile(files[id], id)) &&
                           r == ShownFile(files[id], id, now)
    ensures forall i, j :: 0 <= i < j < |rs| ==> rs[i] != rs[j]
  {
    hide Record.Masked, TableOf, ShownFile, Sqlite.ShownRecord, IsVisible;
    var t := TableOf(files, last);
    forall id | id in files
      ensures var k := files[id].record.Masked();
              Sqlite.IsListed(t, now, p, k) <==> p(k, RowOfFile(files[id], id))
      ensures var k := files[id].record.Masked();
              k in t.rows && Sqlite.ShownRecord(k, t.rows[k], now) == ShownFile(files[id], id, now)
    {
      ShownAlike(files, last, id, now);
    }
    forall r | r in rs
      ensures exists id :: id in files && p(files[id].record.Masked(), RowOfFile(files[id], id)) &&
                           r == ShownFile(files[id], id, now)
    {
      var k :| Sqlite.IsListed(t, now, p, k) && r == Sqlite.ShownRecord(k, t.rows[k], now);
      var id := FileOfKey(files, last, k);
    }
  }

  /** A listing of permanent files. */
  lemma FilesListed(rs: seq<DynamicRecord>, files: Files, now: int, q: (nat, VolatileRecord) -> bool)
    requires AllSound(files) && IsFileListing(rs, files, now, q)
    ensures forall r :: r in rs <==> exists id :: id in files && q(id, files[id]) && r == ShownFile(files[id], id, now)
    ensures forall i, j :: 0 <= i < j < |rs| ==> rs[i] != rs[j]
  {
    hide ShownFile;
    NothingExpired(files, now);
    forall r | r in rs ensures exists id :: id in files && q(id, files[id]) && r == ShownFile(files[id], id, now) {
      var id :| IsPicked(files, now, q, id) && r == ShownFile(files[id], id, now);
    }
    forall id | id in files && q(id, files[id]) ensures ShownFile(files[id], id, now) in rs {
      assert IsPicked(files, now, q, id);
    }
  }

  /** Listings of the same rows have the same records exactly when their conditions pick alike. */
  lemma SameListing(a: seq<DynamicRecord>, b: seq<DynamicRecord>, files: Files, last: nat, now: int,
                    p: (Record, Row) -> bool, q: (nat, VolatileRecord) -> bool)
    requires Unique(files) && AllSound(files)
    requires Sqlite.IsListing(a, TableOf(files, last), now, p) && IsFileListing(b, files, now, q)
    ensures multiset(a) == multiset(b) <==> PickAlike(files, p, q)
  {
    hide Sqlite.IsListing, IsFileListing, Unique, AllSound, TableOf, Record.Masked, Shown;
    RowsListed(a, files, last, now, p);
    FilesListed(b, files, now, q);
    if PickAlike(files, p, q) {
      SameElementsSameMultiset(a, b);
    }
    if multiset(a) == multiset(b) {
      forall r ensures r in a <==> r in b {
        assert r in a <==> r in multiset(a);
        assert r in b <==> r in multiset(b);
      }
      forall id | id in files ensures p(files[id].record.Masked(), RowOfFile(files[id], id)) <==> q(id, files[id]) {
        assert ShownFile(files[id], id, now) in a <==> ShownFile(files[id], id, now) in b;
      }
    }
  }

  // -------------------------------------------------------------------- queries

  /** Records: the same list, in some order. */
  method AskAll(s: Sqlite.SqliteResolver, e: EtcdResolver, now: int)
    returns (fromSqlite: seq<DynamicRecord>, fromEtcd: seq<DynamicRecord>)
    requires s.Valid() && e.Valid() && Unique(e.files) && AllSound(e.files) && s.Contents() == e.Contents()
    ensures multiset(fromSqlite) == multiset(fromEtcd)
    ensures Sqlite.IsListing(fromSqlite, s.Contents(), now, (k, row) => true)
  {
    hide Sqlite.IsListing, IsFileListing, Sqlite.Meaning, TableOf, Holds, Sqlite.ValidRows, Unique;
    var a := s.AllRecords(now);
    var b := e.AllRecords(now);
    SameListing(a.value, b.value, e.files, e.last, now, (k, row) => true, Everything());
    return a.value, b.value;
  }

  /** GetRecord. */
  method AskId(s: Sqlite.SqliteResolver, e: EtcdResolver, id: int, now: int)
    returns (fromSqlite: seq<DynamicRecord>, fromEtcd: seq<DynamicRecord>)
    requires s.Valid() && e.Valid() && Unique(e.files) && AllSound(e.files) && s.Contents() == e.Contents()
    ensures multiset(fromSqlite) == multiset(fromEtcd)
    ensures Sqlite.IsListing(fromSqlite, s.Contents(), now, (k, row: Row) => row.id == id)
  {
    hide Sqlite.IsListing, IsFileListing, Sqlite.Meaning, TableOf, Holds, Sqlite.ValidRows, Unique;
    var a := s.GetRecord(id, now);
    var b := e.GetRecord(id, now);
    var q := (i: nat, v: VolatileRecord) => i == id;
    OneFileListing(b.value, e.files, now, id, q);
    SameListing(a.value, b.value, e.files, e.last, now, (k, row: Row) => row.id == id, q);
    return a.value, b.value;
  }

  lemma OneFileListing(rs: seq<DynamicRecord>, files: Files, now: int, id: int, q: (nat, VolatileRecord) -> bool)
    requires forall i: nat, v :: q(i, v) <==> i == id
    requires rs == if id >= 0 && IsPicked(files, now, Everything(), id) then [ShownFile(files[id], id, now)] else []
    ensures IsFileListing(rs, files, now, q)
  {
    hide Shown, IsExpired;
    if rs != [] {
      assert IsPicked(files, now, q, id);
    }
  }

  /** GlobRecords: the same list exactly when the etcd backend's expression compiles and picks, of the stored
      names, those that the glob picks up to ASCII case. */
  method AskGlob(s: Sqlite.SqliteResolver, e: EtcdResolver, glob: string, now: int)
    returns (fromSqlite: seq<DynamicRecord>, fromEtcd: Option<seq<DynamicRecord>>)
    requires s.Valid() && e.Valid() && Unique(e.files) && AllSound(e.files) && s.Contents() == e.Contents()
    ensures fromEtcd.Some? <==> Compiled(glob).Some?
    ensures fromEtcd.Some? ==>
      (multiset(fromSqlite) == multiset(fromEtcd.value) <==> GlobsAlike(s.Contents(), glob))
    ensures IsLowerCase(s.Contents(), glob) && IsLiteral(glob) ==>
      fromEtcd.Some? && multiset(fromSqlite) == multiset(fromEtcd.value)
  {
    hide Sqlite.IsListing, IsFileListing, Sqlite.Meaning, TableOf, Holds, Sqlite.ValidRows, Unique;
    hide Compiled, RegexpMatches, GlobMatches, IsLiteral, Fold, Fqdn, GlobsAlike, IsLowerCase;
    var a := s.GlobRecords(glob, now);
    var b := e.GlobRecords(glob, now);
    if IsLowerCase(s.Contents(), glob) && IsLiteral(glob) {
      LiteralGlobsAlike(s.Contents(), glob);
    }
    if !b.Ok? {
      return a.value, None;
    }
    var p := (k: Record, row: Row) => GlobMatches(Fold(glob), Fold(k.name));
    SameListing(a.value, b.value, e.files, e.last, now, p, NameMatches(glob));
    AlikeInTable(e.files, e.last, glob);
    return a.value, Some(b.value);
  }

  /** On every stored name the glob answers alike in both backends. */
  ghost predicate GlobsAlike(t: Table, glob: string) {
    forall k :: k in t.rows ==> (GlobMatches(Fold(glob), Fold(k.name)) <==> RegexpMatches(glob, Fqdn(k.name)))
  }

  /** A glob and stored names without capitals; names are qualified and in one line. */
  ghost predicate IsLowerCase(t: Table, glob: string) {
    Fold(glob) == glob &&
    forall k :: k in t.rows ==> Fold(k.name) == k.name && Fqdn(k.name) == k.name && '\n' !in k.name
  }

  lemma LiteralGlobsAlike(t: Table, glob: string)
    requires IsLowerCase(t, glob) && IsLiteral(glob)
    ensures GlobsAlike(t, glob) && Compiled(glob).Some?
  {
    hide Compiled, RegexpMatches, GlobMatches, IsLiteral, Fold, Fqdn;
    CompileGlobMeaning(glob, "");
    forall k | k in t.rows ensures GlobMatches(Fold(glob), Fold(k.name)) <==> RegexpMatches(glob, Fqdn(k.name)) {
      CompileGlobMeaning(glob, k.name);
    }
  }

  lemma AlikeInTable(files: Files, last: nat, glob: string)
    requires Unique(files)
    ensures PickAlike(files, (k: Record, row: Row) => GlobMatches(Fold(glob), Fold(k.name)), NameMatches(glob))
       <==> GlobsAlike(TableOf(files, last), glob)
  {
    hide TableOf, RegexpMatches, GlobMatches, Fold, Fqdn;
    forall id | id in files
      ensures files[id].record.Masked() in TableOf(files, last).rows &&
              files[id].record.Masked().name == files[id].record.name
    {
      TableAt(files, last, id);
    }
    forall k | k in TableOf(files, last).rows ensures exists id :: id in files && files[id].record.Masked() == k {
      var id := FileOfKey(files, last, k);
    }
  }

  /** SearchRecords: the same list exactly when, for every stored row, the raw path prefix and the SQL suffix
      condition agree. */
  method AskSuffix(s: Sqlite.SqliteResolver, e: EtcdResolver, suffix: Domain, now: int)
    returns (fromSqlite: seq<DynamicRecord>, fromEtcd: seq<DynamicRecord>)
    requires s.Valid() && e.Valid() && Unique(e.files) && AllSound(e.files) && s.Contents() == e.Contents()
    ensures multiset(fromSqlite) == multiset(fromEtcd) <==> SearchesAlike(s.Contents(), e.prefix, suffix)
  {
    hide Sqlite.IsListing, IsFileListing, Sqlite.Meaning, TableOf, Holds, Sqlite.ValidRows, Unique, PathOf, Fqdn;
    hide Sqlite.SuffixFinds;
    var a := s.SearchRecords(suffix, now);
    var b := e.SearchRecords(suffix, now);
    var p := (k: Record, row: Row) => Sqlite.SuffixFinds(Fqdn(suffix), k.name);
    var q := KeyStarts(e.prefix, e.prefix + "/records" + PathOf(suffix));
    SameListing(a.value, b.value, e.files, e.last, now, p, q);
    AlikeUnderKeys(e.files, e.last, e.prefix, suffix);
    return a.value, b.value;
  }

  ghost predicate SearchesAlike(t: Table, prefix: string, suffix: Domain) {
    forall k :: k in t.rows ==> (Sqlite.SuffixFinds(Fqdn(suffix), k.name) <==> IsUnderPath(t, k, prefix, suffix))
  }

  ghost predicate IsUnderPath(t: Table, k: Record, prefix: string, suffix: Domain)
    requires k in t.rows
  {
    HasPrefix(KeyFor(prefix, k.name, t.rows[k].id), prefix + "/records" + PathOf(suffix))
  }

  lemma AlikeUnderKeys(files: Files, last: nat, prefix: string, suffix: Domain)
    requires Unique(files)
    ensures PickAlike(files, (k: Record, row: Row) => Sqlite.SuffixFinds(Fqdn(suffix), k.name),
                      KeyStarts(prefix, prefix + "/records" + PathOf(suffix)))
       <==> SearchesAlike(TableOf(files, last), prefix, suffix)
  {
    hide TableOf, Sqlite.SuffixFinds, Fqdn, PathOf, KeyFor;
    var t := TableOf(files, last);
    forall id | id in files
      ensures var k := files[id].record.Masked();
              k in t.rows && t.rows[k].id == id && k.name == files[id].record.name
    {
      TableAt(files, last, id);
    }
    forall k | k in t.rows ensures exists id :: id in files && files[id].record.Masked() == k {
      var id := FileOfKey(files, last, k);
    }
  }

  /** For a lower-case row and suffix without the characters that LIKE treats specially, the two searches agree
      exactly when the raw path prefix does not reach beyond the suffix: SQLite finds what is at or below the
      suffix, and etcd all of that and more. */
  lemma SearchesAgree(prefix: string, ln: seq<string>, id: nat, ls: seq<string>)
    requires ls != [] && ln != [] && AreLabels(ls) && AreLabels(ln)
    requires FoldAll(ls) == ls && FoldAll(ln) == ln && !HasWildcard(NameOf(ls))
    ensures Sqlite.SuffixFinds(NameOf(ls), NameOf(ln)) <==> IsAtOrBelow(ln, ls)
    ensures (Sqlite.SuffixFinds(NameOf(ls), NameOf(ln)) <==>
             HasPrefix(KeyFor(prefix, NameOf(ln), id), prefix + "/records" + PathOf(NameOf(ls))))
       <==> (PartsStartWith(Reversed(ln) + [Decimal(id)], Reversed(ls)) ==> IsAtOrBelow(ln, ls))
  {
    hide KeyFor, PathOf, Sqlite.SuffixFinds, PartsStartWith, HasPrefix;
    SqliteFinds(ln, ls);
    EscapeLikeIsSubstitution(NameOf(ls));
    EscapeGrows(NameOf(ls));
    SplitName(ls);
    SplitName(ln);
    if NameOf(ln) == NameOf(ls) {
      assert ln == (ln + [""])[..|ln|] && ls == (ls + [""])[..|ls|];
    }
    EtcdFinds(prefix, ln, id, ls);
    if IsAtOrBelow(ln, ls) {
      EtcdNeverMisses(prefix, ln, id, ls);
      if |ls| == |ln| {
        assert ln[0..] == ln;
      }
    }
  }
}
