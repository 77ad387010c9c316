/** The two backends are one store: run side by side they hold the same rows under the same numbers and answer
    alike; and where they do not, exactly when. */
module Backends {
  import opened Strings
  import opened Records
  import opened DynamicRecords
  import opened Store
  import opened Expiry
  import opened Pairing
  import Sqlite
  import opened Etcd
  import EtcdResolver
  import opened Semicolons

  // -------------------------------------------------------------------- runs

  /** A client's step; `at` and `now` are the clock readings the backends make. */
  datatype Step =
    | Set(lines: seq<DynamicRecord>, at: seq<Readings>, now: int)
    | Remove(id: int, now: int)

  /** Batches of permanent records without IDs. */
  predicate PlainStep(step: Step) {
    step.Set? ==>
      Plain(step.lines) && |step.at| == |step.lines| && WellFormedBatch(step.lines)
  }

  /** A step that writes no TXT record with a semicolon. */
  predicate CleanStep(step: Step) {
    step.Set? ==> EtcdResolver.NoSemicolons(step.lines)
  }

  ghost function After(t: Table, step: Step): Table
    requires PlainStep(step)
  {
    match step
    case Set(lines, _, _) => ApplyAll(t, PlainOps(lines))
    case Remove(id, _) => RemoveById(t, id)
  }

  ghost function AfterAll(t: Table, steps: seq<Step>): Table
    requires forall i :: 0 <= i < |steps| ==> PlainStep(steps[i])
  {
    if steps == [] then t else After(AfterAll(t, steps[..|steps| - 1]), steps[|steps| - 1])
  }

  /** Over every run, numbers stay unique and a number once given out never names another row. */
  lemma {:induction false} RunsNeverReuseIds(t: Table, steps: seq<Step>)
    requires forall i :: 0 <= i < |steps| ==> PlainStep(steps[i])
    requires ValidIds(t)
    ensures ValidIds(AfterAll(t, steps)) && t.last <= AfterAll(t, steps).last
    ensures forall k :: k in AfterAll(t, steps).rows && AfterAll(t, steps).rows[k].id <= t.last ==>
              k in t.rows && t.rows[k].id == AfterAll(t, steps).rows[k].id
  {
    if steps != [] {
      var n := |steps| - 1;
      RunsNeverReuseIds(t, steps[..n]);
      var before := AfterAll(t, steps[..n]);
      if steps[n].Set? {
        IdsNeverReused(before, PlainOps(steps[n].lines));
      }
    }
  }

  // ------------------------------------------------------- removing by number

  lemma RemovedFile(files: Files, last: nat, id: nat)
    requires Unique(files) && AllPermanent(files) && id in files
    ensures Unique(files - {id}) && AllPermanent(files - {id}) && (AllSound(files) ==> AllSound(files - {id}))
    ensures TableOf(files - {id}, last) == RemoveById(TableOf(files, last), id)
    ensures HasId(TableOf(files, last), id)
  {
    hide TableOf, Record.Masked, Record.GetTTL;
    TableLast(files, last);
    var t, files' := TableOf(files, last), files - {id};
    forall i | i in files
      ensures files[i].record.Masked() in t.rows && t.rows[files[i].record.Masked()] == RowOfFile(files[i], i)
    {
      TableAt(files, last, i);
    }
    var t' := RemoveById(t, id);
    forall k | k in t'.rows ensures exists i :: i in files' && files'[i].record.Masked() == k {
      var i := FileOfKey(files, last, k);
      assert i in files';
    }
    TableIs(files', last, t');
  }

  lemma FileOfKey(files: Files, last: nat, k: Record) returns (id: nat)
    requires Unique(files) && k in TableOf(files, last).rows
    ensures id in files && files[id].record.Masked() == k && TableOf(files, last).rows[k] == RowOfFile(files[id], id)
  {
    id :| id in files && files[id].record.Masked() == k;
    TableAt(files, last, id);
  }

  lemma NoSuchFile(files: Files, last: nat, id: int)
    requires Unique(files) && (id >= 0 ==> id !in files)
    ensures RemoveById(TableOf(files, last), id) == TableOf(files, last) && !HasId(TableOf(files, last), id)
  {
    var t := TableOf(files, last);
    forall k | k in t.rows ensures t.rows[k].id != id {
      var i := FileOfKey(files, last, k);
    }
    assert RemoveById(t, id).rows == t.rows;
  }

  // --------------------------------------------------------------- side by side

  ghost predicate HoldsSome(files: Files) {
    exists id :: id in files && HoldsSemicolon(files[id].record)
  }

  /** Both backends, started empty, take the same steps, until one fails in etcd. After all the steps taken they hold
      the same rows, numbers and TTLs, which are those of the reference store, and each removal gave the same result. A
      step can fail only once etcd holds a TXT record with a semicolon; without such records all steps are taken. */
  method SideBySide(prefix: string, steps: seq<Step>)
    returns (s: Sqlite.SqliteResolver, e: EtcdResolver.EtcdResolver, taken: nat,
             fromSqlite: seq<RemoveResult>, fromEtcd: seq<RemoveResult>)
    requires forall i :: 0 <= i < |steps| ==> PlainStep(steps[i])
    ensures s.Valid() && e.Valid() && Unique(e.files) && AllPermanent(e.files)
    ensures taken <= |steps| && s.Contents() == AfterAll(EMPTY, steps[..taken])
    ensures if taken == |steps| then e.Contents() == s.Contents() else HoldsSome(e.files)
    ensures fromSqlite == fromEtcd
    ensures (forall i :: 0 <= i < |steps| ==> CleanStep(steps[i])) ==> taken == |steps| && AllSound(e.files)
  {
    hide Sqlite.ValidRows, Sqlite.Meaning, Holds, TableOf, Unique, AllSound, AllPermanent, After, WellFormed, HoldsSome;
    hide CleanStep;
    s := new Sqlite.SqliteResolver();
    e := new EtcdResolver.EtcdResolver(prefix);
    fromSqlite, fromEtcd := [], [];
    EmptyFiles();
    for i := 0 to |steps|
      invariant fresh(s) && fresh(e)
      invariant s.Valid() && e.Valid() && Unique(e.files) && AllPermanent(e.files)
      invariant s.Contents() == AfterAll(EMPTY, steps[..i]) == e.Contents()
      invariant fromSqlite == fromEtcd
      invariant (forall j :: 0 <= j < i ==> CleanStep(steps[j])) ==> AllSound(e.files)
    {
      assert steps[..i + 1][..i] == steps[..i];
      var ok, a, b := Take(s, e, steps[i]);
      if !ok {
        return s, e, i, fromSqlite, fromEtcd;
      }
      fromSqlite, fromEtcd := fromSqlite + a, fromEtcd + b;
    }
    assert steps[..|steps|] == steps;
    taken := |steps|;
  }

  lemma EmptyFiles()
    ensures TableOf(map[], 0) == EMPTY && Unique(map[]) && AllSound(map[]) && AllPermanent(map[])
  {
    TableIs(map[], 0, EMPTY);
  }

  /** One step on both backends; SQLite takes every step, and is not asked where etcd fails. */
  method Take(s: Sqlite.SqliteResolver, e: EtcdResolver.EtcdResolver, step: Step)
    returns (ok: bool, fromSqlite: seq<RemoveResult>, fromEtcd: seq<RemoveResult>)
    requires PlainStep(step)
    requires s.Valid() && e.Valid() && Unique(e.files) && AllPermanent(e.files) && s.Contents() == e.Contents()
    modifies s, e
    ensures s.Valid() && e.Valid() && Unique(e.files) && AllPermanent(e.files)
    ensures ok ==> s.Contents() == After(old(s.Contents()), step) == e.Contents() && fromSqlite == fromEtcd
    ensures !ok ==> s.Contents() == old(s.Contents()) && HoldsSome(e.files)
    ensures AllSound(old(e.files)) && CleanStep(step) ==> ok && AllSound(e.files)
  {
    hide Sqlite.ValidRows, Sqlite.Meaning, Holds, TableOf, WellFormed, Unique, HoldsSemicolon;
    match step {
      case Set(lines, at, now) =>
        PlainBatchOps(lines, at);
        ghost var trace;
        ok, trace := e.SetRecords(lines, now);
        if ok {
          var done := s.SetRecords(lines, at, true);
        } else {
          PermanentUnreadable(e.files, now);
        }
        return ok, [], [];
      case Remove(id, now) =>
        ghost var files := e.files;
        NothingPermanentExpired(files, now);
        var b := e.RemoveRecord(id, now);
        if b.Unreadable? {
          return false, [], [];
        }
        var a := s.RemoveRecord(id);
        if id >= 0 && id in files {
          RemovedFile(files, e.last, id);
        } else {
          NoSuchFile(files, e.last, id);
        }
        return true, [a], [b];
    }
  }

  lemma PermanentUnreadable(files: Files, now: int)
    requires AllPermanent(files) && HasUnreadable(files, now)
    ensures HoldsSome(files)
  {
  }

  lemma NothingPermanentExpired(files: Files, now: int)
    requires AllPermanent(files)
    ensures forall id :: id in files ==> !IsExpired(files[id], now)
  {
  }

  lemma NothingExpired(files: Files, now: int)
    requires AllSound(files)
    ensures forall id :: id in files ==> !IsExpired(files[id], now) && Shown(files[id], now) == files[id].record
  {
  }

  lemma PermanentFile(v: VolatileRecord, now: int)
    requires v.expire == 0
    ensures v.record.Masked().WithTTL(v.record.GetTTL()) == v.record
  {
  }

  lemma RecordOfRow(files: Files, last: nat, id: nat, now: int)
    requires Unique(files) && AllSound(files) && id in files
    ensures var k, t := files[id].record.Masked(), TableOf(files, last);
            k in t.rows && IsVisible(t.rows[k], Unix(now)) &&
            k.WithTTL(ShownTTL(t.rows[k], now)) == Shown(files[id], now) &&
            k.name == files[id].record.name && k.GetQtype() == files[id].record.GetQtype()
  {
    TableAt(files, last, id);
    PermanentFile(files[id], now);
  }

  /** What the etcd backend answers is the answer of the table it stands for. */
  lemma FileAnswerIsAnswer(rs: seq<Record>, ids: seq<nat>, files: Files, last: nat, now: int, name: string, qtype: U16)
    requires Unique(files) && AllSound(files)
    requires EtcdResolver.IsFileAnswer(rs, ids, files, now, name, qtype)
    ensures Sqlite.IsAnswer(rs, TableOf(files, last), now, name, qtype)
  {
    hide Record.Masked, Record.WithTTL, Record.GetQtype, ShownTTL, TableOf, Shown, IsVisible, IsExpired;
    var t := TableOf(files, last);
    NothingExpired(files, now);
    forall id | id in files
      ensures var k := files[id].record.Masked();
              k in t.rows && k.WithTTL(ShownTTL(t.rows[k], now)) == Shown(files[id], now) &&
              (Sqlite.IsAsked(t, now, name, qtype, k) <==> EtcdResolver.IsAskedFile(files, now, name, qtype, id))
    {
      RecordOfRow(files, last, id, now);
    }
    forall i, j | 0 <= i < j < |rs| ensures rs[i] != rs[j] {
      assert ids[i] in files && ids[j] in files;
    }
    forall r | r in rs
      ensures exists k :: Sqlite.IsAsked(t, now, name, qtype, k) && r == k.WithTTL(ShownTTL(t.rows[k], now))
    {
      var i :| 0 <= i < |rs| && rs[i] == r;
      assert ids[i] in ids;
      assert Sqlite.IsAsked(t, now, name, qtype, files[ids[i]].record.Masked());
    }
    forall k | Sqlite.IsAsked(t, now, name, qtype, k) ensures k.WithTTL(ShownTTL(t.rows[k], now)) in rs {
      var id := FileOfKey(files, last, k);
      assert EtcdResolver.IsAskedFile(files, now, name, qtype, id);
      var i :| 0 <= i < |ids| && ids[i] == id;
      assert rs[i] in rs;
    }
  }

  lemma AnswersAreRearrangements(a: seq<Record>, b: seq<Record>, t: Table, now: int, name: string, qtype: U16)
    requires Sqlite.IsAnswer(a, t, now, name, qtype) && Sqlite.IsAnswer(b, t, now, name, qtype)
    ensures multiset(a) == multiset(b)
  {
    hide Record.WithTTL, ShownTTL, Sqlite.IsAsked;
    SameElementsSameMultiset(a, b);
  }

  /** Backends that hold the same rows answer every question with the same records. */
  method Ask(s: Sqlite.SqliteResolver, e: EtcdResolver.EtcdResolver, name: string, qtype: U16, now: int)
    returns (fromSqlite: seq<Record>, fromEtcd: seq<Record>)
    requires s.Valid() && e.Valid() && Unique(e.files) && AllSound(e.files) && s.Contents() == e.Contents()
    ensures multiset(fromSqlite) == multiset(fromEtcd)
    ensures Sqlite.IsAnswer(fromSqlite, s.Contents(), now, name, qtype)
  {
    hide Sqlite.IsAnswer, EtcdResolver.IsFileAnswer, Sqlite.Meaning, TableOf, Holds, Sqlite.ValidRows;
    var a := s.Resolve(name, qtype, now);
    var b, ids := e.Resolve(name, qtype, now);
    FileAnswerIsAnswer(b.value, ids, e.files, e.last, now, name, qtype);
    AnswersAreRearrangements(a.value, b.value, s.Contents(), now, name, qtype);
    return a.value, b.value;
  }

  // ------------------------------------------------------------ volatile lines

  /** After an address is inserted in etcd its row and its PTR row are paired, as they always are in SQLite,
      exactly when the address row is permanent: etcd never makes the PTR row volatile. */
  lemma EtcdPairsPermanentRows(prefix: string, before: (Files, nat), after: (Files, nat), r: DynamicRecord, now: int)
    requires Unique(before.0) && (forall id :: id in before.0 ==> 1 <= id <= before.1)
    requires r.record.Address? && r.id.None? && !r.disabled && LineStep(prefix, before, after, r, now)
    ensures PairedAt(TableOf(after.0, after.1), r.record.Masked()) <==> Volatile(r, now).expire == 0
  {
    hide InsertStep, Unique, TableOf, ReverseRecord;
    var k, ptr := r.record.Masked(), ReverseLine(r, false);
    var mid, midLast :| InsertStep(prefix, before.0, before.1, mid, midLast, r, now) &&
      InsertStep(prefix, mid, midLast, after.0, after.1, ptr, now);
    InsertStepIsPut(prefix, before.0, before.1, mid, midLast, r, now);
    InsertedIds(prefix, before.0, before.1, mid, midLast, r, now);
    InsertStepIsPut(prefix, mid, midLast, after.0, after.1, ptr, now);
    ReverseOfMasked(r.record);
  }

  lemma InsertedIds(prefix: string, files: Files, last: nat, files': Files, last': nat, r: DynamicRecord, now: int)
    requires InsertStep(prefix, files, last, files', last', r, now) && (forall id :: id in files ==> 1 <= id <= last)
    ensures forall id :: id in files' ==> 1 <= id <= last'
  {
    hide IsUnder, Matches;
  }

  // ------------------------------------------------------------ lines with IDs

  /** A number of another row that starts with the digits of `id`. */
  predicate IsLongerId(id: int, other: nat) {
    other != id && HasPrefix(Decimal(other), Itoa(id))
  }

  /** A line's key, when the line has an ID, is a prefix of a file's key exactly when the file's number starts
      with the digits of the line's. */
  lemma UnderById(prefix: string, r: DynamicRecord, v: VolatileRecord, id: nat)
    requires r.id.Some? && r.record.name == v.record.name
    ensures IsUnder(prefix, r, v, id) <==> HasPrefix(Decimal(id), Itoa(r.id.value))
  {
    hide PathOf, Decimal, Itoa;
    var base := prefix + "/records" + PathOf(r.record.name) + "/";
    assert GetKey(prefix, r) == base + Itoa(r.id.value);
    assert FileKey(prefix, v, id) == base + Decimal(id);
    PrefixAfter(base, Decimal(id), Itoa(r.id.value));
  }

  lemma OwnIdIsPrefix(id: nat)
    ensures HasPrefix(Decimal(id), Itoa(id))
  {
  }

  /** Dropping a record by ID does in etcd what it does in SQLite exactly when the record is not filed under a
      longer number that starts with the ID's digits: dropping ID 4 also drops the record under ID 42. */
  lemma DropWithIdAgrees(prefix: string, files: Files, last: nat, files': Files, r: DynamicRecord, now: int)
    requires Unique(files) && AllSound(files) && r.id.Some?
    requires DropStep(prefix, files, files', r, now)
    ensures TableOf(files', last) == Apply(TableOf(files, last), Drop(r.record.Masked(), r.record.GetTTL(), r.id))
       <==> !exists id :: id in files && files[id].record == r.record && IsLongerId(r.id.value, id)
  {
    hide KeysOf, Record.Masked, Record.GetTTL, Decimal, Itoa;
    var k, ttl, t := r.record.Masked(), r.record.GetTTL(), TableOf(files, last);
    forall i | i in files
      ensures Matches(r, files[i], true, now) <==> files[i].record == r.record
      ensures files[i].record == r.record <==> files[i].record.Masked() == k && files[i].record.GetTTL() == ttl
      ensures files[i].record == r.record ==>
        (IsUnder(prefix, r, files[i], i) <==> HasPrefix(Decimal(i), Itoa(r.id.value)))
      ensures files[i].record.Masked() in t.rows && t.rows[files[i].record.Masked()] == RowOfFile(files[i], i)
    {
      EqualRecords(r.record, files[i].record);
      TableAt(files, last, i);
      if files[i].record == r.record {
        UnderById(prefix, r, files[i], i);
      }
    }
    var t' := Apply(t, Drop(k, ttl, r.id));
    if id :| id in files && files[id].record == r.record {
      OwnIdIsPrefix(id);
      forall i | i in files && files[i].record == r.record ensures i == id {
      }
      if HasPrefix(Decimal(id), Itoa(r.id.value)) {
        assert files' == files - {id};
        DroppedTable(files, last, id);
        assert TableOf(files', last) == t.(rows := t.rows - {k});
      } else {
        assert files' == files;
      }
    } else {
      assert files' == files;
      if k in t.rows && t.rows[k].ttl == ttl {
        var i := FileOfKey(files, last, k);
        assert false;
      }
    }
  }

  lemma DroppedTable(files: Files, last: nat, id: nat)
    requires Unique(files) && AllSound(files) && id in files
    ensures var t, k := TableOf(files, last), files[id].record.Masked();
            k in t.rows && TableOf(files - {id}, last) == t.(rows := t.rows - {k})
  {
    hide KeysOf, Record.Masked;
    var t, k, files' := TableOf(files, last), files[id].record.Masked(), files - {id};
    var t' := t.(rows := t.rows - {k});
    forall i | i in files
      ensures files[i].record.Masked() in t.rows && t.rows[files[i].record.Masked()] == RowOfFile(files[i], i)
    {
      TableAt(files, last, i);
    }
    forall j | j in t'.rows ensures exists i :: i in files' && files'[i].record.Masked() == j {
      var i := FileOfKey(files, last, j);
      assert i in files';
    }
    TableIs(files', last, t');
  }

  /** Inserting a line that carries an ID keeps every record filed once exactly when the record is new, or is
      filed under a number that starts with the ID's digits; otherwise etcd files it a second time, where
      SQLite, which ignores the ID, updates the row. */
  lemma InsertWithIdKeepsUnique(prefix: string, files: Files, last: nat, files': Files, last': nat, r: DynamicRecord,
                                now: int)
    requires Unique(files) && r.id.Some? && (forall id :: id in files ==> 1 <= id <= last)
    requires InsertStep(prefix, files, last, files', last', r, now)
    ensures Unique(files') <==> forall id :: id in files && files[id].record.Masked() == r.record.Masked() ==>
                                  HasPrefix(Decimal(id), Itoa(r.id.value))
  {
    hide Record.Masked, Decimal, Itoa, KeysOf, IsUnder, Unique;
    var k, v := r.record.Masked(), Volatile(r, now);
    forall i | i in files && files[i].record.Masked() == k
      ensures IsUnder(prefix, r, files[i], i) <==> HasPrefix(Decimal(i), Itoa(r.id.value))
    {
      EtcdResolver.MatchesSameName(r, files[i], now);
      UnderById(prefix, r, files[i], i);
    }
    var id :| files' == files[id := v] &&
      if id in files then last' == last && IsUnder(prefix, r, files[id], id) && Matches(r, files[id], false, now)
      else id == last' == last + 1 &&
           forall i :: i in files && IsUnder(prefix, r, files[i], i) ==> !Matches(r, files[i], false, now);
    assert v.record.Masked() == k;
    if id in files {
      OverwrittenFile(files, id, v);
    } else {
      AddedFile(files, id, v);
    }
  }

  lemma OverwrittenFile(files: Files, id: nat, v: VolatileRecord)
    requires Unique(files) && id in files && files[id].record.Masked() == v.record.Masked()
    ensures Unique(files[id := v])
    ensures forall i :: i in files && files[i].record.Masked() == v.record.Masked() ==> i == id
  {
    hide Record.Masked;
  }

  lemma AddedFile(files: Files, id: nat, v: VolatileRecord)
    requires Unique(files) && id !in files
    ensures Unique(files[id := v]) <==> forall i :: i in files ==> files[i].record.Masked() != v.record.Masked()
  {
    hide Record.Masked;
    var files' := files[id := v];
    if i :| i in files && files[i].record.Masked() == v.record.Masked() {
      assert i in files' && id in files' && files'[i].record.Masked() == files'[id].record.Masked() && i != id;
    }
  }
}
