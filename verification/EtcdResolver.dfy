/** The methods of EtcdResolver over the key-value store. */
module EtcdResolver {
  import opened Strings
  import opened Records
  import opened DynamicRecords
  import opened Store
  import opened Globs
  import opened CompiledGlobs
  import opened Etcd
  import opened Semicolons

  // ------------------------------------------------------------------ queries

  /** What one file of a query becomes. */
  function ShownFile(v: VolatileRecord, id: nat, now: int): DynamicRecord {
    DynamicRecord(Shown(v, now), Some(id), v.expire > 0, false)
  }

  /** The answer of a listing: the files a condition picks that have not expired, each once, in some order. */
  ghost predicate IsFileListing(rs: seq<DynamicRecord>, files: Files, now: int, p: (nat, VolatileRecord) -> bool) {
    (forall r :: r in rs ==> r.id.Some?) &&
    DistinctIds(rs) &&
    (forall r :: r in rs ==> exists id :: IsPicked(files, now, p, id) && r == ShownFile(files[id], id, now)) &&
    (forall id :: IsPicked(files, now, p, id) ==> ShownFile(files[id], id, now) in rs)
  }

  ghost predicate IsPicked(files: Files, now: int, p: (nat, VolatileRecord) -> bool, id: nat) {
    id in files && !IsExpired(files[id], now) && p(id, files[id])
  }

  /** Files that a query can read: one value that cannot be read makes the whole query fail. */
  ghost predicate Legible(files: Files, p: (nat, VolatileRecord) -> bool) {
    forall id :: id in files && p(id, files[id]) ==> !HoldsSemicolon(files[id].record)
  }

  function Everything(): (nat, VolatileRecord) -> bool {
    (id: nat, v: VolatileRecord) => true
  }

  /** The condition of SearchRecords: a raw prefix of the key, with no regard to label boundaries. */
  function KeyStarts(prefix: string, path: string): (nat, VolatileRecord) -> bool {
    (id: nat, v: VolatileRecord) => HasPrefix(FileKey(prefix, v, id), path)
  }

  function NameMatches(glob: string): (nat, VolatileRecord) -> bool {
    (id: nat, v: VolatileRecord) => RegexpMatches(glob, Fqdn(v.record.name))
  }

  /** What reading the value of a file gives. */
  function ReadBack(v: VolatileRecord, now: int): Outcome<VolatileRecord> {
    if HoldsSemicolon(v.record) then Malformed else if IsExpired(v, now) then Expired else Ok(v)
  }

  /** Inserting a record keeps the store legible exactly when it is no TXT record with a semicolon: after such an
      insert no listing, no question for its name and no removal by number succeeds any more. */
  lemma InsertKeepsLegible(prefix: string, files: Files, last: nat, files': Files, last': nat, r: DynamicRecord,
                           now: int)
    requires Legible(files, Everything()) && InsertStep(prefix, files, last, files', last', r, now)
    ensures Legible(files', Everything()) <==> !HoldsSemicolon(r.record)
    ensures HoldsSemicolon(r.record) ==>
      !Legible(files', KeyStarts(prefix, prefix + "/records" + PathOf(r.record.name)))
  {
    hide IsUnder, Matches, PathOf, HoldsSemicolon, HasPrefix, FileKey;
    var v := Volatile(r, now);
    var id :| files' == files[id := v];
    assert id in files' && files'[id] == v && Everything()(id, v);
    NameKeyStarts(prefix, v, id, r.record.name);
    assert KeyStarts(prefix, prefix + "/records" + PathOf(r.record.name))(id, v);
  }

  lemma FileValue(kv: map<string, string>, prefix: string, files: Files, last: nat, key: string, now: int)
    returns (id: nat)
    requires Holds(kv, prefix, files, last) && key in kv && HasPrefix(key, prefix + "/records/")
    ensures id in files && key == FileKey(prefix, files[id], id) && GetIdByKey(key) == Some(id)
    ensures WellFormed(files[id].record) && IsFile(kv, prefix, files[id], id)
    ensures Unmarshal(kv[key], now) == ReadBack(files[id], now)
    ensures !IsExpired(files[id], now) ==> Current(files[id], now) == Ok(Shown(files[id], now))
  {
    hide WellFormed, Marshal, KeyFor, Unmarshal, Text, NewRecord, HoldsSemicolon;
    id :| id in files && key == FileKey(prefix, files[id], id);
    assert IsFile(kv, prefix, files[id], id);
    UnmarshalMarshal(files[id], now);
    IdOfKey(prefix, files[id].record.name, id);
    CurrentUnlessExpired(files[id], now);
  }

  ghost predicate Rejects(prefix: string, files: Files, r: DynamicRecord, withTTL: bool, now: int, key: string) {
    forall id :: id in files && FileKey(prefix, files[id], id) == key ==> !Matches(r, files[id], withTTL, now)
  }

  /** What findKey learns from one key. */
  lemma ReadValue(kv: map<string, string>, prefix: string, files: Files, last: nat, key: string,
                  r: DynamicRecord, withTTL: bool, now: int) returns (id: nat)
    requires Holds(kv, prefix, files, last) && key in kv && HasPrefix(key, prefix + "/records/") && WellFormed(r.record)
    ensures id in files && key == FileKey(prefix, files[id], id) && GetIdByKey(key) == Some(id)
    ensures Unmarshal(kv[key], now) == ReadBack(files[id], now)
    ensures !IsExpired(files[id], now) ==> Current(files[id], now) == Ok(Shown(files[id], now))
    ensures Matches(r, files[id], withTTL, now) <==>
              if withTTL then Text(r.record) == Text(Shown(files[id], now))
              else WithoutTTL(r.record) == WithoutTTL(Shown(files[id], now))
    ensures !Matches(r, files[id], withTTL, now) ==> Rejects(prefix, files, r, withTTL, now, key)
  {
    hide Holds, FileKey, Unmarshal, Current, Text, NewRecord, Shown, Matches, GetIdByKey, WellFormed, WithoutTTL,
      HoldsSemicolon;
    id := FileValue(kv, prefix, files, last, key, now);
    TextMatches(r, files[id], withTTL, now);
    forall other | other in files && FileKey(prefix, files[other], other) == key ensures other == id {
      FileKeysDiffer(prefix, files[other], other, files[id], id);
    }
  }

  /** When every key under the record's own rejects it, so does every file there. */
  lemma AllRejected(kv: map<string, string>, prefix: string, files: Files, last: nat, kvs: seq<KeyValue>,
                    r: DynamicRecord, withTTL: bool, now: int)
    requires Holds(kv, prefix, files, last)
    requires forall key :: key in kv && HasPrefix(key, GetKey(prefix, r)) ==> KeyValue(key, kv[key]) in kvs
    requires forall i :: 0 <= i < |kvs| ==> Rejects(prefix, files, r, withTTL, now, kvs[i].key)
    ensures forall id :: id in files && IsUnder(prefix, r, files[id], id) ==> !Matches(r, files[id], withTTL, now)
  {
    hide WellFormed, Marshal, FileKey, Matches, GetKey;
    forall id | id in files && IsUnder(prefix, r, files[id], id) ensures !Matches(r, files[id], withTTL, now) {
      assert IsFile(kv, prefix, files[id], id);
      var key := FileKey(prefix, files[id], id);
      var i :| 0 <= i < |kvs| && kvs[i] == KeyValue(key, kv[key]);
      assert Rejects(prefix, files, r, withTTL, now, kvs[i].key);
    }
  }

  /** The files that a query's keys are those of, in their order. */
  lemma FilesOfKeys(kv: map<string, string>, prefix: string, files: Files, last: nat, kvs: seq<KeyValue>,
                    p: (nat, VolatileRecord) -> bool) returns (ids: seq<nat>)
    requires Holds(kv, prefix, files, last)
    requires forall x :: x in kvs ==> x.key in kv && HasPrefix(x.key, prefix + "/records/") && x.value == kv[x.key]
    requires forall i, j :: 0 <= i < j < |kvs| ==> kvs[i].key != kvs[j].key
    requires forall id :: id in files ==>
      (p(id, files[id]) <==> KeyValue(FileKey(prefix, files[id], id), Marshal(files[id])) in kvs)
    ensures |ids| == |kvs| && forall i :: 0 <= i < |ids| ==>
      ids[i] in files && kvs[i].key == FileKey(prefix, files[ids[i]], ids[i])
    ensures forall i, j :: 0 <= i < j < |ids| ==> ids[i] != ids[j]
    ensures forall id :: id in ids <==> id in files && p(id, files[id])
  {
    hide FileKey, Marshal, Holds, Unmarshal, WellFormed, Current, Shown, IsExpired, GetIdByKey;
    ids := [];
    for i := 0 to |kvs|
      invariant |ids| == i && forall k :: 0 <= k < i ==>
        ids[k] in files && kvs[k] == KeyValue(FileKey(prefix, files[ids[k]], ids[k]), Marshal(files[ids[k]]))
    {
      assert kvs[i] in kvs;
      var id := FileValue(kv, prefix, files, last, kvs[i].key, 0);
      ids := ids + [id];
    }
    forall id | id in files && p(id, files[id]) ensures id in ids {
      var k :| 0 <= k < |kvs| && kvs[k] == KeyValue(FileKey(prefix, files[id], id), Marshal(files[id]));
      FileKeysDiffer(prefix, files[id], id, files[ids[k]], ids[k]);
    }
  }

  lemma ValueOfFile(kv: map<string, string>, prefix: string, files: Files, last: nat, key: string, id: nat, now: int)
    requires Holds(kv, prefix, files, last) && key in kv && HasPrefix(key, prefix + "/records/")
    requires id in files && key == FileKey(prefix, files[id], id)
    ensures GetIdByKey(key) == Some(id) && Unmarshal(kv[key], now) == ReadBack(files[id], now)
    ensures !IsExpired(files[id], now) ==> Current(files[id], now) == Ok(Shown(files[id], now))
  {
    hide Holds, FileKey, Unmarshal, Current, Shown, GetIdByKey, WellFormed, HoldsSemicolon, IsExpired;
    var other := FileValue(kv, prefix, files, last, key, now);
    FileKeysDiffer(prefix, files[id], id, files[other], other);
  }

  /** What a query shows of some files: the unexpired ones, in their order. */
  ghost function ShownFiles(files: Files, ids: seq<nat>, now: int): seq<DynamicRecord>
    requires forall id :: id in ids ==> id in files
  {
    if ids == [] then []
    else
      var id, front := ids[|ids| - 1], ShownFiles(files, ids[..|ids| - 1], now);
      if IsExpired(files[id], now) then front else front + [ShownFile(files[id], id, now)]
  }

  lemma {:induction false} ShownFilesHold(files: Files, ids: seq<nat>, now: int)
    requires forall id :: id in ids ==> id in files
    ensures forall r :: r in ShownFiles(files, ids, now) <==>
              exists id :: id in ids && !IsExpired(files[id], now) && r == ShownFile(files[id], id, now)
  {
    hide Shown, IsExpired;
    if ids != [] {
      var n := |ids| - 1;
      ShownFilesHold(files, ids[..n], now);
      assert forall id :: id in ids <==> id in ids[..n] || id == ids[n];
    }
  }

  predicate DistinctIds(rs: seq<DynamicRecord>) {
    forall i, j :: 0 <= i < j < |rs| ==> rs[i].id != rs[j].id
  }

  lemma {:induction false} ShownFilesDiffer(files: Files, ids: seq<nat>, now: int)
    requires (forall id :: id in ids ==> id in files) && forall i, j :: 0 <= i < j < |ids| ==> ids[i] != ids[j]
    ensures DistinctIds(ShownFiles(files, ids, now))
  {
    hide Shown, IsExpired;
    if ids != [] {
      var n := |ids| - 1;
      ShownFilesDiffer(files, ids[..n], now);
      ShownFilesHold(files, ids[..n], now);
      var front := ShownFiles(files, ids[..n], now);
      forall i | 0 <= i < |front| ensures front[i].id != Some(ids[n]) {
        assert front[i] in front;
        var id :| id in ids[..n] && front[i] == ShownFile(files[id], id, now);
      }
    }
  }

  lemma ShownFilesListed(files: Files, ids: seq<nat>, now: int, p: (nat, VolatileRecord) -> bool)
    requires forall i, j :: 0 <= i < j < |ids| ==> ids[i] != ids[j]
    requires forall id :: id in ids <==> id in files && p(id, files[id])
    ensures IsFileListing(ShownFiles(files, ids, now), files, now, p)
  {
    hide Shown, IsExpired, ShownFiles;
    ShownFilesHold(files, ids, now);
    ShownFilesDiffer(files, ids, now);
    forall r | r in ShownFiles(files, ids, now)
      ensures exists id :: IsPicked(files, now, p, id) && r == ShownFile(files[id], id, now)
    {
      var id :| id in ids && !IsExpired(files[id], now) && r == ShownFile(files[id], id, now);
      assert IsPicked(files, now, p, id);
    }
  }

  lemma KeyPrefixUnderRecords(prefix: string, r: DynamicRecord)
    ensures HasPrefix(GetKey(prefix, r), prefix + "/records/")
  {
    hide Decimal, Itoa;
    var path := prefix + "/records" + PathOf(r.record.name);
    PathUnderRecords(prefix, r.record.name);
    if r.id.Some? {
      assert GetKey(prefix, r) == path + ("/" + Itoa(r.id.value));
    }
  }

  lemma PathUnderRecords(prefix: string, name: Domain)
    ensures HasPrefix(prefix + "/records" + PathOf(name), prefix + "/records/")
  {
    var tail := Join(Reversed(Labels(name)), "/");
    assert PathOf(name) == "/" + tail;
    assert prefix + "/records" + PathOf(name) == (prefix + "/records/") + tail;
  }

  class EtcdResolver {
    const prefix: string
    var kv: map<string, string>
    ghost var files: Files
    ghost var last: nat

    ghost predicate Valid()
      reads this
    {
      Holds(kv, prefix, files, last)
    }

    ghost function Contents(): Table
      reads this
    {
      TableOf(files, last)
    }

    /** A store without keys. */
    constructor (prefix: string)
      ensures Valid() && files == map[] && last == 0 && this.prefix == prefix
    {
      this.prefix := prefix;
      kv := map[];
      files := map[];
      last := 0;
    }

    // --------------------------------------------------------- the key-value store

    /** Get with WithPrefix, in an order of the store's choosing. */
    method GetPrefix(start: string) returns (kvs: seq<KeyValue>)
      ensures forall x :: x in kvs ==> x.key in kv && HasPrefix(x.key, start) && x.value == kv[x.key]
      ensures forall key :: key in kv && HasPrefix(key, start) ==> KeyValue(key, kv[key]) in kvs
      ensures forall i, j :: 0 <= i < j < |kvs| ==> kvs[i].key != kvs[j].key
    {
      kvs := [];
      var rest := set key | key in kv && HasPrefix(key, start);
      while rest != {}
        invariant forall key :: key in rest ==> key in kv && HasPrefix(key, start)
        invariant forall x :: x in kvs ==>
                    x.key in kv && HasPrefix(x.key, start) && x.value == kv[x.key] && x.key !in rest
        invariant forall key :: key in kv && HasPrefix(key, start) && key !in rest ==> KeyValue(key, kv[key]) in kvs
        invariant forall i, j :: 0 <= i < j < |kvs| ==> kvs[i].key != kvs[j].key
        decreases |rest|
      {
        var key :| key in rest;
        rest := rest - {key};
        assert forall i :: 0 <= i < |kvs| ==> kvs[i] in kvs;
        kvs := kvs + [KeyValue(key, kv[key])];
      }
    }

    // ------------------------------------------------------------- changing records

    method MakeKey(r: DynamicRecord) returns (id: nat, key: string)
      requires Valid()
      modifies this
      ensures Valid() && files == old(files) && id == last == old(last) + 1
      ensures key == KeyFor(prefix, r.record.name, id)
    {
      hide PathOf, Decimal, ParseInt, WellFormed, Marshal;
      var before := 0;
      if prefix + "/lastID" in kv {
        ItoaParseInt(last);
        before := ParseInt(kv[prefix + "/lastID"]).value;
      }
      PutLastId(kv, prefix, files, last);
      id := before + 1;
      kv := kv[prefix + "/lastID" := Itoa(id)];
      last := last + 1;
      key := GetKey(prefix, r.(id := Some(id)));
    }

    /** findKey: the first file under the record's key that matches; a file that cannot be read stops the search. */
    method FindKey(r: DynamicRecord, withTTL: bool, now: int) returns (f: Finding)
      requires Valid() && WellFormed(r.record)
      ensures f.Found? ==> f.id in files && f.key == FileKey(prefix, files[f.id], f.id) &&
                           IsUnder(prefix, r, files[f.id], f.id) && Matches(r, files[f.id], withTTL, now)
      ensures f.NotFound? ==> forall id :: id in files && IsUnder(prefix, r, files[id], id) ==>
                                !Matches(r, files[id], withTTL, now)
      ensures f.Failed? ==> HasUnreadableUnder(prefix, r, files, now)
    {
      hide Holds, Text, NewRecord, WellFormed, Unmarshal, Current, FileKey, GetKey, Shown, Matches, GetIdByKey;
      hide WithoutTTL;
      var start := GetKey(prefix, r);
      var kvs := GetPrefix(start);
      KeyPrefixUnderRecords(prefix, r);
      for i := 0 to |kvs|
        invariant forall j :: 0 <= j < i ==> Rejects(prefix, files, r, withTTL, now, kvs[j].key)
      {
        var x := kvs[i];
        assert x in kvs;
        PrefixTransitive(x.key, start, prefix + "/records/");
        ghost var id := ReadValue(kv, prefix, files, last, x.key, r, withTTL, now);
        var v := Unmarshal(x.value, now);
        assert IsUnder(prefix, r, files[id], id);
        if !v.Ok? {
          return Failed;
        }
        var rec := Current(v.value, now);
        if !rec.Ok? {
          return Failed;
        }
        if (withTTL && Text(r.record) != Text(rec.value)) ||
           (!withTTL && WithoutTTL(r.record) != WithoutTTL(rec.value)) {
          continue;
        }
        var found := GetIdByKey(x.key);
        return Found(found.value, x.key);
      }
      AllRejected(kv, prefix, files, last, kvs, r, withTTL, now);
      return NotFound;
    }

    method InsertSingleRecord(r: DynamicRecord, now: int) returns (ok: bool)
      requires Valid() && WellFormed(r.record)
      modifies this
      ensures Valid()
      ensures ok ==> InsertStep(prefix, old(files), old(last), files, last, r, now)
      ensures !ok ==> files == old(files) && last == old(last) && HasUnreadable(files, now)
    {
      hide Text, NewRecord, WellFormed, KeyFor, GetKey, Shown, Matches, IsUnder;
      var f := FindKey(r, false, now);
      if f.Failed? {
        return false;
      }
      var id, key := 0, "";
      if f.Found? {
        id, key := f.id, f.key;
        MatchesSameName(r, files[id], now);
      } else {
        id, key := MakeKey(r);
      }
      var v := Volatile(r, now);
      VolatileFields(r, now);
      PutFile(kv, prefix, files, last, id, v);
      kv := kv[key := Marshal(v)];
      files := files[id := v];
      assert InsertStep(prefix, old(files), old(last), files, last, r, now);
      return true;
    }

    method InsertRecord(r: DynamicRecord, now: int) returns (ok: bool)
      requires Valid() && WellFormed(r.record)
      modifies this
      ensures Valid()
      ensures ok && !r.record.Address? ==> InsertStep(prefix, old(files), old(last), files, last, r, now)
      ensures ok && r.record.Address? ==> exists mid, midLast ::
                InsertStep(prefix, old(files), old(last), mid, midLast, r, now) &&
                InsertStep(prefix, mid, midLast, files, last, ReverseLine(r, false), now)
      ensures !ok ==> HasUnreadable(files, now)
      ensures !ok ==> (files == old(files) && last == old(last)) ||
                      (r.record.Address? && InsertStep(prefix, old(files), old(last), files, last, r, now))
    {
      hide WellFormed, InsertStep, ReverseRecord, HasUnreadable;
      ok := InsertSingleRecord(r, now);
      if !ok {
        return;
      }
      if r.record.Address? {
        var ptr := DynamicRecord(ReverseRecord(r.record), None, false, false);
        assert ptr == ReverseLine(r, false);
        ReverseRecordWellFormed(r.record);
        ok := InsertSingleRecord(ptr, now);
      }
    }

    method DropRecord(r: DynamicRecord, now: int) returns (ok: bool)
      requires Valid() && WellFormed(r.record)
      modifies this
      ensures Valid() && last == old(last)
      ensures ok && !r.record.Address? ==> DropStep(prefix, old(files), files, r, now)
      ensures ok && r.record.Address? ==> exists mid ::
                DropStep(prefix, old(files), mid, r, now) &&
                DropStep(prefix, mid, files, ReverseLine(r, r.volatile), now)
      ensures !ok ==> HasUnreadable(files, now)
      ensures !ok ==> files == old(files) || (r.record.Address? && DropStep(prefix, old(files), files, r, now))
      ensures forall id :: id in files ==> id in old(files) && files[id] == old(files)[id]
      decreases r.record.Address?
    {
      hide Text, NewRecord, WellFormed, KeyFor, GetKey, Shown, Matches, IsUnder, ReverseRecord;
      var f := FindKey(r, true, now);
      if f.Failed? {
        return false;
      }
      if f.Found? {
        DeleteFile(kv, prefix, files, last, f.id);
        kv := kv - {f.key};
        files := files - {f.id};
      }
      assert DropStep(prefix, old(files), files, r, now);
      if !r.record.Address? {
        return true;
      }
      var ptr := DynamicRecord(ReverseRecord(r.record), None, r.volatile, false);
      assert ptr == ReverseLine(r, r.volatile);
      ReverseRecordWellFormed(r.record);
      ok := DropRecord(ptr, now);
    }

    /** The body of the loop of SetRecords. */
    method SetRecord(r: DynamicRecord, now: int) returns (ok: bool)
      requires Valid() && WellFormed(r.record)
      modifies this
      ensures Valid()
      ensures ok ==> LineStep(prefix, (old(files), old(last)), (files, last), r, now)
      ensures !ok ==> HasUnreadable(files, now) && HalfStep(prefix, (old(files), old(last)), (files, last), r, now)
      ensures Unique(old(files)) && AllPermanent(old(files)) && !r.volatile && r.id.None? ==>
                Unique(files) && AllPermanent(files) &&
                (ok ==> Contents() == ApplyAll(old(Contents()), LineOps(r, MIDNIGHT))) &&
                (AllSound(old(files)) && !HoldsSemicolon(r.record) ==> ok && AllSound(files))
    {
      hide InsertStep, DropStep, TableOf, WellFormed, LineOps, HasUnreadable, Unique;
      if r.disabled {
        ok := DropRecord(r, now);
      } else {
        ok := InsertRecord(r, now);
      }
      if Unique(old(files)) && AllPermanent(old(files)) && !r.volatile && r.id.None? {
        if r.disabled {
          DroppedLine(prefix, old(files), old(last), files, r, now, ok);
        } else {
          InsertedLine(prefix, old(files), old(last), files, last, r, now, ok);
        }
      }
    }

    /** SetRecords: every line in turn; a failed line leaves what earlier lines did, and perhaps half of its own. On a
        permanent store a permanent batch without IDs that does not fail does what it does to the reference store, and
        it cannot fail where neither the store nor the batch has a TXT record with a semicolon. */
    method SetRecords(rs: seq<DynamicRecord>, now: int) returns (ok: bool, ghost trace: seq<(Files, nat)>)
      requires Valid() && WellFormedBatch(rs)
      modifies this
      ensures Valid()
      ensures ok ==> |trace| == |rs| + 1 && trace[0] == (old(files), old(last)) && trace[|rs|] == (files, last)
      ensures ok ==> forall i :: 0 <= i < |rs| ==> LineStep(prefix, trace[i], trace[i + 1], rs[i], now)
      ensures !ok ==> HasUnreadable(files, now) && 1 <= |trace| <= |rs| && trace[0] == (old(files), old(last))
      ensures !ok ==> forall i :: 0 <= i < |trace| - 1 ==> LineStep(prefix, trace[i], trace[i + 1], rs[i], now)
      ensures !ok ==> HalfStep(prefix, trace[|trace| - 1], (files, last), rs[|trace| - 1], now)
      ensures Unique(old(files)) && AllPermanent(old(files)) && Plain(rs) ==>
                Unique(files) && AllPermanent(files) &&
                (ok ==> Contents() == ApplyAll(old(Contents()), PlainOps(rs))) &&
                (AllSound(old(files)) && NoSemicolons(rs) ==> ok && AllSound(files))
    {
      hide LineStep, HalfStep, WellFormed, HoldsSemicolon, TableOf, LineOps, HasUnreadable, Unique, AllPermanent, Holds;
      hide AllSound;
      ghost var plain := Unique(files) && AllPermanent(files) && Plain(rs);
      ghost var sound := plain && AllSound(files) && NoSemicolons(rs);
      trace := [(files, last)];
      NoLines();
      for i := 0 to |rs|
        invariant Valid()
        invariant |trace| == i + 1 && trace[0] == (old(files), old(last)) && trace[i] == (files, last)
        invariant forall j :: 0 <= j < i ==> LineStep(prefix, trace[j], trace[j + 1], rs[j], now)
        invariant plain ==> Unique(files) && AllPermanent(files) && Plain(rs[..i])
        invariant sound ==> AllSound(files)
        invariant plain ==> Contents() == ApplyAll(old(Contents()), PlainOps(rs[..i]))
      {
        ok := SetRecord(rs[i], now);
        if plain {
          PlainPrefix(rs, i);
          ApplyAllAppend(old(Contents()), PlainOps(rs[..i]), LineOps(rs[i], MIDNIGHT));
        }
        if !ok {
          return;
        }
        trace := trace + [(files, last)];
      }
      assert rs[..|rs|] == rs;
      ok := true;
    }

    // ------------------------------------------------------------------ reading

    /** readResponses: expired values are passed over, any other unreadable value is an error. */
    method ReadResponses(kvs: seq<KeyValue>, now: int, ghost p: (nat, VolatileRecord) -> bool)
      returns (r: Outcome<seq<DynamicRecord>>)
      requires Valid()
      requires forall x :: x in kvs ==> x.key in kv && HasPrefix(x.key, prefix + "/records/") && x.value == kv[x.key]
      requires forall i, j :: 0 <= i < j < |kvs| ==> kvs[i].key != kvs[j].key
      requires forall id :: id in files ==>
        (p(id, files[id]) <==> KeyValue(FileKey(prefix, files[id], id), Marshal(files[id])) in kvs)
      ensures if Legible(files, p) then r.Ok? && IsFileListing(r.value, files, now, p) else r.Malformed?
    {
      hide Text, NewRecord, WellFormed, Unmarshal, Current, FileKey, Shown, GetIdByKey, IsExpired, Marshal, Holds;
      hide HoldsSemicolon, IsFileListing, HasPrefix, IsPicked;
      ghost var ids := FilesOfKeys(kv, prefix, files, last, kvs, p);
      var rs: seq<DynamicRecord> := [];
      for i := 0 to |kvs|
        invariant rs == ShownFiles(files, ids[..i], now)
        invariant forall k :: 0 <= k < i ==> !HoldsSemicolon(files[ids[k]].record)
      {
        var x := kvs[i];
        ValueOfFile(kv, prefix, files, last, x.key, ids[i], now);
        assert ids[..i + 1][..i] == ids[..i];
        match Unmarshal(x.value, now) {
          case Expired =>
            continue;
          case Malformed =>
            assert HoldsSemicolon(files[ids[i]].record) && ids[i] in ids;
            return Malformed;
          case Ok(v) =>
            var rec := Current(v, now);
            if !rec.Ok? {
              return Malformed;
            }
            var key := GetIdByKey(x.key);
            rs := rs + [DynamicRecord(rec.value, key, v.expire > 0, false)];
        }
      }
      assert ids[..|kvs|] == ids;
      ShownFilesListed(files, ids, now, p);
      return Ok(rs);
    }

    /** Get under a path, then readResponses. */
    method ReadPrefix(start: string, now: int) returns (r: Outcome<seq<DynamicRecord>>)
      requires Valid() && HasPrefix(start, prefix + "/records/")
      ensures var p := KeyStarts(prefix, start);
              if Legible(files, p) then r.Ok? && IsFileListing(r.value, files, now, p) else r.Malformed?
    {
      hide Text, NewRecord, WellFormed, KeyFor, Marshal;
      var kvs := GetPrefix(start);
      forall x | x in kvs ensures HasPrefix(x.key, prefix + "/records/") {
        PrefixTransitive(x.key, start, prefix + "/records/");
      }
      forall id | id in files
        ensures KeyStarts(prefix, start)(id, files[id]) <==>
                KeyValue(FileKey(prefix, files[id], id), Marshal(files[id])) in kvs
      {
        assert IsFile(kv, prefix, files[id], id);
      }
      r := ReadResponses(kvs, now, KeyStarts(prefix, start));
    }

    method AllRecords(now: int) returns (r: Outcome<seq<DynamicRecord>>)
      requires Valid()
      ensures if Legible(files, Everything()) then r.Ok? && IsFileListing(r.value, files, now, Everything())
              else r.Malformed?
    {
      hide Text, NewRecord, WellFormed, KeyFor, Marshal, Shown, IsExpired;
      var start := prefix + "/records/";
      r := ReadPrefix(start, now);
      forall id | id in files ensures KeyStarts(prefix, start)(id, files[id]) {
        KeyUnderRecords(prefix, files[id].record.name, id);
      }
      assert forall id ::
          IsPicked(files, now, Everything(), id) <==> IsPicked(files, now, KeyStarts(prefix, start), id);
    }

    method SearchRecords(d: Domain, now: int) returns (r: Outcome<seq<DynamicRecord>>)
      requires Valid()
      ensures var p := KeyStarts(prefix, prefix + "/records" + PathOf(d));
              if Legible(files, p) then r.Ok? && IsFileListing(r.value, files, now, p) else r.Malformed?
    {
      var path := ToPath(d);
      PathUnderRecords(prefix, d);
      r := ReadPrefix(prefix + "/records" + path, now);
    }

    method GlobRecords(glob: string, now: int) returns (r: Outcome<seq<DynamicRecord>>)
      requires Valid()
      ensures if Compiled(glob).Some? && Legible(files, Everything())
              then r.Ok? && IsFileListing(r.value, files, now, NameMatches(glob))
              else r.Malformed?
    {
      hide Holds, IsExpired, Compiled, RegexpMatches, IsFileListing, Fqdn, Legible;
      if Compiled(glob).None? {
        return Malformed;
      }
      var all := AllRecords(now);
      if !all.Ok? {
        return Malformed;
      }
      ListingIds(all.value, files, now, Everything());
      var rs: seq<DynamicRecord> := [];
      for i := 0 to |all.value|
        invariant forall x :: x in rs <==> x in all.value[..i] && RegexpMatches(glob, Fqdn(x.record.name))
        invariant forall j, k :: 0 <= j < k < |rs| ==> rs[j].id != rs[k].id
      {
        var x := all.value[i];
        assert all.value[..i + 1] == all.value[..i] + [x];
        if RegexpMatches(glob, Fqdn(x.record.name)) {
          forall j | 0 <= j < |rs| ensures rs[j].id != x.id {
            assert rs[j] in rs;
            var k :| 0 <= k < i && all.value[..i][k] == rs[j];
            assert all.value[k] == rs[j];
          }
          rs := rs + [x];
        }
      }
      assert all.value[..|all.value|] == all.value;
      FilteredListing(all.value, rs, files, now, glob);
      return Ok(rs);
    }

    method GetRecord(id: int, now: int) returns (r: Outcome<seq<DynamicRecord>>)
      requires Valid()
      ensures r == if !Legible(files, Everything()) then Malformed
                   else if id >= 0 && IsPicked(files, now, Everything(), id) then Ok([ShownFile(files[id], id, now)])
                   else Ok([])
    {
      hide Holds, Shown, IsExpired, IsFileListing, Legible;
      var all := AllRecords(now);
      if !all.Ok? {
        return Malformed;
      }
      for i := 0 to |all.value|
        invariant forall j :: 0 <= j < i ==> all.value[j].id != Some(id)
      {
        if all.value[i].id == Some(id) {
          ghost var n := ListedFile(all.value, files, now, Everything(), i);
          return Ok([all.value[i]]);
        }
      }
      NotListed(all.value, files, now, Everything(), id);
      return Ok([]);
    }

    /** RemoveRecord: the key is made again from the record that was read, and is the key it was read from. */
    method RemoveRecord(id: int, now: int) returns (result: RemoveResult)
      requires Valid()
      modifies this
      ensures Valid() && last == old(last)
      ensures var found := id >= 0 && IsPicked(old(files), now, Everything(), id);
              if !Legible(old(files), Everything()) then result == Unreadable && files == old(files)
              else if found then result == Removed && files == old(files) - {id as nat}
              else result == NoSuchRecord && files == old(files)
    {
      hide Holds, Shown, IsExpired, IsFileListing, GetKey, FileKey, Legible;
      var all := AllRecords(now);
      if !all.Ok? {
        return Unreadable;
      }
      for i := 0 to |all.value|
        invariant forall j :: 0 <= j < i ==> all.value[j].id != Some(id)
        invariant Valid() && files == old(files) && last == old(last)
      {
        var r := all.value[i];
        if r.id == Some(id) {
          ghost var n := ListedFile(all.value, files, now, Everything(), i);
          KeyMadeAgain(prefix, files[n], n, now);
          DeleteFile(kv, prefix, files, last, n);
          kv := kv - {GetKey(prefix, r)};
          files := files - {n};
          return Removed;
        }
      }
      NotListed(all.value, files, now, Everything(), id);
      return NoSuchRecord;
    }

    /** Resolve: the prefix search and the filter together are a scan of all files for the name and the type. */
    method Resolve(name: string, qtype: U16, now: int) returns (r: Outcome<seq<Record>>, ghost ids: seq<nat>)
      requires Valid()
      ensures if Legible(files, KeyStarts(prefix, prefix + "/records" + PathOf(name)))
              then r.Ok? && IsFileAnswer(r.value, ids, files, now, name, qtype) else r.Malformed?
    {
      hide Holds, IsExpired, IsFileListing, Record.GetQtype, Shown, PathOf, Legible;
      var found := SearchRecords(name, now);
      if !found.Ok? {
        ids := [];
        return Malformed, ids;
      }
      ghost var p := KeyStarts(prefix, prefix + "/records" + PathOf(name));
      var rs: seq<Record> := [];
      ids := [];
      ListingIds(found.value, files, now, p);
      for i := 0 to |found.value|
        invariant |rs| == |ids| && NoDuplicates(ids)
        invariant forall j :: 0 <= j < |ids| ==>
          IsAskedFile(files, now, name, qtype, ids[j]) && rs[j] == Shown(files[ids[j]], now)
        invariant forall j :: 0 <= j < |ids| ==> exists k :: 0 <= k < i && found.value[k].id == Some(ids[j])
        invariant forall k :: 0 <= k < i ==> IsAskedFile(files, now, name, qtype, found.value[k].id.value) ==>
          found.value[k].id.value in ids
      {
        var rec := found.value[i];
        ghost var id := ListedFile(found.value, files, now, p, i);
        ShownNameAndType(files[id], now);
        if rec.record.name == name && rec.record.GetQtype() == qtype {
          rs := rs + [rec.record];
          ids := ids + [id];
        }
      }
      forall id: nat | IsAskedFile(files, now, name, qtype, id) ensures id in ids {
        NameKeyStarts(prefix, files[id], id, name);
        assert IsPicked(files, now, p, id);
        if forall j :: 0 <= j < |found.value| ==> found.value[j].id != Some(id) {
          NotListed(found.value, files, now, p, id);
        }
      }
      r := Ok(rs);
    }
  }

  /** The answer to a question, with the files it comes from: every unexpired file of that name and type, once. */
  ghost predicate IsFileAnswer(rs: seq<Record>, ids: seq<nat>, files: Files, now: int, name: string, qtype: U16) {
    |rs| == |ids| && NoDuplicates(ids) &&
    (forall id :: id in ids <==> IsAskedFile(files, now, name, qtype, id)) &&
    (forall i :: 0 <= i < |ids| ==> ids[i] in files && rs[i] == Shown(files[ids[i]], now))
  }

  lemma ListedFile(rs: seq<DynamicRecord>, files: Files, now: int, p: (nat, VolatileRecord) -> bool, i: nat)
    returns (id: nat)
    requires IsFileListing(rs, files, now, p) && i < |rs|
    ensures IsPicked(files, now, p, id) && rs[i] == ShownFile(files[id], id, now) && rs[i].id == Some(id)
  {
    hide Shown, IsExpired;
    assert rs[i] in rs;
    id :| IsPicked(files, now, p, id) && rs[i] == ShownFile(files[id], id, now);
  }

  lemma NotListed(rs: seq<DynamicRecord>, files: Files, now: int, p: (nat, VolatileRecord) -> bool, id: int)
    requires IsFileListing(rs, files, now, p)
    requires forall i :: 0 <= i < |rs| ==> rs[i].id != Some(id)
    ensures id >= 0 ==> !IsPicked(files, now, p, id)
  {
    hide Shown, IsExpired;
    if id >= 0 && IsPicked(files, now, p, id) {
      assert false;
    }
  }

  lemma ListingIds(rs: seq<DynamicRecord>, files: Files, now: int, p: (nat, VolatileRecord) -> bool)
    requires IsFileListing(rs, files, now, p)
    ensures forall i :: 0 <= i < |rs| ==> rs[i].id.Some? && rs[i].id.value >= 0
    ensures forall i, j :: 0 <= i < j < |rs| ==> rs[i].id != rs[j].id
  {
    hide Shown, IsExpired;
    forall i | 0 <= i < |rs| ensures rs[i].id.Some? && rs[i].id.value >= 0 {
      var id := ListedFile(rs, files, now, p, i);
    }
  }

  lemma KeyMadeAgain(prefix: string, v: VolatileRecord, id: nat, now: int)
    ensures GetKey(prefix, ShownFile(v, id, now)) == FileKey(prefix, v, id)
  {
    hide PathOf, Decimal;
    ShownNameAndType(v, now);
  }

  ghost predicate IsAskedFile(files: Files, now: int, name: string, qtype: U16, id: nat) {
    id in files && !IsExpired(files[id], now) && files[id].record.name == name && files[id].record.GetQtype() == qtype
  }

  lemma ShownNameAndType(v: VolatileRecord, now: int)
    ensures Shown(v, now).name == v.record.name && Shown(v, now).GetQtype() == v.record.GetQtype()
  {
  }

  lemma NameKeyStarts(prefix: string, v: VolatileRecord, id: nat, name: string)
    requires v.record.name == name
    ensures HasPrefix(FileKey(prefix, v, id), prefix + "/records" + PathOf(name))
  {
    hide PathOf, Decimal;
    KeyHasNamePrefix(prefix, DynamicRecord(v.record, None, false, false), id);
  }

  lemma MatchesSameName(r: DynamicRecord, v: VolatileRecord, now: int)
    requires Matches(r, v, false, now)
    ensures r.record.name == v.record.name
  {
    assert r.record.Masked().name == r.record.name && v.record.Masked().name == v.record.name;
  }

  lemma VolatileFields(r: DynamicRecord, now: int)
    ensures Volatile(r, now).record == r.record && Volatile(r, now).expire >= 0
  {
  }

  /** The listing of all records, filtered by a compiled glob. */
  lemma FilteredListing(all: seq<DynamicRecord>, rs: seq<DynamicRecord>, files: Files, now: int, glob: string)
    requires IsFileListing(all, files, now, Everything())
    requires forall i, j :: 0 <= i < j < |rs| ==> rs[i].id != rs[j].id
    requires forall x :: x in rs <==> x in all && RegexpMatches(glob, Fqdn(x.record.name))
    ensures IsFileListing(rs, files, now, NameMatches(glob))
  {
    hide Shown, IsExpired, RegexpMatches, Fqdn;
    forall id | id in files ensures ShownFile(files[id], id, now).record.name == files[id].record.name {
      ShownNameAndType(files[id], now);
    }
    forall r | r in rs
      ensures exists id :: IsPicked(files, now, NameMatches(glob), id) && r == ShownFile(files[id], id, now)
    {
      var id :| IsPicked(files, now, Everything(), id) && r == ShownFile(files[id], id, now);
      assert IsPicked(files, now, NameMatches(glob), id);
    }
    forall id | IsPicked(files, now, NameMatches(glob), id) ensures ShownFile(files[id], id, now) in rs {
      assert IsPicked(files, now, Everything(), id);
    }
  }

  // --------------------------------------------------- lines on a permanent store

  predicate NoSemicolons(rs: seq<DynamicRecord>) {
    forall i :: 0 <= i < |rs| ==> !HoldsSemicolon(rs[i].record)
  }

  lemma NoLines()
    ensures Plain([]) && PlainOps([]) == []
  {
  }

  lemma PlainPrefix(rs: seq<DynamicRecord>, i: nat)
    requires Plain(rs) && i < |rs| && Plain(rs[..i])
    ensures Plain(rs[..i + 1]) && PlainOps(rs[..i + 1]) == PlainOps(rs[..i]) + LineOps(rs[i], MIDNIGHT)
  {
    assert rs[..i + 1] == rs[..i] + [rs[i]];
    PlainOpsAppend(rs[..i], [rs[i]]);
    PlainSingle(rs[i]);
  }

  lemma PermanentVolatile(r: DynamicRecord, now: int)
    requires !r.volatile
    ensures Volatile(r, now).expire == 0 && ExpireOf(r, 0) == 0
  {
  }

  lemma InsertKeepsPermanent(prefix: string, files: Files, last: nat, files': Files, last': nat, r: DynamicRecord,
                             now: int)
    requires AllPermanent(files) && !r.volatile
    requires forall id :: id in files ==> 1 <= id <= last
    requires InsertStep(prefix, files, last, files', last', r, now)
    ensures AllPermanent(files') && (forall id :: id in files' ==> 1 <= id <= last')
    ensures AllSound(files) && !HoldsSemicolon(r.record) ==> AllSound(files')
  {
    hide IsUnder, Matches;
  }

  lemma InsertedLine(prefix: string, files: Files, last: nat, files': Files, last': nat, r: DynamicRecord, now: int,
                     ok: bool)
    requires Unique(files) && AllPermanent(files) && (forall id :: id in files ==> 1 <= id <= last)
    requires !r.volatile && r.id.None? && !r.disabled
    requires ok && !r.record.Address? ==> InsertStep(prefix, files, last, files', last', r, now)
    requires ok && r.record.Address? ==> exists mid, midLast ::
               InsertStep(prefix, files, last, mid, midLast, r, now) &&
               InsertStep(prefix, mid, midLast, files', last', ReverseLine(r, false), now)
    requires !ok ==> HasUnreadable(files', now)
    requires !ok ==> files' == files || InsertStep(prefix, files, last, files', last', r, now)
    ensures Unique(files') && AllPermanent(files')
    ensures AllSound(files) && !HoldsSemicolon(r.record) ==> ok && AllSound(files')
    ensures ok ==> TableOf(files', last') == ApplyAll(TableOf(files, last), LineOps(r, MIDNIGHT))
  {
    hide InsertStep, TableOf, Record.Masked, Record.GetTTL, ReverseRecord, Unique;
    var t, own := TableOf(files, last), Put(r.record.Masked(), r.record.GetTTL(), 0);
    PutOpsShape(r, MIDNIGHT);
    ApplyTwo(t, own, own);
    PermanentVolatile(r, now);
    if !ok {
      if files' != files {
        InsertKeepsPermanent(prefix, files, last, files', last', r, now);
        InsertStepIsPut(prefix, files, last, files', last', r, now);
      }
    } else if r.record.Address? {
      var mid, midLast :| InsertStep(prefix, files, last, mid, midLast, r, now) &&
        InsertStep(prefix, mid, midLast, files', last', ReverseLine(r, false), now);
      var ptr := ReverseLine(r, false);
      InsertKeepsPermanent(prefix, files, last, mid, midLast, r, now);
      InsertKeepsPermanent(prefix, mid, midLast, files', last', ptr, now);
      InsertStepIsPut(prefix, files, last, mid, midLast, r, now);
      InsertStepIsPut(prefix, mid, midLast, files', last', ptr, now);
      PermanentVolatile(ptr, now);
      assert ptr.record.GetTTL() == r.record.GetTTL();
      ApplyTwo(t, own, Put(ptr.record.Masked(), r.record.GetTTL(), 0));
    } else {
      InsertKeepsPermanent(prefix, files, last, files', last', r, now);
      InsertStepIsPut(prefix, files, last, files', last', r, now);
    }
  }

  lemma FewerFiles(files: Files, files': Files)
    requires forall id :: id in files' ==> id in files && files'[id] == files[id]
    ensures Unique(files) ==> Unique(files')
  {
    hide Record.Masked;
  }

  lemma DroppedLine(prefix: string, files: Files, last: nat, files': Files, r: DynamicRecord, now: int, ok: bool)
    requires Unique(files) && AllPermanent(files) && r.id.None? && r.disabled && !r.volatile
    requires ok && !r.record.Address? ==> DropStep(prefix, files, files', r, now)
    requires ok && r.record.Address? ==> exists mid ::
               DropStep(prefix, files, mid, r, now) && DropStep(prefix, mid, files', ReverseLine(r, r.volatile), now)
    requires !ok ==> HasUnreadable(files', now)
    requires forall id :: id in files' ==> id in files && files'[id] == files[id]
    ensures Unique(files') && AllPermanent(files') && (AllSound(files) ==> ok && AllSound(files'))
    ensures ok ==> TableOf(files', last) == ApplyAll(TableOf(files, last), LineOps(r, MIDNIGHT))
  {
    hide DropStep, TableOf, Record.Masked, Record.GetTTL, ReverseRecord, Unique, HoldsSemicolon;
    FewerFiles(files, files');
    var t, own := TableOf(files, last), Drop(r.record.Masked(), r.record.GetTTL(), None);
    DropOpsShape(r);
    ApplyTwo(t, own, own);
    if !ok {
      return;
    }
    if r.record.Address? {
      var mid :| DropStep(prefix, files, mid, r, now) && DropStep(prefix, mid, files', ReverseLine(r, r.volatile), now);
      var ptr := ReverseLine(r, r.volatile);
      DropStepIsDrop(prefix, files, last, mid, r, now);
      DropStepIsDrop(prefix, mid, last, files', ptr, now);
      assert ptr.record.GetTTL() == r.record.GetTTL();
      ApplyTwo(t, own, Drop(ptr.record.Masked(), r.record.GetTTL(), None));
    } else {
      DropStepIsDrop(prefix, files, last, files', r, now);
    }
  }
}
