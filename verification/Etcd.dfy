/** EtcdResolver: the dynamic store as keys of a key-value store. A record is filed under the prefix, the path
    of its name and its ID; the last ID given out is a key of its own. */
module Etcd {
  import opened Strings
  import opened Records
  import opened DynamicRecords
  import opened Store
  import opened Semicolons

  // ---------------------------------------------------------- volatile records

  /** A record and its expiry as a Unix time in seconds; 0 for none. */
  datatype VolatileRecord = VolatileRecord(record: Record, expire: int)

  /** The expiry behind the semicolon of a value. */
  function ReadExpire(after: Option<string>, now: int): Outcome<int> {
    if after.None? then Ok(0)
    else
      match ParseInt(TrimSpace(after.value))
      case None => Malformed
      case Some(i) => if Seconds(i) < now then Expired else Ok(i)
  }

  /** VolatileRecord.UnmarshalText, and the conversion of the record it reads; a panic of the conversion comes after
      the errors of reading. */
  function Unmarshal(text: string, now: int): Outcome<VolatileRecord> {
    if '\n' in text then Malformed
    else
      var (before, after) := Cut(TrimSpace(text), ';');
      var r := NewRecord(before);
      if r.Malformed? then Malformed
      else
        match ReadExpire(after, now)
        case Ok(expire) => if r.Ok? then Ok(VolatileRecord(r.value, expire)) else Panicked
        case Expired => Expired
        case _ => Malformed
  }

  /** VolatileRecord.Record. */
  function Current(v: VolatileRecord, now: int): Outcome<Record> {
    if v.expire > 0 then
      var ttl := RoundSeconds(Seconds(v.expire) - now);
      if ttl < 0 then Expired else Ok(v.record.WithTTL(ToU32(ttl)))
    else Ok(v.record)
  }

  /** VolatileRecord.MarshalText of a record that is current. */
  function Marshal(v: VolatileRecord): string {
    if v.expire > 0 then Text(v.record) + " ; " + Itoa(v.expire) else Text(v.record)
  }

  /** DynamicRecord.VolatileRecord at a clock reading, as MarshalText then writes it. */
  function Volatile(r: DynamicRecord, now: int): VolatileRecord {
    var expire := Unix(now + Seconds(r.record.GetTTL()));
    VolatileRecord(r.record, if r.volatile && expire > 0 then expire else 0)
  }

  /** A volatile record that is filed at some time expires at the end of its TTL, within the second, if that is past the
      first second of 1970; a permanent one never does. */
  lemma FileLives(r: DynamicRecord, at: int, now: int)
    ensures var v, ttl := Volatile(r, at), r.record.GetTTL();
            v.record == r.record &&
            if r.volatile && at + Seconds(ttl) >= Seconds(1)
            then at + Seconds(ttl) - Seconds(1) < Seconds(v.expire) <= at + Seconds(ttl) &&
                 (IsExpired(v, now) <==> Seconds(v.expire) < now)
            else v.expire == 0 && !IsExpired(v, now)
  {
  }

  predicate IsExpired(v: VolatileRecord, now: int) {
    v.expire > 0 && Seconds(v.expire) < now
  }

  lemma CurrentUnlessExpired(v: VolatileRecord, now: int)
    ensures !IsExpired(v, now) ==> Current(v, now).Ok?
  {
    if v.expire > 0 && !IsExpired(v, now) {
      RoundSecondsNearest(Seconds(v.expire) - now);
    }
  }

  lemma DecimalTrimmed(n: nat)
    ensures Trimmed(Decimal(n)) && '\n' !in Decimal(n)
    ensures TrimSpace(" " + Decimal(n)) == Decimal(n)
  {
    var digits := Decimal(n);
    assert IsDigit(digits[0]) && IsDigit(digits[|digits| - 1]);
    TrimPadded(" ", digits, "");
    assert " " + digits + "" == " " + digits;
  }

  lemma CutMarshalled(text: string, n: nat)
    requires Trimmed(text) && ';' !in text
    ensures Cut(TrimSpace(text + " ; " + Decimal(n)), ';') == (text + " ", Some(" " + Decimal(n)))
  {
    hide TrimSpace, Cut, IsSpace, Decimal;
    var digits := Decimal(n);
    var s := text + " ; " + digits;
    DecimalTrimmed(n);
    LastOf(text + " ; ", digits);
    assert s[0] == text[0];
    TrimTrimmed(s);
    assert s == (text + " ") + [';'] + (" " + digits);
    CutAt(text + " ", ';', " " + digits);
  }

  /** Reading a stored value gives back what was written, or that it has expired; a TXT record with a semicolon is
      stored in a form that cannot be read at all. */
  lemma UnmarshalMarshal(v: VolatileRecord, now: int)
    requires WellFormed(v.record) && v.expire >= 0
    ensures Unmarshal(Marshal(v), now) ==
      if HoldsSemicolon(v.record) then Malformed else if IsExpired(v, now) then Expired else Ok(v)
  {
    hide WellFormed, Text, NewRecord, TrimSpace, ParseInt, Decimal, HoldsSemicolon;
    var text := Text(v.record);
    TextTrimmed(v.record);
    TextIsClean(v.record);
    if HoldsSemicolon(v.record) {
      UnmarshalBroken(v, now);
    } else if v.expire > 0 {
      CutMarshalled(text, v.expire);
      DecimalTrimmed(v.expire);
      NewRecordText(v.record, " ");
      ItoaParseInt(v.expire);
    } else {
      TrimTrimmed(text);
      CutNone(text, ';');
      ParseText(v.record);
    }
  }

  lemma UnmarshalBroken(v: VolatileRecord, now: int)
    requires WellFormed(v.record) && v.expire >= 0 && HoldsSemicolon(v.record)
    ensures Unmarshal(Marshal(v), now) == Malformed
  {
    hide WellFormed, Text, NewRecord, TrimSpace, ParseInt, Decimal, HoldsSemicolon, Cut;
    var text := Text(v.record);
    TextTrimmed(v.record);
    TextIsClean(v.record);
    var tail := if v.expire > 0 then " ; " + Decimal(v.expire) else "";
    assert Marshal(v) == text + tail;
    if v.expire > 0 {
      DecimalTrimmed(v.expire);
      LastOf(text + " ; ", Decimal(v.expire));
      assert text + tail == text + " ; " + Decimal(v.expire);
    }
    TrimTrimmed(text + tail);
    CutTextIsBroken(v.record, tail);
  }

  // -------------------------------------------------------------------- keys

  /** Where a record with an ID is filed. */
  function KeyFor(prefix: string, name: Domain, id: nat): string {
    prefix + "/records" + PathOf(name) + "/" + Decimal(id)
  }

  /** getKey. */
  function GetKey(prefix: string, r: DynamicRecord): string {
    if r.id.None? then prefix + "/records" + PathOf(r.record.name)
    else prefix + "/records" + PathOf(r.record.name) + "/" + Itoa(r.id.value)
  }

  /** getIDbyKey: the number after the last slash. */
  function GetIdByKey(key: string): Option<int> {
    var parts := Split(key, '/');
    ParseInt(parts[|parts| - 1])
  }

  lemma {:induction false} LastPart(a: string, b: string)
    requires '/' !in b
    ensures Split(a + "/" + b, '/')[|Split(a + "/" + b, '/')| - 1] == b
    decreases |a|
  {
    var s := a + "/" + b;
    var (before, after) := Cut(a, '/');
    if after.None? {
      CutAt(a, '/', b);
      CutNone(b, '/');
    } else {
      LastPart(after.value, b);
      assert s == before + ['/'] + (after.value + "/" + b);
      CutAt(before, '/', after.value + "/" + b);
    }
  }

  lemma DecimalHasNoSlash(n: nat)
    ensures '/' !in Decimal(n)
  {
  }

  /** The ID in a key is the ID the record was filed under, so no two IDs share a key. */
  lemma IdOfKey(prefix: string, name: Domain, id: nat)
    ensures GetIdByKey(KeyFor(prefix, name, id)) == Some(id)
  {
    hide PathOf, Decimal, ParseInt;
    var base := prefix + "/records" + PathOf(name);
    DecimalHasNoSlash(id);
    LastPart(base, Decimal(id));
    ItoaParseInt(id);
  }

  /** Every key of a record is under the key prefix of its name. */
  lemma KeyHasNamePrefix(prefix: string, r: DynamicRecord, id: nat)
    requires r.id.None?
    ensures HasPrefix(KeyFor(prefix, r.record.name, id), GetKey(prefix, r))
  {
    hide PathOf, Decimal;
    var base, tail := GetKey(prefix, r), "/" + Decimal(id);
    assert KeyFor(prefix, r.record.name, id) == base + tail;
  }

  lemma KeyUnderRecords(prefix: string, name: Domain, id: nat)
    ensures HasPrefix(KeyFor(prefix, name, id), prefix + "/records/")
  {
    PathStarts(name);
    hide PathOf, Decimal;
    var base, tail := prefix + "/records/", PathOf(name)[1..] + "/" + Decimal(id);
    assert PathOf(name) == "/" + PathOf(name)[1..];
    assert KeyFor(prefix, name, id) == base + tail;
  }

  lemma PathStarts(name: Domain)
    ensures PathOf(name) != [] && PathOf(name)[0] == '/'
  {
  }

  lemma PrefixTransitive(a: string, b: string, c: string)
    requires HasPrefix(a, b) && HasPrefix(b, c)
    ensures HasPrefix(a, c)
  {
    assert a[..|c|] == a[..|b|][..|c|];
  }

  // ------------------------------------------------------------ what is stored

  /** What is filed under each ID. */
  type Files = map<nat, VolatileRecord>

  function FileKey(prefix: string, v: VolatileRecord, id: nat): string {
    KeyFor(prefix, v.record.name, id)
  }

  ghost predicate IsFile(kv: map<string, string>, prefix: string, v: VolatileRecord, id: nat) {
    WellFormed(v.record) && v.expire >= 0 &&
    FileKey(prefix, v, id) in kv && kv[FileKey(prefix, v, id)] == Marshal(v)
  }

  /** The keys under "/records/" are exactly the files, each under its own number; "/lastID" holds the last
      number given out. */
  ghost predicate Holds(kv: map<string, string>, prefix: string, files: Files, last: nat) {
    (forall id :: id in files ==> 1 <= id <= last && IsFile(kv, prefix, files[id], id)) &&
    (forall key :: key in kv && HasPrefix(key, prefix + "/records/") ==>
       exists id :: id in files && key == FileKey(prefix, files[id], id)) &&
    (if prefix + "/lastID" in kv then kv[prefix + "/lastID"] == Itoa(last) else last == 0)
  }

  lemma KeyText(prefix: string, v: VolatileRecord, id: nat)
    ensures FileKey(prefix, v, id) ==
      prefix + "/records/" + Join(Reversed(Labels(v.record.name)), "/") + "/" + Decimal(id)
  {
    hide Decimal, Labels, Join, Reversed;
    var path := Join(Reversed(Labels(v.record.name)), "/");
    assert prefix + "/records" + ("/" + path) == prefix + "/records/" + path;
  }

  /** What is in the key-value store, key by key. */
  lemma StoredTexts(kv: map<string, string>, prefix: string, files: Files, last: nat, id: nat)
    requires Holds(kv, prefix, files, last)
    ensures prefix + "/lastID" in kv ==> kv[prefix + "/lastID"] == Decimal(last)
    ensures id in files ==>
      var v := files[id];
      var key := prefix + "/records/" + Join(Reversed(Labels(v.record.name)), "/") + "/" + Decimal(id);
      key in kv && kv[key] == if v.expire > 0 then Text(v.record) + " ; " + Decimal(v.expire) else Text(v.record)
  {
    hide Text, Decimal, Labels, Join, WellFormed, FileKey, Reversed;
    if id in files {
      assert IsFile(kv, prefix, files[id], id);
      KeyText(prefix, files[id], id);
    }
  }

  lemma LastIdIsNoRecord(prefix: string)
    ensures !HasPrefix(prefix + "/lastID", prefix + "/records/")
  {
    var a := prefix + "/lastID";
    assert |a| < |prefix + "/records/|"|;
    assert a[|prefix| + 1] == 'l' && (prefix + "/records/")[|prefix| + 1] == 'r';
  }

  /** Different files have different keys. */
  lemma FileKeysDiffer(prefix: string, v: VolatileRecord, i: nat, w: VolatileRecord, j: nat)
    requires FileKey(prefix, v, i) == FileKey(prefix, w, j)
    ensures i == j
  {
    IdOfKey(prefix, v.record.name, i);
    IdOfKey(prefix, w.record.name, j);
  }

  /** Writing one file changes no other. */
  lemma PutFile(kv: map<string, string>, prefix: string, files: Files, last: nat, id: nat, v: VolatileRecord)
    requires Holds(kv, prefix, files, last)
    requires 1 <= id <= last && WellFormed(v.record) && v.expire >= 0
    requires id in files ==> files[id].record.name == v.record.name
    ensures Holds(kv[FileKey(prefix, v, id) := Marshal(v)], prefix, files[id := v], last)
  {
    hide WellFormed, Marshal, KeyFor;
    var kv' := kv[FileKey(prefix, v, id) := Marshal(v)];
    var files' := files[id := v];
    KeyUnderRecords(prefix, v.record.name, id);
    LastIdIsNoRecord(prefix);
    forall i | i in files' ensures 1 <= i <= last && IsFile(kv', prefix, files'[i], i) {
      if i != id && FileKey(prefix, files[i], i) == FileKey(prefix, v, id) {
        FileKeysDiffer(prefix, files[i], i, v, id);
      }
    }
    forall key | key in kv' && HasPrefix(key, prefix + "/records/")
      ensures exists i :: i in files' && key == FileKey(prefix, files'[i], i)
    {
      if key == FileKey(prefix, v, id) {
        assert id in files' && files'[id] == v;
      } else {
        var i :| i in files && key == FileKey(prefix, files[i], i);
        assert i != id;
        assert i in files' && files'[i] == files[i];
      }
    }
  }

  /** Deleting a file's key removes exactly that file. */
  lemma DeleteFile(kv: map<string, string>, prefix: string, files: Files, last: nat, id: nat)
    requires Holds(kv, prefix, files, last) && id in files
    ensures Holds(kv - {FileKey(prefix, files[id], id)}, prefix, files - {id}, last)
  {
    hide WellFormed, Marshal, KeyFor;
    var gone := FileKey(prefix, files[id], id);
    var kv', files' := kv - {gone}, files - {id};
    KeyUnderRecords(prefix, files[id].record.name, id);
    LastIdIsNoRecord(prefix);
    forall i | i in files' ensures 1 <= i <= last && IsFile(kv', prefix, files'[i], i) {
      if FileKey(prefix, files[i], i) == gone {
        FileKeysDiffer(prefix, files[i], i, files[id], id);
      }
    }
    forall key | key in kv' && HasPrefix(key, prefix + "/records/")
      ensures exists i :: i in files' && key == FileKey(prefix, files'[i], i)
    {
      var i :| i in files && key == FileKey(prefix, files[i], i);
      assert i in files';
    }
  }

  /** Writing the counter changes no file. */
  lemma PutLastId(kv: map<string, string>, prefix: string, files: Files, last: nat)
    requires Holds(kv, prefix, files, last)
    ensures Holds(kv[prefix + "/lastID" := Itoa(last + 1)], prefix, files, last + 1)
  {
    hide WellFormed, Marshal, KeyFor;
    var kv' := kv[prefix + "/lastID" := Itoa(last + 1)];
    LastIdIsNoRecord(prefix);
    forall i | i in files ensures 1 <= i <= last + 1 && IsFile(kv', prefix, files[i], i) {
      KeyUnderRecords(prefix, files[i].record.name, i);
    }
  }

  // ------------------------------------------------------------------- matches

  /** The record a file shows. */
  function Shown(v: VolatileRecord, now: int): Record {
    if v.expire > 0 then v.record.WithTTL(ToU32(RoundSeconds(Seconds(v.expire) - now))) else v.record
  }

  /** What findKey compares: the shown record, or the record up to its TTL. */
  predicate Matches(r: DynamicRecord, v: VolatileRecord, withTTL: bool, now: int) {
    if withTTL then r.record == Shown(v, now) else r.record.Masked() == v.record.Masked()
  }

  /** Files whose key starts as the record's own key would. */
  predicate IsUnder(prefix: string, r: DynamicRecord, v: VolatileRecord, id: nat) {
    HasPrefix(FileKey(prefix, v, id), GetKey(prefix, r))
  }

  datatype Finding = Found(id: nat, key: string) | NotFound | Failed

  datatype KeyValue = KeyValue(key: string, value: string)

  /** Comparing texts is comparing records. */
  lemma TextMatches(r: DynamicRecord, v: VolatileRecord, withTTL: bool, now: int)
    requires WellFormed(r.record) && WellFormed(v.record)
    ensures Matches(r, v, true, now) <==> Text(r.record) == Text(Shown(v, now))
    ensures Matches(r, v, false, now) <==> WithoutTTL(r.record) == WithoutTTL(Shown(v, now))
  {
    hide Text, NewRecord;
    ShownWellFormed(v, now);
    TextInjective(r.record, Shown(v, now));
  }

  lemma ShownWellFormed(v: VolatileRecord, now: int)
    requires WellFormed(v.record)
    ensures WellFormed(Shown(v, now)) && Shown(v, now).Masked() == v.record.Masked()
  {
  }

  // ------------------------------------------------------ steps on the files

  /** What inserting one record does: the file of the same record but for its TTL is overwritten, or a file
      with the next number is made. */
  ghost predicate InsertStep(prefix: string, files: Files, last: nat, files': Files, last': nat, r: DynamicRecord,
                             now: int)
  {
    exists id ::
      files' == files[id := Volatile(r, now)] &&
      if id in files then
        last' == last && IsUnder(prefix, r, files[id], id) && Matches(r, files[id], false, now)
      else
        id == last' == last + 1 &&
        forall i :: i in files && IsUnder(prefix, r, files[i], i) ==> !Matches(r, files[i], false, now)
  }

  /** What dropping one record does: a file that shows the record is removed, if there is one. */
  ghost predicate DropStep(prefix: string, files: Files, files': Files, r: DynamicRecord, now: int) {
    if exists i :: i in files && IsUnder(prefix, r, files[i], i) && Matches(r, files[i], true, now) then
      exists id :: id in files && IsUnder(prefix, r, files[id], id) && Matches(r, files[id], true, now) &&
                   files' == files - {id}
    else files' == files
  }

  function ReverseLine(r: DynamicRecord, volatile: bool): DynamicRecord
    requires r.record.Address?
  {
    DynamicRecord(ReverseRecord(r.record), None, volatile, false)
  }

  /** What one line of a batch does: the line's record, then the reverse record of an address, which an insert
      makes permanent whatever the line says. */
  ghost predicate LineStep(prefix: string, before: (Files, nat), after: (Files, nat), r: DynamicRecord, now: int) {
    if r.disabled then
      after.1 == before.1 &&
      if r.record.Address? then
        exists mid :: DropStep(prefix, before.0, mid, r, now) &&
                      DropStep(prefix, mid, after.0, ReverseLine(r, r.volatile), now)
      else DropStep(prefix, before.0, after.0, r, now)
    else if r.record.Address? then
      exists mid, midLast :: InsertStep(prefix, before.0, before.1, mid, midLast, r, now) &&
                             InsertStep(prefix, mid, midLast, after.0, after.1, ReverseLine(r, false), now)
    else InsertStep(prefix, before.0, before.1, after.0, after.1, r, now)
  }

  /** What a failed line leaves: nothing, or its own record without the reverse record. */
  ghost predicate HalfStep(prefix: string, before: (Files, nat), after: (Files, nat), r: DynamicRecord, now: int) {
    after == before ||
    (r.record.Address? &&
     if r.disabled then after.1 == before.1 && DropStep(prefix, before.0, after.0, r, now)
     else InsertStep(prefix, before.0, before.1, after.0, after.1, r, now))
  }

  /** A file that stops findKey. */
  predicate IsUnreadable(v: VolatileRecord, now: int) {
    IsExpired(v, now) || HoldsSemicolon(v.record)
  }

  ghost predicate HasUnreadable(files: Files, now: int) {
    exists id :: id in files && IsUnreadable(files[id], now)
  }

  /** Such a file under the key that findKey searches for a record. */
  ghost predicate HasUnreadableUnder(prefix: string, r: DynamicRecord, files: Files, now: int) {
    exists id :: id in files && IsUnreadable(files[id], now) && IsUnder(prefix, r, files[id], id)
  }

  ghost predicate AllPermanent(files: Files) {
    forall id :: id in files ==> files[id].expire == 0
  }

  /** Permanent files that can be read. */
  ghost predicate AllSound(files: Files) {
    AllPermanent(files) && forall id :: id in files ==> !HoldsSemicolon(files[id].record)
  }

  // ------------------------------------------------------- files as a table

  /** No record is filed twice. */
  ghost predicate Unique(files: Files) {
    forall i, j :: i in files && j in files && files[i].record.Masked() == files[j].record.Masked() ==> i == j
  }

  ghost function KeysOf(files: Files): set<Record> {
    set id | id in files :: files[id].record.Masked()
  }

  ghost function IdOf(files: Files, k: Record): nat
    requires exists id :: id in files && files[id].record.Masked() == k
  {
    var id :| id in files && files[id].record.Masked() == k;
    id
  }

  function RowOfFile(v: VolatileRecord, id: nat): Row {
    Row(id, v.record.GetTTL(), v.expire)
  }

  ghost function TableOf(files: Files, last: nat): Table {
    Table(last, map k | k in KeysOf(files) :: RowOfFile(files[IdOf(files, k)], IdOf(files, k)))
  }

  lemma TableAt(files: Files, last: nat, id: nat)
    requires Unique(files) && id in files
    ensures var k := files[id].record.Masked();
            k in TableOf(files, last).rows && TableOf(files, last).rows[k] == RowOfFile(files[id], id)
  {
    assert files[id].record.Masked() in KeysOf(files);
  }

  lemma TableIs(files: Files, last: nat, t: Table)
    requires Unique(files) && t.last == last
    requires forall id :: id in files ==>
      files[id].record.Masked() in t.rows && t.rows[files[id].record.Masked()] == RowOfFile(files[id], id)
    requires forall k :: k in t.rows ==> exists id :: id in files && files[id].record.Masked() == k
    ensures TableOf(files, last) == t
  {
    hide Record.Masked, RowOfFile, TableOf;
    var m := TableOf(files, last);
    TableLast(files, last);
    forall k ensures k in m.rows <==> k in t.rows {
      if k in t.rows {
        var id :| id in files && files[id].record.Masked() == k;
        TableAt(files, last, id);
      }
      if k in m.rows {
        KeyHasFile(files, last, k);
      }
    }
    assert m.rows.Keys == t.rows.Keys;
    forall k | k in m.rows ensures m.rows[k] == t.rows[k] {
      var id :| id in files && files[id].record.Masked() == k;
      TableAt(files, last, id);
    }
  }

  /** A record without an ID is looked for under its own name, so every file of it is found. */
  lemma OwnNameIsUnder(prefix: string, r: DynamicRecord, v: VolatileRecord, id: nat)
    requires r.id.None? && r.record.Masked() == v.record.Masked()
    ensures IsUnder(prefix, r, v, id)
  {
    hide PathOf, Decimal;
    assert r.record.Masked().name == r.record.name && v.record.Masked().name == v.record.name;
    KeyHasNamePrefix(prefix, r, id);
  }

  /** Inserting a record without an ID is the upsert of the reference store. */
  lemma InsertStepIsPut(prefix: string, files: Files, last: nat, files': Files, last': nat, r: DynamicRecord, now: int)
    requires Unique(files) && r.id.None? && (forall id :: id in files ==> 1 <= id <= last)
    requires InsertStep(prefix, files, last, files', last', r, now)
    ensures Unique(files')
    ensures TableOf(files', last')
         == Apply(TableOf(files, last), Put(r.record.Masked(), r.record.GetTTL(), Volatile(r, now).expire))
  {
    hide Record.Masked, IsUnder, KeysOf;
    var k, v := r.record.Masked(), Volatile(r, now);
    var id :| files' == files[id := v] &&
      if id in files then last' == last && IsUnder(prefix, r, files[id], id) && Matches(r, files[id], false, now)
      else id == last' == last + 1 &&
           forall i :: i in files && IsUnder(prefix, r, files[i], i) ==> !Matches(r, files[i], false, now);
    forall i | i in files && i != id ensures files[i].record.Masked() != k {
      if files[i].record.Masked() == k && id !in files {
        OwnNameIsUnder(prefix, r, files[i], i);
      }
    }
    var t := TableOf(files, last);
    var t' := Apply(t, Put(k, r.record.GetTTL(), v.expire));
    assert k in t.rows <==> id in files by {
      if id in files {
        TableAt(files, last, id);
      }
    }
    forall i | i in files'
      ensures files'[i].record.Masked() in t'.rows && t'.rows[files'[i].record.Masked()] == RowOfFile(files'[i], i)
    {
      if i in files {
        TableAt(files, last, i);
      }
    }
    forall j | j in t'.rows ensures exists i :: i in files' && files'[i].record.Masked() == j {
      if j == k {
        assert id in files';
      } else {
        var i :| i in files && files[i].record.Masked() == j;
        assert i in files' && files'[i] == files[i];
      }
    }
    TableIs(files', last', t');
  }

  /** Two records are equal exactly when they agree up to the TTL and in the TTL. */
  lemma EqualRecords(x: Record, y: Record)
    ensures x == y <==> x.Masked() == y.Masked() && x.GetTTL() == y.GetTTL()
  {
  }

  /** A permanent file is dropped exactly when it holds the record with its TTL. */
  lemma DropFinds(prefix: string, r: DynamicRecord, v: VolatileRecord, i: nat, now: int)
    requires r.id.None? && v.expire == 0
    ensures IsUnder(prefix, r, v, i) && Matches(r, v, true, now) <==>
      v.record.Masked() == r.record.Masked() && v.record.GetTTL() == r.record.GetTTL()
  {
    hide IsUnder, Record.Masked, Record.GetTTL;
    EqualRecords(r.record, v.record);
    if Matches(r, v, true, now) {
      OwnNameIsUnder(prefix, r, v, i);
    }
  }

  /** The files that are left: at most one is gone. */
  lemma FilesLeft(prefix: string, files: Files, files': Files, r: DynamicRecord, now: int)
    requires Unique(files) && AllPermanent(files) && r.id.None?
    requires DropStep(prefix, files, files', r, now)
    ensures forall i :: i in files' ==> i in files
    ensures forall i :: i in files ==> (i in files' <==>
      !(files[i].record.Masked() == r.record.Masked() && files[i].record.GetTTL() == r.record.GetTTL()))
    ensures forall i :: i in files' ==> files'[i] == files[i]
  {
    hide IsUnder, Matches, Record.Masked, Record.GetTTL;
    forall i | i in files
      ensures IsUnder(prefix, r, files[i], i) && Matches(r, files[i], true, now) <==>
        files[i].record.Masked() == r.record.Masked() && files[i].record.GetTTL() == r.record.GetTTL()
    {
      DropFinds(prefix, r, files[i], i, now);
    }
  }

  lemma TableLast(files: Files, last: nat)
    ensures TableOf(files, last).last == last
  {
  }

  lemma KeyHasFile(files: Files, last: nat, k: Record)
    requires k in TableOf(files, last).rows
    ensures exists id :: id in files && files[id].record.Masked() == k
  {
  }

  /** A table without the row of a key and TTL, if it has one. */
  lemma LeftTable(files: Files, files': Files, last: nat, k: Record, ttl: U32)
    requires Unique(files) && Unique(files')
    requires forall i :: i in files' ==> i in files && files'[i] == files[i]
    requires forall i :: i in files ==>
      (i in files' <==> !(files[i].record.Masked() == k && files[i].record.GetTTL() == ttl))
    ensures TableOf(files', last) == Apply(TableOf(files, last), Drop(k, ttl, None))
  {
    hide TableOf, Record.Masked, Record.GetTTL;
    var t := TableOf(files, last);
    var t' := Apply(t, Drop(k, ttl, None));
    TableLast(files, last);
    forall i | i in files
      ensures files[i].record.Masked() in t.rows && t.rows[files[i].record.Masked()] == RowOfFile(files[i], i)
    {
      TableAt(files, last, i);
    }
    forall j | j in t'.rows ensures exists i :: i in files' && files'[i].record.Masked() == j {
      KeyHasFile(files, last, j);
      var i :| i in files && files[i].record.Masked() == j;
      assert i in files';
    }
    TableIs(files', last, t');
  }

  /** Dropping a record without an ID from a permanent store is the drop of the reference store. */
  lemma DropStepIsDrop(prefix: string, files: Files, last: nat, files': Files, r: DynamicRecord, now: int)
    requires Unique(files) && AllPermanent(files) && r.id.None?
    requires DropStep(prefix, files, files', r, now)
    ensures Unique(files') && AllPermanent(files') && (AllSound(files) ==> AllSound(files'))
    ensures TableOf(files', last) == Apply(TableOf(files, last), Drop(r.record.Masked(), r.record.GetTTL(), None))
  {
    hide DropStep, TableOf, Record.Masked, Record.GetTTL, HoldsSemicolon;
    FilesLeft(prefix, files, files', r, now);
    LeftTable(files, files', last, r.record.Masked(), r.record.GetTTL());
  }
}
