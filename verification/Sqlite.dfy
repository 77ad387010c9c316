/** SqliteResolver: the dynamic store as rows of an SQL table, changed statement by statement. */
module Sqlite {
  import opened Strings
  import opened Records
  import opened DynamicRecords
  import opened Store
  import opened Expiry
  import opened Globs

  /** A row of the table `records`; the text of the record is unique. */
  datatype SqlRow = SqlRow(id: nat, name: string, qtype: string, ttl: U32, expire: int, record: string)

  // -------------------------------------------------------------- statements

  /** UPDATE records SET ttl = ?, expire = ? WHERE record = ? */
  function Update(rows: seq<SqlRow>, ttl: U32, expire: int, text: string): (r: seq<SqlRow>)
    ensures |r| == |rows|
  {
    seq(|rows|, i requires 0 <= i < |rows| =>
      if rows[i].record == text then rows[i].(ttl := ttl, expire := expire) else rows[i])
  }

  /** SELECT ... WHERE p ORDER BY id; rows are kept in the order of their IDs. */
  function Select(rows: seq<SqlRow>, p: SqlRow -> bool): seq<SqlRow> {
    Filter(rows, p)
  }

  /** DELETE ... WHERE p */
  function Delete(rows: seq<SqlRow>, p: SqlRow -> bool): seq<SqlRow> {
    Filter(rows, (row: SqlRow) => !p(row))
  }

  /** WHERE ttl = ? AND record = ? */
  function HasTtlAndText(ttl: U32, text: string): SqlRow -> bool {
    (row: SqlRow) => row.ttl == ttl && row.record == text
  }

  /** WHERE id = ? AND ttl = ? AND record = ? */
  function HasIdTtlAndText(id: int, ttl: U32, text: string): SqlRow -> bool {
    (row: SqlRow) => row.id == id && row.ttl == ttl && row.record == text
  }

  // --------------------------------------------------------- meaning of a table

  /** The key a row stands for, read from its text. */
  function KeyOf(row: SqlRow): Record {
    match NewRecord(row.record)
    case Ok(r) => r
    case _ => Ns("", "")
  }

  function StoredRow(row: SqlRow): Row {
    Row(row.id, row.ttl, row.expire)
  }

  /** The row that stores a key. */
  function RowFor(k: Record, r: Row): SqlRow {
    SqlRow(r.id, k.name, QtypeToString(k.GetQtype()), r.ttl, r.expire, Text(k))
  }

  predicate IsRow(row: SqlRow) {
    WellFormedKey(KeyOf(row)) && row == RowFor(KeyOf(row), StoredRow(row))
  }

  ghost predicate ById(rows: seq<SqlRow>) {
    forall i, j :: 0 <= i < j < |rows| ==> rows[i].id < rows[j].id
  }

  ghost predicate ValidRows(rows: seq<SqlRow>, sequence: nat) {
    ById(rows) &&
    (forall row :: row in rows ==> IsRow(row) && 1 <= row.id <= sequence) &&
    (forall x, y :: x in rows && y in rows && KeyOf(x) == KeyOf(y) ==> x == y)
  }

  ghost function RowOf(rows: seq<SqlRow>, k: Record): SqlRow
    requires exists row :: row in rows && KeyOf(row) == k
  {
    var row :| row in rows && KeyOf(row) == k;
    row
  }

  ghost function Keys(rows: seq<SqlRow>): set<Record> {
    set row | row in rows :: KeyOf(row)
  }

  /** The table as rows by key. */
  ghost function Meaning(rows: seq<SqlRow>, sequence: nat): Table {
    Table(sequence, map k | k in Keys(rows) :: StoredRow(RowOf(rows, k)))
  }

  lemma MeaningAt(rows: seq<SqlRow>, sequence: nat, row: SqlRow)
    requires ValidRows(rows, sequence) && row in rows
    ensures KeyOf(row) in Meaning(rows, sequence).rows
    ensures Meaning(rows, sequence).rows[KeyOf(row)] == StoredRow(row)
  {
    hide NewRecord, Text, WellFormed, NewRecordWithExpire, ShownTTL, Like, GlobMatches;
    assert KeyOf(row) in Keys(rows);
  }

  lemma MeaningLast(rows: seq<SqlRow>, sequence: nat)
    ensures Meaning(rows, sequence).last == sequence
  {
  }

  lemma RowOfKey(rows: seq<SqlRow>, sequence: nat, k: Record) returns (row: SqlRow)
    requires ValidRows(rows, sequence) && k in Meaning(rows, sequence).rows
    ensures row in rows && KeyOf(row) == k && Meaning(rows, sequence).rows[k] == StoredRow(row)
  {
    hide NewRecord, Text, WellFormed, KeyOf;
    row :| row in rows && KeyOf(row) == k;
    MeaningAt(rows, sequence, row);
  }

  /** A table means what its rows say. */
  lemma MeaningIs(rows: seq<SqlRow>, sequence: nat, t: Table)
    requires ValidRows(rows, sequence) && t.last == sequence
    requires forall row :: row in rows ==> KeyOf(row) in t.rows && t.rows[KeyOf(row)] == StoredRow(row)
    requires forall k :: k in t.rows ==> exists row :: row in rows && KeyOf(row) == k
    ensures Meaning(rows, sequence) == t
  {
    hide NewRecord, Text, WellFormed, NewRecordWithExpire, ShownTTL, Like, GlobMatches;
    var m := Meaning(rows, sequence);
    forall k ensures k in m.rows <==> k in t.rows {
      if k in t.rows {
        var row :| row in rows && KeyOf(row) == k;
        MeaningAt(rows, sequence, row);
      }
    }
    assert m.rows.Keys == t.rows.Keys;
    forall k | k in m.rows ensures m.rows[k] == t.rows[k] {
      var row :| row in rows && KeyOf(row) == k;
      MeaningAt(rows, sequence, row);
    }
  }

  lemma SameIdSameRow(rows: seq<SqlRow>, x: SqlRow, y: SqlRow)
    requires ById(rows) && x in rows && y in rows && x.id == y.id
    ensures x == y
  {
    var a :| 0 <= a < |rows| && rows[a] == x;
    var b :| 0 <= b < |rows| && rows[b] == y;
    assert a == b;
  }

  lemma MeaningValid(rows: seq<SqlRow>, sequence: nat)
    requires ValidRows(rows, sequence)
    ensures Store.Valid(Meaning(rows, sequence))
  {
    hide Meaning, KeyOf, WellFormedKey, RowFor;
    var t := Meaning(rows, sequence);
    MeaningLast(rows, sequence);
    forall k | k in t.rows ensures WellFormedKey(k) && 1 <= t.rows[k].id <= t.last {
      var row := RowOfKey(rows, sequence, k);
    }
    forall j, k | j in t.rows && k in t.rows && t.rows[j].id == t.rows[k].id ensures j == k {
      var x := RowOfKey(rows, sequence, j);
      var y := RowOfKey(rows, sequence, k);
      SameIdSameRow(rows, x, y);
    }
  }

  /** A row stores a key exactly when its text is the key's. */
  lemma TextIsKey(row: SqlRow, k: Record)
    requires IsRow(row) && WellFormedKey(k)
    ensures row.record == Text(k) <==> KeyOf(row) == k
  {
    hide NewRecord, Text, WellFormed, NewRecordWithExpire, ShownTTL, Like, GlobMatches;
    ParseText(k);
  }

  lemma KeyOfRowFor(k: Record, r: Row)
    requires WellFormedKey(k)
    ensures KeyOf(RowFor(k, r)) == k && IsRow(RowFor(k, r))
  {
    hide NewRecord, Text, WellFormed, NewRecordWithExpire, ShownTTL, Like, GlobMatches;
    ParseText(k);
  }

  // ----------------------------------------------- what each statement means

  lemma FilterKeepsValid(rows: seq<SqlRow>, sequence: nat, p: SqlRow -> bool)
    requires ValidRows(rows, sequence)
    ensures ValidRows(Filter(rows, p), sequence)
  {
    FilterKeepsOrder(rows, p);
  }

  lemma {:induction false} FilterKeepsOrder(rows: seq<SqlRow>, p: SqlRow -> bool)
    requires ById(rows)
    ensures ById(Filter(rows, p))
  {
    hide NewRecord, Text, WellFormed, NewRecordWithExpire, ShownTTL, Like, GlobMatches;
    if rows != [] {
      var n := |rows| - 1;
      FilterKeepsOrder(rows[..n], p);
      var front := Filter(rows[..n], p);
      forall i | 0 <= i < |front| ensures front[i].id < rows[n].id {
        assert front[i] in rows[..n];
      }
    }
  }

  lemma DeleteMeaning(rows: seq<SqlRow>, sequence: nat, p: SqlRow -> bool)
    requires ValidRows(rows, sequence)
    ensures ValidRows(Delete(rows, p), sequence)
    ensures forall k :: k in Meaning(Delete(rows, p), sequence).rows <==>
              k in Meaning(rows, sequence).rows && !p(RowFor(k, Meaning(rows, sequence).rows[k]))
    ensures forall k :: k in Meaning(Delete(rows, p), sequence).rows ==>
              Meaning(Delete(rows, p), sequence).rows[k] == Meaning(rows, sequence).rows[k]
  {
    hide NewRecord, Text, WellFormed, NewRecordWithExpire, ShownTTL, Like, GlobMatches;
    var after := Delete(rows, p);
    FilterKeepsValid(rows, sequence, (row: SqlRow) => !p(row));
    var t, t' := Meaning(rows, sequence), Meaning(after, sequence);
    forall k | k in t'.rows
      ensures k in t.rows && t'.rows[k] == t.rows[k] && !p(RowFor(k, t.rows[k]))
    {
      var row :| row in after && KeyOf(row) == k;
      MeaningAt(after, sequence, row);
      MeaningAt(rows, sequence, row);
    }
    forall k | k in t.rows && !p(RowFor(k, t.rows[k])) ensures k in t'.rows {
      var row :| row in rows && KeyOf(row) == k;
      MeaningAt(rows, sequence, row);
      MeaningAt(after, sequence, row);
    }
  }

  /** What UPDATE does to each row. */
  lemma UpdateRow(rows: seq<SqlRow>, k: Record, ttl: U32, expire: int, i: nat)
    requires i < |rows| && IsRow(rows[i]) && WellFormedKey(k)
    ensures var after := Update(rows, ttl, expire, Text(k))[i];
            KeyOf(after) == KeyOf(rows[i]) && IsRow(after) && after.id == rows[i].id &&
            after == if KeyOf(rows[i]) == k then rows[i].(ttl := ttl, expire := expire) else rows[i]
  {
    hide NewRecord, Text, WellFormedKey;
    TextIsKey(rows[i], k);
  }

  lemma HasTextIffHasKey(rows: seq<SqlRow>, sequence: nat, k: Record)
    requires ValidRows(rows, sequence) && WellFormedKey(k)
    ensures k in Meaning(rows, sequence).rows <==> exists row :: row in rows && row.record == Text(k)
  {
    hide NewRecord, Text, WellFormedKey;
    forall row | row in rows ensures row.record == Text(k) <==> KeyOf(row) == k {
      TextIsKey(row, k);
    }
  }

  lemma UpdateMeaning(rows: seq<SqlRow>, sequence: nat, k: Record, ttl: U32, expire: int)
    requires ValidRows(rows, sequence) && WellFormedKey(k)
    ensures ValidRows(Update(rows, ttl, expire, Text(k)), sequence)
    ensures k in Meaning(rows, sequence).rows ==>
      Meaning(Update(rows, ttl, expire, Text(k)), sequence) == Apply(Meaning(rows, sequence), Put(k, ttl, expire))
    ensures k !in Meaning(rows, sequence).rows ==> Update(rows, ttl, expire, Text(k)) == rows
  {
    hide NewRecord, Text, WellFormedKey, KeyOf, IsRow, Meaning, Update;
    var after, t := Update(rows, ttl, expire, Text(k)), Meaning(rows, sequence);
    forall i | 0 <= i < |rows|
      ensures KeyOf(after[i]) == KeyOf(rows[i]) && IsRow(after[i]) && after[i].id == rows[i].id
      ensures after[i] == if KeyOf(rows[i]) == k then rows[i].(ttl := ttl, expire := expire) else rows[i]
    {
      assert rows[i] in rows;
      UpdateRow(rows, k, ttl, expire, i);
    }
    UpdateValid(rows, after, sequence);
    if k in t.rows {
      UpdatedMeaning(rows, after, sequence, k, ttl, expire);
    } else {
      forall i | 0 <= i < |rows| ensures after[i] == rows[i] {
        assert rows[i] in rows;
        MeaningAt(rows, sequence, rows[i]);
      }
    }
  }

  lemma UpdatedMeaning(rows: seq<SqlRow>, after: seq<SqlRow>, sequence: nat, k: Record, ttl: U32, expire: int)
    requires ValidRows(rows, sequence) && ValidRows(after, sequence) && |after| == |rows|
    requires k in Meaning(rows, sequence).rows
    requires forall i :: 0 <= i < |rows| ==>
      after[i] == if KeyOf(rows[i]) == k then rows[i].(ttl := ttl, expire := expire) else rows[i]
    requires forall i :: 0 <= i < |rows| ==> KeyOf(after[i]) == KeyOf(rows[i])
    ensures Meaning(after, sequence) == Apply(Meaning(rows, sequence), Put(k, ttl, expire))
  {
    hide Meaning, KeyOf, IsRow;
    var t := Meaning(rows, sequence);
    var t' := Apply(t, Put(k, ttl, expire));
    MeaningLast(rows, sequence);
    forall row | row in after ensures KeyOf(row) in t'.rows && t'.rows[KeyOf(row)] == StoredRow(row) {
      var i :| 0 <= i < |after| && after[i] == row;
      assert rows[i] in rows;
      MeaningAt(rows, sequence, rows[i]);
    }
    forall j | j in t'.rows ensures exists row :: row in after && KeyOf(row) == j {
      var row := RowOfKey(rows, sequence, j);
      var i :| 0 <= i < |rows| && rows[i] == row;
      assert after[i] in after;
    }
    MeaningIs(after, sequence, t');
  }

  lemma UpdateValid(rows: seq<SqlRow>, after: seq<SqlRow>, sequence: nat)
    requires ValidRows(rows, sequence) && |after| == |rows|
    requires forall i :: 0 <= i < |rows| ==>
      KeyOf(after[i]) == KeyOf(rows[i]) && IsRow(after[i]) && after[i].id == rows[i].id
    ensures ValidRows(after, sequence)
  {
    hide NewRecord, Text, WellFormed, NewRecordWithExpire, ShownTTL, Like, GlobMatches;
    forall row | row in after ensures IsRow(row) && 1 <= row.id <= sequence {
      var i :| 0 <= i < |after| && after[i] == row;
      assert rows[i] in rows;
    }
    forall x, y | x in after && y in after && KeyOf(x) == KeyOf(y) ensures x == y {
      var i :| 0 <= i < |after| && after[i] == x;
      var j :| 0 <= j < |after| && after[j] == y;
      assert rows[i] in rows && rows[j] in rows;
      assert rows[i] == rows[j];
      assert i == j;
    }
  }

  lemma InsertValid(rows: seq<SqlRow>, sequence: nat, k: Record, ttl: U32, expire: int)
    requires ValidRows(rows, sequence) && WellFormedKey(k) && k !in Meaning(rows, sequence).rows
    ensures var row := RowFor(k, Row(sequence + 1, ttl, expire));
            ValidRows(rows + [row], sequence + 1) && KeyOf(row) == k
    ensures forall x :: x in rows ==> KeyOf(x) != k
  {
    hide NewRecord, Text, WellFormed, Meaning, IsRow, KeyOf, RowFor;
    KeyOfRowFor(k, Row(sequence + 1, ttl, expire));
    IdOfRowFor(k, Row(sequence + 1, ttl, expire));
    forall x | x in rows ensures KeyOf(x) != k && x.id <= sequence {
      MeaningAt(rows, sequence, x);
    }
    assert forall i :: 0 <= i < |rows| ==> rows[i] in rows;
  }

  lemma IdOfRowFor(k: Record, r: Row)
    ensures RowFor(k, r).id == r.id && StoredRow(RowFor(k, r)) == r
  {
  }

  /** INSERT with the next number of the AUTOINCREMENT sequence. */
  lemma InsertMeaning(rows: seq<SqlRow>, sequence: nat, k: Record, ttl: U32, expire: int)
    requires ValidRows(rows, sequence) && WellFormedKey(k) && k !in Meaning(rows, sequence).rows
    ensures var after := rows + [RowFor(k, Row(sequence + 1, ttl, expire))];
            ValidRows(after, sequence + 1) &&
            Meaning(after, sequence + 1) == Apply(Meaning(rows, sequence), Put(k, ttl, expire))
  {
    hide NewRecord, Text, WellFormedKey, KeyOf, RowFor, StoredRow, ValidRows, IsRow;
    var row := RowFor(k, Row(sequence + 1, ttl, expire));
    var after, t := rows + [row], Meaning(rows, sequence);
    InsertValid(rows, sequence, k, ttl, expire);
    IdOfRowFor(k, Row(sequence + 1, ttl, expire));
    var t' := Apply(t, Put(k, ttl, expire));
    forall x | x in after ensures KeyOf(x) in t'.rows && t'.rows[KeyOf(x)] == StoredRow(x) {
      if x in rows {
        MeaningAt(rows, sequence, x);
      }
    }
    forall j | j in t'.rows ensures exists x :: x in after && KeyOf(x) == j {
      if j == k {
        assert row in after;
      } else {
        var x :| x in rows && KeyOf(x) == j;
        assert x in after;
      }
    }
    MeaningIs(after, sequence + 1, t');
  }

  // ------------------------------------------------------------------ queries

  /** What one row of a query becomes. */
  function ShownRecord(k: Record, row: Row, now: int): DynamicRecord {
    DynamicRecord(k.WithTTL(ShownTTL(row, now)), Some(row.id), row.expire != 0, false)
  }

  /** The answer of a listing query: the visible rows a condition picks, each once, in the order of their IDs. */
  ghost predicate IsListing(rs: seq<DynamicRecord>, t: Table, now: int, p: (Record, Row) -> bool) {
    (forall r :: r in rs ==> r.id.Some?) &&
    (forall i, j :: 0 <= i < j < |rs| ==> rs[i].id.value < rs[j].id.value) &&
    (forall r :: r in rs ==> exists k :: IsListed(t, now, p, k) && r == ShownRecord(k, t.rows[k], now)) &&
    (forall k :: IsListed(t, now, p, k) ==> ShownRecord(k, t.rows[k], now) in rs)
  }

  ghost predicate IsListed(t: Table, now: int, p: (Record, Row) -> bool, k: Record) {
    k in t.rows && IsVisible(t.rows[k], Unix(now)) && p(k, t.rows[k])
  }

  /** What a listing shows of the table: for each visible row that the condition picks one record, with the row's
      number, its key, and whether it expires; with the stored TTL if not, and else within half a second of the time
      left. */
  lemma ListingShows(rs: seq<DynamicRecord>, t: Table, now: int, p: (Record, Row) -> bool, k: Record) returns (i: nat)
    requires ValidKeys(t) && IsListing(rs, t, now, p)
    requires k in t.rows && IsVisible(t.rows[k], Unix(now)) && p(k, t.rows[k])
    requires t.rows[k].expire <= Unix(now) + t.rows[k].ttl || t.rows[k].expire == 0
    ensures i < |rs| && rs[i].id == Some(t.rows[k].id) && rs[i].record.Masked() == k && !rs[i].disabled
    ensures rs[i].volatile == (t.rows[k].expire != 0) && ShowsTTL(rs[i].record, t.rows[k], now)
  {
    hide IsVisible, WellFormed, ShownTTL, Record.GetQtype;
    assert IsListed(t, now, p, k);
    ShownTTLBound(t.rows[k], now);
    i :| 0 <= i < |rs| && rs[i] == ShownRecord(k, t.rows[k], now);
    PermanentTTL(t.rows[k], now);
  }

  lemma PermanentTTL(row: Row, now: int)
    ensures row.expire == 0 ==> ShownTTL(row, now) == row.ttl
  {
  }

  predicate ShowsTTL(r: Record, row: Row, now: int) {
    r.Ns? ||
    (if row.expire == 0 then r.GetTTL() == row.ttl
     else -Seconds(1) <= 2 * (Seconds(r.GetTTL()) - (Seconds(row.expire) - now)) <= Seconds(1))
  }

  /** One row as scanRecords converts it. */
  function ConvertRow(row: SqlRow, now: int): Outcome<DynamicRecord> {
    if row.expire != 0 then
      match NewRecordWithExpire(row.record, Seconds(row.expire), now)
      case Ok(r) => Ok(DynamicRecord(r, Some(row.id), true, false))
      case Expired => Expired
      case Malformed => Malformed
      case Panicked => Panicked
    else
      match NewRecordWithTTL(row.record, row.ttl)
      case Ok(r) => Ok(DynamicRecord(r, Some(row.id), false, false))
      case Panicked => Panicked
      case _ => Malformed
  }

  /** The first row that does not convert. */
  predicate FailsFirst(rows: seq<SqlRow>, now: int, i: nat) {
    i < |rows| && !ConvertRow(rows[i], now).Ok? && forall j :: 0 <= j < i ==> ConvertRow(rows[j], now).Ok?
  }

  /** scanRecords: the rows converted one by one; the first failure is the result. */
  method ScanRecords(rows: seq<SqlRow>, now: int) returns (r: Outcome<seq<DynamicRecord>>)
    ensures r.Ok? ==> |r.value| == |rows| && forall i :: 0 <= i < |rows| ==> ConvertRow(rows[i], now) == Ok(r.value[i])
    ensures !r.Ok? ==> exists i :: 0 <= i < |rows| && FailsFirst(rows, now, i) &&
                         (r.Expired? <==> ConvertRow(rows[i], now).Expired?) &&
                         (r.Panicked? <==> ConvertRow(rows[i], now).Panicked?)
  {
    hide NewRecord, Text, WellFormed, NewRecordWithExpire, ShownTTL, Like, GlobMatches;
    var result: seq<DynamicRecord> := [];
    for i := 0 to |rows|
      invariant |result| == i
      invariant forall j :: 0 <= j < i ==> ConvertRow(rows[j], now) == Ok(result[j])
    {
      match ConvertRow(rows[i], now) {
        case Ok(dr) => result := result + [dr];
        case Expired =>
          assert FailsFirst(rows, now, i);
          return Expired;
        case Malformed =>
          assert FailsFirst(rows, now, i);
          return Malformed;
        case Panicked =>
          assert FailsFirst(rows, now, i);
          return Panicked;
      }
    }
    return Ok(result);
  }

  /** A row that passes the SQL filter converts, and shows its key. */
  lemma VisibleRowConverts(row: SqlRow, now: int)
    requires IsRow(row) && IsVisible(StoredRow(row), Unix(now))
    ensures ConvertRow(row, now) == Ok(ShownRecord(KeyOf(row), StoredRow(row), now))
  {
    hide NewRecord, Text, WellFormed, NewRecordWithExpire;
    var k := KeyOf(row);
    if row.expire != 0 {
      VisibleRowsConvert(k, StoredRow(row), now);
    } else {
      ParseText(k);
    }
  }

  predicate NotExpired(row: SqlRow, now: int) {
    row.expire == 0 || row.expire > Unix(now)
  }

  /** One picked row: what it shows and where the table has it. */
  lemma PickedRow(rows: seq<SqlRow>, sequence: nat, now: int, p: (Record, Row) -> bool, row: SqlRow)
    requires ValidRows(rows, sequence) && row in rows && NotExpired(row, now) && p(KeyOf(row), StoredRow(row))
    ensures var t, k := Meaning(rows, sequence), KeyOf(row);
            IsListed(t, now, p, k) && t.rows[k].id == row.id &&
            ConvertRow(row, now) == Ok(ShownRecord(k, t.rows[k], now))
  {
    hide NewRecord, Text, WellFormed, ConvertRow, ShownTTL, Meaning, KeyOf;
    MeaningAt(rows, sequence, row);
    VisibleRowConverts(row, now);
  }

  /** A query that picks rows by a condition on their key and number lists them. */
  lemma ScanIsListing(rows: seq<SqlRow>, sequence: nat, now: int, p: (Record, Row) -> bool, picked: seq<SqlRow>,
                      result: seq<DynamicRecord>)
    requires ValidRows(rows, sequence) && ById(picked)
    requires forall row :: row in picked <==> row in rows && NotExpired(row, now) && p(KeyOf(row), StoredRow(row))
    requires |result| == |picked|
    requires forall i :: 0 <= i < |picked| ==> ConvertRow(picked[i], now) == Ok(result[i])
    ensures IsListing(result, Meaning(rows, sequence), now, p)
  {
    hide ConvertRow, ShownTTL, Meaning, KeyOf, ValidRows, Record.WithTTL;
    var t := Meaning(rows, sequence);
    forall i | 0 <= i < |picked|
      ensures IsListed(t, now, p, KeyOf(picked[i])) && t.rows[KeyOf(picked[i])].id == picked[i].id
      ensures result[i] == ShownRecord(KeyOf(picked[i]), t.rows[KeyOf(picked[i])], now)
    {
      assert picked[i] in picked;
      PickedRow(rows, sequence, now, p, picked[i]);
    }
    forall r | r in result
      ensures r.id.Some? && exists k :: IsListed(t, now, p, k) && r == ShownRecord(k, t.rows[k], now)
    {
      var i :| 0 <= i < |result| && result[i] == r;
      assert IsListed(t, now, p, KeyOf(picked[i]));
    }
    forall k | IsListed(t, now, p, k) ensures ShownRecord(k, t.rows[k], now) in result {
      var row := RowOfKey(rows, sequence, k);
      assert row in picked;
      var i :| 0 <= i < |picked| && picked[i] == row;
      assert result[i] in result;
    }
  }

  /** The qtype column identifies the type of a record; an unknown type matches no row. */
  lemma QtypeColumn(k: Record, qtype: U16)
    ensures QtypeToString(k.GetQtype()) == QtypeToString(qtype) <==> k.GetQtype() == qtype
  {
    ParseKindOfType(k.GetQtype());
    if qtype in RECORD_TYPES {
      ParseKindOfType(qtype);
    } else {
      assert ParseKind("UNKNOWN") == None;
    }
  }

  /** The answer to a question: the visible records of that name and type, each once, in some order. */
  ghost predicate IsAnswer(rs: seq<Record>, t: Table, now: int, name: string, qtype: U16) {
    NoDuplicates(rs) &&
    (forall r :: r in rs ==> exists k :: IsAsked(t, now, name, qtype, k) && r == k.WithTTL(ShownTTL(t.rows[k], now))) &&
    (forall k :: IsAsked(t, now, name, qtype, k) ==> k.WithTTL(ShownTTL(t.rows[k], now)) in rs)
  }

  ghost predicate IsAsked(t: Table, now: int, name: string, qtype: U16, k: Record) {
    k in t.rows && IsVisible(t.rows[k], Unix(now)) && k.name == name && k.GetQtype() == qtype
  }

  // ---------------------------------------------------------------- the resolver

  /** An answer holds records of the name and type asked for, each that of a visible row, and misses none. */
  lemma AnswerShows(rs: seq<Record>, t: Table, now: int, name: string, qtype: U16)
    requires ValidKeys(t) && IsAnswer(rs, t, now, name, qtype)
    ensures forall r :: r in rs ==>
              r.name == name && r.GetQtype() == qtype &&
              r.Masked() in t.rows && IsVisible(t.rows[r.Masked()], Unix(now))
    ensures forall k :: k in t.rows && k.name == name && k.GetQtype() == qtype && IsVisible(t.rows[k], Unix(now)) ==>
              exists r :: r in rs && r.Masked() == k
  {
    hide IsVisible, WellFormed, ShownTTL, Record.GetQtype;
    forall r | r in rs
      ensures r.name == name && r.GetQtype() == qtype
      ensures r.Masked() in t.rows && IsVisible(t.rows[r.Masked()], Unix(now))
    {
      var k :| IsAsked(t, now, name, qtype, k) && r == k.WithTTL(ShownTTL(t.rows[k], now));
      assert r.Masked() == k;
    }
    forall k | k in t.rows && k.name == name && k.GetQtype() == qtype && IsVisible(t.rows[k], Unix(now))
      ensures exists r :: r in rs && r.Masked() == k
    {
      assert IsAsked(t, now, name, qtype, k);
      assert k.WithTTL(ShownTTL(t.rows[k], now)).Masked() == k;
    }
  }

  class SqliteResolver {
    var rows: seq<SqlRow>
    var sequence: nat

    ghost predicate Valid()
      reads this
    {
      ValidRows(rows, sequence)
    }

    ghost function Contents(): Table
      reads this
    {
      Meaning(rows, sequence)
    }

    constructor ()
      ensures Valid() && Contents() == EMPTY
    {
      rows := [];
      sequence := 0;
    }

    method InsertRecord(line: DynamicRecord, at: Readings)
      requires Valid() && WellFormed(line.record)
      modifies this
      ensures Valid() && Contents() == ApplyAll(old(Contents()), PutOps(line, at))
      decreases line.record.Address?
    {
      hide NewRecord, Text, WellFormed, ValidRows, Meaning, ReverseRecord, Update;
      var r := line.record;
      var expire := 0;
      if line.volatile {
        expire := Unix(at.first + Seconds(r.GetTTL()));
      }
      ghost var k, op := r.Masked(), Put(r.Masked(), r.GetTTL(), expire);
      MaskedWellFormed(r);
      UpdateMeaning(rows, sequence, k, r.GetTTL(), expire);
      HasTextIffHasKey(rows, sequence, k);
      var sameText := (row: SqlRow) => row.record == WithoutTTL(r);
      var updated := |Select(rows, sameText)|;
      EmptySelection(rows, sameText);
      rows := Update(rows, r.GetTTL(), expire, WithoutTTL(r));
      if updated == 0 {
        InsertMeaning(rows, sequence, k, r.GetTTL(), expire);
        rows := rows + [SqlRow(sequence + 1, r.name, QtypeToString(r.GetQtype()), r.GetTTL(), expire, WithoutTTL(r))];
        sequence := sequence + 1;
      }
      assert Contents() == Apply(old(Contents()), op);
      PutOpsShape(line, at);
      ApplyTwo(old(Contents()), op, op);
      if r.Address? {
        var ptr := DynamicRecord(ReverseRecord(r), None, line.volatile, false);
        var later := Readings(at.second, at.second);
        ReverseRecordWellFormed(r);
        PutOpsShape(ptr, later);
        InsertRecord(ptr, later);
        ApplyTwo(old(Contents()), op, PutOps(ptr, later)[0]);
        ApplyTwo(Apply(old(Contents()), op), PutOps(ptr, later)[0], op);
      }
    }

    method DropRecord(line: DynamicRecord)
      requires Valid() && WellFormed(line.record)
      modifies this
      ensures Valid() && Contents() == ApplyAll(old(Contents()), DropOps(line))
      decreases line.record.Address?
    {
      hide NewRecord, Text, WellFormed, ValidRows, Meaning, ReverseRecord;
      var r := line.record;
      ghost var k, op := r.Masked(), Drop(r.Masked(), r.GetTTL(), line.id);
      MaskedWellFormed(r);
      DropMeaning(rows, sequence, k, r.GetTTL(), line.id);
      if line.id == None {
        rows := Delete(rows, HasTtlAndText(r.GetTTL(), WithoutTTL(r)));
      } else {
        rows := Delete(rows, HasIdTtlAndText(line.id.value, r.GetTTL(), WithoutTTL(r)));
      }
      assert Contents() == Apply(old(Contents()), op);
      DropOpsShape(line);
      ApplyTwo(old(Contents()), op, op);
      if r.Address? {
        var ptr := DynamicRecord(ReverseRecord(r), None, line.volatile, false);
        ReverseRecordWellFormed(r);
        DropOpsShape(ptr);
        DropRecord(ptr);
        ApplyTwo(old(Contents()), op, DropOps(ptr)[0]);
        ApplyTwo(Apply(old(Contents()), op), DropOps(ptr)[0], op);
      }
    }

    /** One transaction: every line in turn, then the commit; without one everything is rolled back. */
    method SetRecords(rs: seq<DynamicRecord>, at: seq<Readings>, commits: bool) returns (ok: bool)
      requires Valid() && WellFormedBatch(rs) && |at| == |rs|
      modifies this
      ensures Valid() && ok == commits
      ensures Contents() == if commits then ApplyAll(old(Contents()), BatchOps(rs, at)) else old(Contents())
    {
      hide NewRecord, Text, WellFormed, NewRecordWithExpire, ShownTTL, Like, GlobMatches;
      var rowsBefore, sequenceBefore := rows, sequence;
      assert BatchOps(rs[..0], at[..0]) == [];
      for i := 0 to |rs|
        invariant Valid() && Contents() == ApplyAll(old(Contents()), BatchOps(rs[..i], at[..i]))
      {
        if rs[i].disabled {
          DropRecord(rs[i]);
        } else {
          InsertRecord(rs[i], at[i]);
        }
        BatchOpsPrefix(rs, at, i);
        ApplyAllAppend(old(Contents()), BatchOps(rs[..i], at[..i]), LineOps(rs[i], at[i]));
      }
      assert rs[..|rs|] == rs && at[..|rs|] == at;
      if !commits {
        rows, sequence := rowsBefore, sequenceBefore;
      }
      return commits;
    }

    /** One tick of manageExpire. */
    method DeleteExpired(now: int)
      requires Valid()
      modifies this
      ensures Valid() && Contents() == Sweep(old(Contents()), Unix(now))
    {
      hide NewRecord, Text, WellFormed, NewRecordWithExpire, ShownTTL, Like, GlobMatches;
      var p := (row: SqlRow) => row.expire > 0 && row.expire < Unix(now);
      DeleteMeaning(rows, sequence, p);
      rows := Delete(rows, p);
      SameRows(Contents(), Sweep(old(Contents()), Unix(now)));
    }

    method RemoveRecord(id: int) returns (result: RemoveResult)
      requires Valid()
      modifies this
      ensures Valid()
      ensures result == (if HasId(old(Contents()), id) then Removed else NoSuchRecord)
      ensures Contents() == RemoveById(old(Contents()), id)
    {
      hide NewRecord, Text, WellFormed, KeyOf, IsRow;
      var p := (row: SqlRow) => row.id == id;
      DeleteMeaning(rows, sequence, p);
      EmptySelection(rows, p);
      var affected := |Select(rows, p)|;
      assert affected == 0 <==> !HasId(Contents(), id) by {
        forall row | row in rows ensures KeyOf(row) in Contents().rows && Contents().rows[KeyOf(row)].id == row.id {
          MeaningAt(rows, sequence, row);
        }
        forall k | k in Contents().rows && Contents().rows[k].id == id ensures affected != 0 {
          var row :| row in rows && KeyOf(row) == k;
          assert p(row);
        }
      }
      rows := Delete(rows, p);
      SameRows(Contents(), RemoveById(old(Contents()), id));
      return if affected == 0 then NoSuchRecord else Removed;
    }

    /** A listing query: the rows a condition picks among those that have not expired. */
    method Query(p: SqlRow -> bool, ghost q: (Record, Row) -> bool, now: int)
      returns (r: Outcome<seq<DynamicRecord>>)
      requires Valid()
      requires forall k, row :: WellFormedKey(k) ==> (p(RowFor(k, row)) <==> q(k, row))
      ensures r.Ok? && IsListing(r.value, Contents(), now, q)
    {
      hide NewRecord, Text, WellFormed, NewRecordWithExpire, ShownTTL, Like, GlobMatches;
      var condition := (row: SqlRow) => p(row) && NotExpired(row, now);
      var picked := Select(rows, condition);
      FilterKeepsOrder(rows, condition);
      forall row | row in picked ensures ConvertRow(row, now).Ok? {
        VisibleRowConverts(row, now);
      }
      r := ScanRecords(picked, now);
      assert r.Ok? by {
        assert forall i :: 0 <= i < |picked| ==> picked[i] in picked;
      }
      ScanIsListing(rows, sequence, now, q, picked, r.value);
    }

    method AllRecords(now: int) returns (r: Outcome<seq<DynamicRecord>>)
      requires Valid()
      ensures r.Ok? && IsListing(r.value, Contents(), now, (k, row) => true)
    {
      r := Query(row => true, (k, row) => true, now);
    }

    method SearchRecords(suffix: Domain, now: int) returns (r: Outcome<seq<DynamicRecord>>)
      requires Valid()
      ensures r.Ok? && IsListing(r.value, Contents(), now, (k: Record, row) => SuffixFinds(Fqdn(suffix), k.name))
    {
      hide NewRecord, Text, WellFormed, NewRecordWithExpire, ShownTTL, Like, GlobMatches;
      var suf := Rewrite(Fqdn(suffix), LIKE_ESCAPES);
      r := Query((row: SqlRow) => row.name == suf || Like("%." + suf, row.name),
                 (k: Record, row) => SuffixFinds(Fqdn(suffix), k.name), now);
    }

    method GlobRecords(pattern: string, now: int) returns (r: Outcome<seq<DynamicRecord>>)
      requires Valid()
      ensures r.Ok? && IsListing(r.value, Contents(), now, (k: Record, row) => GlobMatches(Fold(pattern), Fold(k.name)))
    {
      hide NewRecord, Text, WellFormed, NewRecordWithExpire, ShownTTL, Like, GlobMatches;
      var like := Rewrite(pattern, LIKE_GLOB);
      forall s ensures Like(like, s) <==> GlobMatches(Fold(pattern), Fold(s)) {
        LikePatternMeaning(pattern, s);
      }
      r := Query((row: SqlRow) => Like(like, row.name),
                 (k: Record, row) => GlobMatches(Fold(pattern), Fold(k.name)), now);
    }

    method GetRecord(id: int, now: int) returns (r: Outcome<seq<DynamicRecord>>)
      requires Valid()
      ensures r.Ok? && IsListing(r.value, Contents(), now, (k, row: Row) => row.id == id)
    {
      hide NewRecord, Text, WellFormed, NewRecordWithExpire, ShownTTL, Like, GlobMatches;
      r := Query((row: SqlRow) => row.id == id, (k, row: Row) => row.id == id, now);
    }

    /** Resolve: the records added to the response. */
    method Resolve(name: string, qtype: U16, now: int) returns (r: Outcome<seq<Record>>)
      requires Valid()
      ensures r.Ok? && IsAnswer(r.value, Contents(), now, name, qtype)
    {
      hide NewRecord, Text, WellFormed, NewRecordWithExpire, ShownTTL, Like, GlobMatches;
      var p := (row: SqlRow) => row.name == name && row.qtype == QtypeToString(qtype);
      forall k: Record ensures QtypeToString(k.GetQtype()) == QtypeToString(qtype) <==> k.GetQtype() == qtype {
        QtypeColumn(k, qtype);
      }
      var listed := Query(p, NameAndType(name, qtype), now);
      var answer := seq(|listed.value|, i requires 0 <= i < |listed.value| => listed.value[i].record);
      MeaningValid(rows, sequence);
      ListingIsAnswer(listed.value, answer, Contents(), now, name, qtype);
      return Ok(answer);
    }
  }

  function NameAndType(name: string, qtype: U16): (Record, Row) -> bool {
    (k: Record, row: Row) => k.name == name && k.GetQtype() == qtype
  }

  lemma KeyListed(rs: seq<DynamicRecord>, t: Table, now: int, name: string, qtype: U16, i: nat) returns (k: Record)
    requires IsListing(rs, t, now, NameAndType(name, qtype)) && i < |rs|
    ensures IsAsked(t, now, name, qtype, k) && rs[i] == ShownRecord(k, t.rows[k], now)
  {
    assert rs[i] in rs;
    k :| IsListed(t, now, NameAndType(name, qtype), k) && rs[i] == ShownRecord(k, t.rows[k], now);
  }

  lemma ListedTwice(rs: seq<DynamicRecord>, t: Table, now: int, name: string, qtype: U16, i: nat, j: nat)
    requires ValidKeys(t) && IsListing(rs, t, now, NameAndType(name, qtype)) && i < j < |rs|
    ensures rs[i].record != rs[j].record
  {
    hide WellFormed, ShownTTL, Record.GetQtype, IsVisible;
    var k := KeyListed(rs, t, now, name, qtype, i);
    var l := KeyListed(rs, t, now, name, qtype, j);
    assert k == rs[i].record.Masked() && l == rs[j].record.Masked();
  }

  /** Records are found again without their numbers. */
  lemma ListingIsAnswer(rs: seq<DynamicRecord>, answer: seq<Record>, t: Table, now: int, name: string, qtype: U16)
    requires ValidKeys(t) && IsListing(rs, t, now, NameAndType(name, qtype))
    requires |answer| == |rs| && forall i :: 0 <= i < |rs| ==> answer[i] == rs[i].record
    ensures IsAnswer(answer, t, now, name, qtype)
  {
    hide WellFormed, ShownTTL, Record.GetQtype, IsVisible;
    forall r | r in answer
      ensures exists k :: IsAsked(t, now, name, qtype, k) && r == k.WithTTL(ShownTTL(t.rows[k], now))
    {
      var i :| 0 <= i < |answer| && answer[i] == r;
      var k := KeyListed(rs, t, now, name, qtype, i);
    }
    forall i, j | 0 <= i < j < |answer| ensures answer[i] != answer[j] {
      ListedTwice(rs, t, now, name, qtype, i, j);
    }
    forall k | IsAsked(t, now, name, qtype, k) ensures k.WithTTL(ShownTTL(t.rows[k], now)) in answer {
      assert IsListed(t, now, NameAndType(name, qtype), k);
      var i :| 0 <= i < |rs| && rs[i] == ShownRecord(k, t.rows[k], now);
      assert answer[i] in answer;
    }
  }

  /** The condition of SearchRecords. */
  predicate SuffixFinds(suffix: string, name: string) {
    name == EscapeLike(suffix) || Like("%." + EscapeLike(suffix), name)
  }

  lemma EmptySelection(rows: seq<SqlRow>, p: SqlRow -> bool)
    ensures |Select(rows, p)| == 0 <==> !exists row :: row in rows && p(row)
  {
    if |Select(rows, p)| > 0 {
      assert Select(rows, p)[0] in Select(rows, p);
    }
  }

  lemma SameRows(a: Table, b: Table)
    requires a.last == b.last
    requires forall k :: k in a.rows <==> k in b.rows
    requires forall k :: k in a.rows ==> a.rows[k] == b.rows[k]
    ensures a == b
  {
    assert a.rows.Keys == b.rows.Keys;
    assert a.rows == b.rows;
  }

  lemma DropBy(rows: seq<SqlRow>, sequence: nat, k: Record, ttl: U32, id: Option<int>, p: SqlRow -> bool)
    requires ValidRows(rows, sequence)
    requires forall j :: j in Meaning(rows, sequence).rows ==>
      var row := Meaning(rows, sequence).rows[j];
      (p(RowFor(j, row)) <==> j == k && row.ttl == ttl && (id.None? || id.value == row.id))
    ensures ValidRows(Delete(rows, p), sequence)
    ensures Meaning(Delete(rows, p), sequence) == Apply(Meaning(rows, sequence), Drop(k, ttl, id))
  {
    hide ValidRows, RowFor, Delete, Keys, RowOf;
    DeleteMeaning(rows, sequence, p);
    SameRows(Meaning(Delete(rows, p), sequence), Apply(Meaning(rows, sequence), Drop(k, ttl, id)));
  }

  lemma DropMeaning(rows: seq<SqlRow>, sequence: nat, k: Record, ttl: U32, id: Option<int>)
    requires ValidRows(rows, sequence) && WellFormedKey(k)
    ensures var p := if id.None? then HasTtlAndText(ttl, Text(k)) else HasIdTtlAndText(id.value, ttl, Text(k));
            ValidRows(Delete(rows, p), sequence) &&
            Meaning(Delete(rows, p), sequence) == Apply(Meaning(rows, sequence), Drop(k, ttl, id))
  {
    hide Text, WellFormedKey, ValidRows, Meaning, Delete, Apply;
    MeaningValid(rows, sequence);
    forall j | j in Meaning(rows, sequence).rows ensures Text(j) == Text(k) <==> j == k {
      KeyTextInjective(j, k);
    }
    if id.None? {
      DropBy(rows, sequence, k, ttl, id, HasTtlAndText(ttl, Text(k)));
    } else {
      DropBy(rows, sequence, k, ttl, id, HasIdTtlAndText(id.value, ttl, Text(k)));
    }
  }

  lemma KeyTextInjective(j: Record, k: Record)
    requires WellFormedKey(j) && WellFormedKey(k)
    ensures Text(j) == Text(k) <==> j == k
  {
    hide Text, WellFormed;
    TextInjective(j, k);
  }
}
