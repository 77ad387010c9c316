/** The POST and DELETE handlers of the record API: a body is parsed to a batch, DELETE flips every line of it, and
    the batch goes to the store (rest_api.go). */
module RestApi {
  import opened Strings
  import opened Records
  import opened DynamicRecords
  import opened DynamicText
  import opened Semicolons
  import opened Placeholders
  import opened Store
  import opened Expiry
  import opened Sqlite

  // ------------------------------------------------------------- parsed bodies

  function RecordOf(f: Fields): DynamicRecord
    requires f.record.Some?
  {
    DynamicRecord(f.record.value, f.id, f.volatile, f.disabled)
  }

  /** A list of fields all of which hold a record the parser made. */
  ghost predicate AllParsed(fs: seq<Fields>) {
    forall i :: 0 <= i < |fs| ==> fs[i].record.Some? && WellFormed(fs[i].record.value)
  }

  function RecordsOf(fs: seq<Fields>): (rs: seq<DynamicRecord>)
    requires forall i :: 0 <= i < |fs| ==> fs[i].record.Some?
    ensures |rs| == |fs| && forall i :: 0 <= i < |fs| ==> rs[i] == RecordOf(fs[i])
  {
    seq(|fs|, i requires 0 <= i < |fs| => RecordOf(fs[i]))
  }

  lemma GoodIsParsed(line: string)
    ensures var r := ReadLine(NewRecord, line);
            r.Good? ==> r.fields.record.Some? && WellFormed(r.fields.record.value)
  {
    hide NewRecord, WellFormed, Cut, TrimSpace, TrimLeftChar, ReadAnnotations;
    forall s ensures NewRecord(s).Ok? ==> WellFormed(NewRecord(s).value) {
      ParsedWellFormed(s);
    }
  }

  /** A body without errors holds only records the parser made. */
  lemma {:induction false} CollectedAreParsed(lines: seq<string>)
    requires Collect(NewRecord, lines).Unmarshalled? && Collect(NewRecord, lines).errors == []
    ensures AllParsed(Collect(NewRecord, lines).records)
  {
    hide NewRecord, WellFormed, ReadLine;
    if lines != [] {
      CollectedAreParsed(lines[..|lines| - 1]);
      GoodIsParsed(lines[|lines| - 1]);
    }
  }

  /** What a body holds: nothing if one of its lines is in error; and one line can make reading it panic. */
  function Parsed(body: string): (r: Outcome<seq<DynamicRecord>>)
    ensures !r.Expired?
  {
    var read := Collect(NewRecord, Split(body, '\n'));
    if read.Crashed? then Panicked
    else if read.errors != [] then Malformed
    else
      CollectedAreParsed(Split(body, '\n'));
      Ok(RecordsOf(read.records))
  }

  lemma ParsedIsWellFormed(body: string)
    ensures Parsed(body).Ok? ==> WellFormedBatch(Parsed(body).value)
  {
    hide NewRecord, WellFormed, Collect, Split;
    if Parsed(body).Ok? {
      CollectedAreParsed(Split(body, '\n'));
    }
  }

  /** A line that makes reading a body panic. */
  predicate Stops(line: string) {
    NotesAreValid(line) &&
    (IsBareComment(line) || SetsDefault(TrimBlanks(Head(line))) || LacksText(TrimBlanks(Head(line))))
  }

  /** Reading a body panics exactly when one of its lines, with valid annotations if it has any, is a comment with
      nothing in it, sets a default for the lines behind it, or is a TXT record without a text. */
  lemma BodyPanics(body: string)
    ensures Parsed(body).Panicked? <==> exists line :: line in Split(body, '\n') && Stops(line)
  {
    hide NewRecord, ReadLine, Collect, Stops;
    var lines := Split(body, '\n');
    SplitParts(body, '\n');
    SetPanics(NewRecord, lines);
    forall i | 0 <= i < |lines| ensures ReadLine(NewRecord, lines[i]).Crash? <==> Stops(lines[i]) {
      LineStops(lines[i]);
    }
    if line :| line in lines && Stops(line) {
      var i :| 0 <= i < |lines| && lines[i] == line;
      assert ReadLine(NewRecord, lines[i]).Crash?;
    }
    if i :| 0 <= i < |lines| && ReadLine(NewRecord, lines[i]).Crash? {
      assert lines[i] in lines && Stops(lines[i]);
    }
  }

  lemma LineStops(line: string)
    requires '\n' !in line
    ensures ReadLine(NewRecord, line).Crash? <==> Stops(line)
  {
    hide NewRecord, ReadLine, NotesAreValid, IsBareComment, SetsDefault, LacksText, Head;
    PanicMeaning(line);
  }

  // ---------------------------------------------------------------- the flip

  function Flip(d: DynamicRecord): DynamicRecord {
    d.(disabled := !d.disabled)
  }

  function Flipped(rs: seq<DynamicRecord>): (fs: seq<DynamicRecord>)
    ensures |fs| == |rs| && forall i :: 0 <= i < |rs| ==> fs[i] == Flip(rs[i])
  {
    seq(|rs|, i requires 0 <= i < |rs| => Flip(rs[i]))
  }

  function CountDisabled(rs: seq<DynamicRecord>): nat {
    if rs == [] then 0 else CountDisabled(rs[..|rs| - 1]) + (if rs[|rs| - 1].disabled then 1 else 0)
  }

  /** The two counts of an answer are those of the disabled lines and of the others, and a flip exchanges them. */
  lemma {:induction false} FlipExchangesCounts(rs: seq<DynamicRecord>)
    ensures CountDisabled(rs) == |Filter(rs, (d: DynamicRecord) => d.disabled)| <= |rs|
    ensures CountDisabled(Flipped(rs)) == |rs| - CountDisabled(rs)
  {
    if rs != [] {
      var n := |rs| - 1;
      FlipExchangesCounts(rs[..n]);
      assert Flipped(rs)[..n] == Flipped(rs[..n]);
      assert Flipped(rs)[n] == Flip(rs[n]);
    }
  }

  /** What a client gets; nothing at all when the handler panics. */
  datatype Response = Answered(message: string) | BadRequest | InternalServerError | NoAnswer

  /** The clock readings of a batch. */
  function Times(clock: nat -> Readings, n: nat): (at: seq<Readings>)
    ensures |at| == n && forall i :: 0 <= i < n ==> at[i] == clock(i)
  {
    seq(n, i requires 0 <= i < n => clock(i))
  }

  /** The loop of DeleteRecords, in place. */
  method FlipAll(rs: array<DynamicRecord>)
    modifies rs
    ensures rs[..] == Flipped(old(rs[..]))
    ensures WellFormedBatch(rs[..]) <==> WellFormedBatch(old(rs[..]))
  {
    hide WellFormed;
    ghost var before := rs[..];
    for i := 0 to rs.Length
      invariant forall j :: 0 <= j < rs.Length ==> rs[j] == if j < i then Flip(before[j]) else before[j]
    {
      rs[i] := rs[i].(disabled := !rs[i].disabled);
    }
    assert rs[..] == Flipped(before);
    FlipKeepsRecords(before);
  }

  lemma FlipKeepsRecords(rs: seq<DynamicRecord>)
    ensures WellFormedBatch(Flipped(rs)) <==> WellFormedBatch(rs)
  {
    hide WellFormed;
    assert forall i :: 0 <= i < |rs| ==> Flipped(rs)[i].record == rs[i].record;
  }

  /** parseRecordSet. */
  method ParseRecordSet(req: string, remote: string) returns (r: Outcome<array<DynamicRecord>>)
    ensures var parsed := Parsed(Filled(req, remote));
            r.Ok? == parsed.Ok? && r.Malformed? == parsed.Malformed? && r.Panicked? == parsed.Panicked? &&
            (r.Ok? ==> fresh(r.value) && r.value[..] == parsed.value && WellFormedBatch(r.value[..]))
  {
    hide NewRecord, WellFormed, Collect, Split, ReplaceText;
    var body := req;
    var replacements := [("$ADDR", remote), ("$TTL", "3600"), ("$$", "$")];
    for i := 0 to 3
      invariant i == 0 ==> body == req
      invariant i == 1 ==> body == ReplaceText(req, "$ADDR", remote)
      invariant i == 2 ==> body == ReplaceText(ReplaceText(req, "$ADDR", remote), "$TTL", "3600")
      invariant i == 3 ==> body == Filled(req, remote)
    {
      body := ReplaceText(body, replacements[i].0, replacements[i].1);
    }
    var records, errors, crashed := UnmarshalSet(NewRecord, body);
    if crashed {
      return Panicked;
    }
    assert Unmarshalled(records, errors) == Collect(NewRecord, Split(body, '\n'));
    if errors != [] {
      return Malformed;
    }
    CollectedAreParsed(Split(body, '\n'));
    ParsedIsWellFormed(body);
    var rs := new DynamicRecord[|records|](i requires 0 <= i < |records| && AllParsed(records) => RecordOf(records[i]));
    assert rs[..] == RecordsOf(records);
    return Ok(rs);
  }

  /** The counting loop of setRecords. */
  method CountLines(rs: array<DynamicRecord>) returns (message: string)
    ensures message ==
      "; 200: add:" + Itoa(rs.Length - CountDisabled(rs[..])) + " delete:" + Itoa(CountDisabled(rs[..]))
  {
    hide Itoa;
    var added, deleted := 0, 0;
    for i := 0 to rs.Length
      invariant added == i - CountDisabled(rs[..i]) && deleted == CountDisabled(rs[..i])
    {
      assert rs[..i + 1][..i] == rs[..i];
      if rs[i].disabled {
        deleted := deleted + 1;
      } else {
        added := added + 1;
      }
    }
    assert rs[..rs.Length] == rs[..];
    message := "; 200: add:" + Itoa(added) + " delete:" + Itoa(deleted);
  }

  // ------------------------------------------------------------- the handlers

  class DynamicAPI {
    const resolver: SqliteResolver

    constructor (resolver: SqliteResolver)
      ensures this.resolver == resolver
    {
      this.resolver := resolver;
    }

    /** setRecords; `commits` says whether the store takes the transaction. */
    method SetRecords(rs: array<DynamicRecord>, clock: nat -> Readings, commits: bool) returns (response: Response)
      requires resolver.Valid() && WellFormedBatch(rs[..])
      modifies resolver
      ensures resolver.Valid()
      ensures !commits ==> response.InternalServerError? && resolver.Contents() == old(resolver.Contents())
      ensures commits ==>
        response.Answered? &&
        response.message ==
          "; 200: add:" + Itoa(rs.Length - CountDisabled(rs[..])) + " delete:" + Itoa(CountDisabled(rs[..])) &&
        resolver.Contents() == ApplyAll(old(resolver.Contents()), BatchOps(rs[..], Times(clock, rs.Length)))
    {
      hide WellFormedBatch, BatchOps, ApplyAll;
      var ok := resolver.SetRecords(rs[..], Times(clock, rs.Length), commits);
      if !ok {
        return InternalServerError;
      }
      var message := CountLines(rs);
      response := Answered(message);
    }

    method PostRecords(req: string, remote: string, clock: nat -> Readings, commits: bool) returns (response: Response)
      requires resolver.Valid()
      modifies resolver
      ensures resolver.Valid() && IsAnswered(response, Parsed(Filled(req, remote)), commits)
      ensures !response.Answered? ==> resolver.Contents() == old(resolver.Contents())
      ensures response.Answered? ==>
        var rs := Parsed(Filled(req, remote)).value;
        resolver.Contents() == ApplyAll(old(resolver.Contents()), BatchOps(rs, Times(clock, |rs|))) &&
        response.message == "; 200: add:" + Itoa(|rs| - CountDisabled(rs)) + " delete:" + Itoa(CountDisabled(rs))
    {
      hide Parsed, BatchOps, ApplyAll, WellFormedBatch;
      var parsed := ParseRecordSet(req, remote);
      match parsed {
        case Panicked => return NoAnswer;
        case Malformed => return BadRequest;
        case Ok(rs) => response := SetRecords(rs, clock, commits);
      }
    }

    method DeleteRecords(req: string, remote: string, clock: nat -> Readings, commits: bool)
      returns (response: Response)
      requires resolver.Valid()
      modifies resolver
      ensures resolver.Valid() && IsAnswered(response, Parsed(Filled(req, remote)), commits)
      ensures !response.Answered? ==> resolver.Contents() == old(resolver.Contents())
      ensures response.Answered? ==>
        var rs := Parsed(Filled(req, remote)).value;
        resolver.Contents() == ApplyAll(old(resolver.Contents()), BatchOps(Flipped(rs), Times(clock, |rs|))) &&
        response.message == "; 200: add:" + Itoa(CountDisabled(rs)) + " delete:" + Itoa(|rs| - CountDisabled(rs))
    {
      hide Parsed, BatchOps, ApplyAll, WellFormedBatch, CountDisabled, Flipped;
      var parsed := ParseRecordSet(req, remote);
      match parsed {
        case Panicked => return NoAnswer;
        case Malformed => return BadRequest;
        case Ok(rs) =>
          FlipAll(rs);
          FlipExchangesCounts(Parsed(Filled(req, remote)).value);
          response := SetRecords(rs, clock, commits);
      }
    }
  }

  /** Which of the four ways a request ends. */
  predicate IsAnswered(response: Response, parsed: Outcome<seq<DynamicRecord>>, commits: bool) {
    (response.NoAnswer? <==> parsed.Panicked?) && (response.BadRequest? <==> parsed.Malformed?) &&
    (response.InternalServerError? <==> parsed.Ok? && !commits)
  }

  // --------------------------------------------------------- POST, then DELETE

  /** Lines that add records and carry no ID. */
  predicate AllEnabled(rs: seq<DynamicRecord>) {
    NoIds(rs) && forall i :: 0 <= i < |rs| ==> !rs[i].disabled
  }

  /** The rows a body names, implicit reverse rows included. */
  ghost predicate Names(rs: seq<DynamicRecord>, k: Record) {
    exists i :: 0 <= i < |rs| && NamesRow(rs[i].record, k)
  }

  predicate NamesRow(r: Record, k: Record) {
    k == r.Masked() || (r.Address? && k == ReverseRecord(r).Masked())
  }

  function UndoOne(op: Op): Op {
    match op
    case Put(key, ttl, _) => Drop(key, ttl, None)
    case Drop(_, _, _) => op
  }

  function Undo(ops: seq<Op>): (r: seq<Op>)
    ensures |r| == |ops| && forall i :: 0 <= i < |ops| ==> r[i] == UndoOne(ops[i])
  {
    seq(|ops|, i requires 0 <= i < |ops| => UndoOne(ops[i]))
  }

  lemma FlippedLine(line: DynamicRecord, at: Readings, at': Readings)
    requires !line.disabled && line.id.None?
    ensures LineOps(Flip(line), at') == Undo(LineOps(line, at))
    ensures forall op :: op in LineOps(line, at) ==> op.Put?
  {
  }

  lemma LastLine(rs: seq<DynamicRecord>, at: seq<Readings>)
    requires rs != [] && |at| == |rs|
    ensures var n := |rs| - 1; BatchOps(rs, at) == BatchOps(rs[..n], at[..n]) + LineOps(rs[n], at[n])
  {
    var n := |rs| - 1;
    BatchOpsPrefix(rs, at, n);
    assert rs[..n + 1] == rs && at[..n + 1] == at;
  }

  /** DELETE of a body undoes its puts one by one. */
  lemma {:induction false} FlippedBatch(rs: seq<DynamicRecord>, at: seq<Readings>, at': seq<Readings>)
    requires AllEnabled(rs) && |at| == |at'| == |rs|
    ensures BatchOps(Flipped(rs), at') == Undo(BatchOps(rs, at))
    ensures forall op :: op in BatchOps(rs, at) ==> op.Put?
  {
    hide LineOps;
    if rs == [] {
      assert BatchOps(rs, at) == [];
    } else {
      var n := |rs| - 1;
      FlippedBatch(rs[..n], at[..n], at'[..n]);
      FlippedLine(rs[n], at[n], at'[n]);
      LastLine(rs, at);
      LastLine(Flipped(rs), at');
      assert Flipped(rs)[..n] == Flipped(rs[..n]) && Flipped(rs)[n] == Flip(rs[n]);
      assert Undo(BatchOps(rs, at)) == Undo(BatchOps(rs[..n], at[..n])) + Undo(LineOps(rs[n], at[n]));
    }
  }

  lemma {:induction false} TouchingUndo(ops: seq<Op>, k: Record)
    ensures Touching(Undo(ops), k) == Undo(Touching(ops, k))
    ensures forall op :: op in Touching(ops, k) ==> op in ops && op.key == k
  {
    if ops != [] {
      TouchingUndo(ops[..|ops| - 1], k);
      assert Undo(ops)[..|ops| - 1] == Undo(ops[..|ops| - 1]);
    }
  }

  /** Putting a row any number of times, under any TTLs, and dropping it under each of them leaves nothing. */
  lemma UndoLeavesNothing(c: Option<Cell>, ops: seq<Op>)
    requires ops != [] && forall op :: op in ops ==> op.Put?
    ensures CellFold(CellFold(c, ops), Undo(ops)) == None
  {
    var last := ops[|ops| - 1];
    FoldDrops(CellFold(c, ops), Undo(ops));
    assert Undo(ops)[|ops| - 1] == UndoOne(last);
  }

  lemma {:induction false} UntouchedRow(t: Table, ops: seq<Op>, k: Record)
    requires Touching(ops, k) == []
    ensures k in ApplyAll(t, ops).rows <==> k in t.rows
    ensures k in t.rows ==> ApplyAll(t, ops).rows[k] == t.rows[k]
  {
    if ops != [] {
      UntouchedRow(t, ops[..|ops| - 1], k);
    }
  }

  lemma LineTouches(line: DynamicRecord, at: Readings, k: Record)
    ensures Touching(LineOps(line, at), k) != [] <==> NamesRow(line.record, k)
  {
    hide ReverseRecord, Record.Masked;
    TouchingSome(LineOps(line, at), k);
    var ops := LineOps(line, at);
    assert ops[0] in ops;
    if line.record.Address? {
      assert ops[1] in ops;
    }
  }

  lemma {:induction false} BatchTouches(rs: seq<DynamicRecord>, at: seq<Readings>, k: Record)
    requires |at| == |rs|
    ensures Touching(BatchOps(rs, at), k) != [] <==> Names(rs, k)
  {
    hide LineOps, NamesRow, Names;
    if rs == [] {
      NamesNone(k);
      assert BatchOps(rs, at) == [];
    } else {
      hide Touching, BatchOps;
      var n := |rs| - 1;
      BatchTouches(rs[..n], at[..n], k);
      LastLine(rs, at);
      TouchingAppend(BatchOps(rs[..n], at[..n]), LineOps(rs[n], at[n]), k);
      LineTouches(rs[n], at[n], k);
      NamesLast(rs, k);
    }
  }

  lemma NamesNone(k: Record)
    ensures !Names([], k)
  {
  }

  lemma NamesLast(rs: seq<DynamicRecord>, k: Record)
    requires rs != []
    ensures var n := |rs| - 1; Names(rs, k) <==> Names(rs[..n], k) || NamesRow(rs[n].record, k)
  {
    hide NamesRow;
    var front := rs[..|rs| - 1];
    if Names(front, k) {
      var i :| 0 <= i < |front| && NamesRow(front[i].record, k);
      assert NamesRow(rs[i].record, k);
    }
    if Names(rs, k) {
      var i :| 0 <= i < |rs| && NamesRow(rs[i].record, k);
      assert i < |front| ==> NamesRow(front[i].record, k);
    }
  }

  lemma NamedRowGoes(t: Table, puts: seq<Op>, k: Record)
    requires forall op :: op in puts ==> op.Put?
    requires Touching(puts, k) != []
    ensures k !in ApplyAll(ApplyAll(t, puts), Undo(puts)).rows
  {
    var t' := ApplyAll(t, puts);
    RowsAreIndependent(t, puts, k);
    RowsAreIndependent(t', Undo(puts), k);
    TouchingUndo(puts, k);
    UndoLeavesNothing(CellAt(t, k), Touching(puts, k));
  }

  lemma OtherRowStays(t: Table, puts: seq<Op>, k: Record)
    requires Touching(puts, k) == []
    ensures var u := ApplyAll(ApplyAll(t, puts), Undo(puts));
            (k in u.rows <==> k in t.rows) && (k in t.rows ==> u.rows[k] == t.rows[k])
  {
    TouchingUndo(puts, k);
    UntouchedRow(t, puts, k);
    UntouchedRow(ApplyAll(t, puts), Undo(puts), k);
  }

  /** None of the rows that a body names, and every other row as it was, its number included. */
  ghost predicate WithoutNamed(t: Table, rs: seq<DynamicRecord>, u: Table) {
    (forall k :: k in u.rows <==> k in t.rows && !Names(rs, k)) &&
    (forall k :: k in u.rows ==> u.rows[k] == t.rows[k])
  }

  /** Posting a body of enabled lines and deleting it leaves none of the rows it names, whatever TTLs it gives
      them and however often, and every other row as it was, its number included. */
  lemma PostThenDelete(t: Table, rs: seq<DynamicRecord>, at: seq<Readings>, at': seq<Readings>)
    requires AllEnabled(rs) && |at| == |at'| == |rs|
    ensures WithoutNamed(t, rs, ApplyAll(ApplyAll(t, BatchOps(rs, at)), BatchOps(Flipped(rs), at')))
  {
    hide BatchOps, Names, ApplyAll, Undo, Touching;
    FlippedBatch(rs, at, at');
    var puts := BatchOps(rs, at);
    forall k ensures Touching(puts, k) != [] <==> Names(rs, k) {
      BatchTouches(rs, at, k);
    }
    forall k | Touching(puts, k) != [] ensures k !in ApplyAll(ApplyAll(t, puts), Undo(puts)).rows {
      NamedRowGoes(t, puts, k);
    }
    forall k | Touching(puts, k) == []
      ensures var u := ApplyAll(ApplyAll(t, puts), Undo(puts));
              (k in u.rows <==> k in t.rows) && (k in t.rows ==> u.rows[k] == t.rows[k])
    {
      OtherRowStays(t, puts, k);
    }
  }

  /** The two requests, one after the other, on the API. */
  method PostAndDelete(api: DynamicAPI, req: string, remote: string, clock: nat -> Readings, clock': nat -> Readings)
    returns (posted: Response, deleted: Response)
    requires api.resolver.Valid()
    modifies api.resolver
    ensures var body := Parsed(Filled(req, remote));
            api.resolver.Valid() && posted.Answered? == deleted.Answered? == body.Ok? &&
            (body.Ok? && AllEnabled(body.value) ==>
               posted.message == "; 200: add:" + Itoa(|body.value|) + " delete:0" &&
               deleted.message == "; 200: add:0 delete:" + Itoa(|body.value|))
    ensures var body := Parsed(Filled(req, remote));
            body.Ok? && AllEnabled(body.value) ==>
              WithoutNamed(old(api.resolver.Contents()), body.value, api.resolver.Contents())
  {
    hide Parsed, BatchOps, ApplyAll, Names, CountDisabled;
    ghost var t := api.resolver.Contents();
    posted := api.PostRecords(req, remote, clock, true);
    deleted := api.DeleteRecords(req, remote, clock', true);
    if posted.Answered? {
      ghost var rs := Parsed(Filled(req, remote)).value;
      if AllEnabled(rs) {
        NoneDisabled(rs);
        PostThenDelete(t, rs, Times(clock, |rs|), Times(clock', |rs|));
      }
    }
  }

  lemma {:induction false} NoneDisabled(rs: seq<DynamicRecord>)
    requires forall i :: 0 <= i < |rs| ==> !rs[i].disabled
    ensures CountDisabled(rs) == 0
  {
    if rs != [] {
      NoneDisabled(rs[..|rs| - 1]);
    }
  }

  // ------------------------------------------------------- bodies made of listings

  /** The text of a listing, as GET answers it and clients send it back. */
  function ListingText(ds: seq<DynamicRecord>): string {
    Join(LineTexts(ds) + [""], "\n")
  }

  predicate Listable(ds: seq<DynamicRecord>) {
    forall i :: 0 <= i < |ds| ==> WellFormed(ds[i].record) && HasGoodId(ds[i])
  }

  lemma {:induction false} BadLineStays(lines: seq<string>, i: nat)
    requires i < |lines| && ReadLine(NewRecord, lines[i]).Bad? && Collect(NewRecord, lines).Unmarshalled?
    ensures Collect(NewRecord, lines).errors != []
  {
    hide ReadLine, NewRecord;
    if i < |lines| - 1 {
      BadLineStays(lines[..|lines| - 1], i);
    }
  }

  lemma FieldsBack(ds: seq<DynamicRecord>)
    ensures RecordsOf(AllFields(ds)) == ds
  {
    assert forall i :: 0 <= i < |ds| ==> RecordOf(FieldsOf(ds[i])) == ds[i];
  }

  lemma ListingDoesNotPanic(ds: seq<DynamicRecord>)
    requires Listable(ds) && forall i :: 0 <= i < |ds| ==> !ds[i].disabled
    ensures Collect(NewRecord, LineTexts(ds) + [""]).Unmarshalled?
  {
    hide NewRecord, WellFormed, ReadLine, Text, LineText, Collect, HoldsSemicolon;
    var lines := LineTexts(ds) + [""];
    SetPanics(NewRecord, lines);
    EmptyLine(NewRecord);
    forall i | 0 <= i < |lines| ensures !ReadLine(NewRecord, lines[i]).Crash? {
      if i < |ds| {
        if HoldsSemicolon(ds[i].record) {
          ReadStopsAtSemicolon(ds[i]);
        } else {
          LineRoundTripIff(ds[i]);
        }
      }
    }
  }

  /** A listing of enabled records is understood as a body exactly when no TXT record in it holds a semicolon, and
      then as the records it lists. */
  lemma ListingIsParsed(ds: seq<DynamicRecord>)
    requires Listable(ds) && forall i :: 0 <= i < |ds| ==> !ds[i].disabled
    ensures Parsed(ListingText(ds)) ==
      if exists i :: 0 <= i < |ds| && HoldsSemicolon(ds[i].record) then Malformed else Ok(ds)
  {
    hide NewRecord, WellFormed, ReadLine, Text, LineText, Collect, Split, Join, AllFields, RecordsOf;
    SetRoundTripIff(ds);
    if i :| 0 <= i < |ds| && HoldsSemicolon(ds[i].record) {
      forall j | 0 <= j < |ds| ensures '\n' !in Text(ds[j].record) {
        TextIsClean(ds[j].record);
      }
      SplitPrinted(ds);
      ListingDoesNotPanic(ds);
      ReadStopsAtSemicolon(ds[i]);
      BadLineStays(LineTexts(ds) + [""], i);
    } else {
      FieldsBack(ds);
    }
  }

  /** A listing with every line commented out or in is the body of the flipped records: POST of commented lines is
      DELETE of the lines themselves. */
  lemma CommentedListingIsFlipped(ds: seq<DynamicRecord>)
    requires Listable(ds) && forall i :: 0 <= i < |ds| ==> !HoldsSemicolon(ds[i].record)
    ensures Parsed(ListingText(ds)) == Ok(ds) && Parsed(ListingText(Flipped(ds))) == Ok(Flipped(ds))
  {
    hide NewRecord, WellFormed, ReadLine, Text, LineText, Collect, Split, Join, AllFields, RecordsOf;
    SetRoundTripIff(ds);
    SetRoundTripIff(Flipped(ds));
    FieldsBack(ds);
    FieldsBack(Flipped(ds));
  }
}
