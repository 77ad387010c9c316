/** DELETE of the text that a GET of all records answered. */
module Listings {
  import opened Strings
  import opened Records
  import opened DynamicRecords
  import opened DynamicText
  import opened Semicolons
  import opened Placeholders
  import opened Store
  import opened Expiry
  import opened Sqlite
  import opened RestApi

  // ------------------------------------------------------------ lists of drops

  predicate AllDrops(ops: seq<Op>) {
    forall op :: op in ops ==> op.Drop?
  }

  /** Drops take away exactly the rows that one of them hits, and change no other. */
  lemma {:induction false} DropsTakeTheirRows(t: Table, ops: seq<Op>, k: Record)
    requires AllDrops(ops)
    ensures k in ApplyAll(t, ops).rows <==> k in t.rows && !exists op :: op in ops && op.key == k && Hits(t, op)
    ensures k in ApplyAll(t, ops).rows ==> ApplyAll(t, ops).rows[k] == t.rows[k]
  {
    if ops != [] {
      var n := |ops| - 1;
      assert ops[n] in ops && ops == ops[..n] + [ops[n]];
      DropsTakeTheirRows(t, ops[..n], k);
    }
  }

  lemma DisabledBatchDrops(ds: seq<DynamicRecord>, at: seq<Readings>)
    requires |at| == |ds| && forall i :: 0 <= i < |ds| ==> ds[i].disabled
    ensures AllDrops(BatchOps(ds, at))
  {
    FlattenAll(PerLine(ds, at), (op: Op) => op.Drop?);
  }

  lemma {:induction false} FlattenHolds<T>(xs: seq<seq<T>>, i: nat, x: T)
    requires i < |xs| && x in xs[i]
    ensures x in Flatten(xs)
  {
    if i < |xs| - 1 {
      FlattenHolds(xs[..|xs| - 1], i, x);
    }
  }

  lemma {:induction false} FlattenFrom<T>(xs: seq<seq<T>>, x: T) returns (i: nat)
    requires x in Flatten(xs)
    ensures i < |xs| && x in xs[i]
  {
    var n := |xs| - 1;
    if x in xs[n] {
      i := n;
    } else {
      i := FlattenFrom(xs[..n], x);
    }
  }

  // --------------------------------------------------------- what a listing drops

  /** The TTL that the line of a row shows and is dropped by. */
  function LineTTL(k: Record, row: Row, now: int): U32 {
    k.WithTTL(ShownTTL(row, now)).GetTTL()
  }

  ghost predicate IsDroppedByOwnLine(t: Table, now: int, k: Record) {
    k in t.rows && IsVisible(t.rows[k], Unix(now)) && LineTTL(k, t.rows[k], now) == t.rows[k].ttl
  }

  /** The line of an address drops its reverse row too, under the TTL of the address. */
  ghost predicate IsDroppedByAddress(t: Table, now: int, k: Record, a: Record) {
    k in t.rows && a in t.rows && a.Address? && IsVisible(t.rows[a], Unix(now)) && ReverseRecord(a).Masked() == k &&
    LineTTL(a, t.rows[a], now) == t.rows[k].ttl
  }

  /** The rows that stay: those that are not shown or are shown with another TTL than the stored one, unless the line
      of an address drops them. */
  ghost predicate Survives(t: Table, now: int, k: Record) {
    k in t.rows && !IsDroppedByOwnLine(t, now, k) && !exists a :: IsDroppedByAddress(t, now, k, a)
  }

  lemma ShownLine(k: Record, row: Row, now: int)
    requires k == k.Masked()
    ensures var d := ShownRecord(k, row, now);
            d.record.Masked() == k && d.record.GetTTL() == LineTTL(k, row, now) &&
            d.id == Some(row.id) && !d.disabled &&
            (d.record.Address? <==> k.Address?)
    ensures k.Address? ==> ReverseRecord(ShownRecord(k, row, now).record).Masked() == ReverseRecord(k).Masked()
  {
  }

  /** The drops of the flipped line of a row. */
  lemma FlippedShown(k: Record, row: Row, now: int, at: Readings)
    requires k == k.Masked()
    ensures var ops, ttl := LineOps(Flip(ShownRecord(k, row, now)), at), LineTTL(k, row, now);
            Drop(k, ttl, Some(row.id)) in ops && (k.Address? ==> Drop(ReverseRecord(k).Masked(), ttl, None) in ops) &&
            forall op :: op in ops ==>
              op == Drop(k, ttl, Some(row.id)) || (k.Address? && op == Drop(ReverseRecord(k).Masked(), ttl, None))
  {
    hide Record.Masked, Record.GetTTL, ReverseRecord, ShownRecord, LineTTL;
    ShownLine(k, row, now);
    var d := Flip(ShownRecord(k, row, now));
    DropOpsShape(d);
    assert DropOps(d)[0] in DropOps(d);
    if k.Address? {
      assert DropOps(d)[1] in DropOps(d);
    }
  }

  ghost predicate ListsAll(ds: seq<DynamicRecord>, t: Table, now: int, p: (Record, Row) -> bool) {
    IsListing(ds, t, now, p) && forall k, row :: p(k, row)
  }

  lemma LineOfRow(ds: seq<DynamicRecord>, t: Table, now: int, p: (Record, Row) -> bool, k: Record) returns (i: nat)
    requires ListsAll(ds, t, now, p) && k in t.rows && IsVisible(t.rows[k], Unix(now))
    ensures i < |ds| && ds[i] == ShownRecord(k, t.rows[k], now)
  {
    assert IsListed(t, now, p, k);
    i :| 0 <= i < |ds| && ds[i] == ShownRecord(k, t.rows[k], now);
  }

  lemma RowOfLine(ds: seq<DynamicRecord>, t: Table, now: int, p: (Record, Row) -> bool, i: nat) returns (k: Record)
    requires ListsAll(ds, t, now, p) && i < |ds|
    ensures k in t.rows && IsVisible(t.rows[k], Unix(now)) && ds[i] == ShownRecord(k, t.rows[k], now)
  {
    assert ds[i] in ds;
    k :| IsListed(t, now, p, k) && ds[i] == ShownRecord(k, t.rows[k], now);
  }

  /** Some drop of the flipped listing hits a row exactly when the row does not survive. */
  lemma HitUnlessSurvives(t: Table, ds: seq<DynamicRecord>, now: int, at: seq<Readings>, p: (Record, Row) -> bool,
                          k: Record)
    requires Store.Valid(t) && ListsAll(ds, t, now, p) && |at| == |ds| && k in t.rows
    requires AllDrops(BatchOps(Flipped(ds), at))
    ensures (exists op :: op in BatchOps(Flipped(ds), at) && op.key == k && Hits(t, op)) <==> !Survives(t, now, k)
  {
    hide WellFormed, LineOps, ShownRecord, LineTTL, Record.Masked, ReverseRecord, IsListing, Flipped, IsVisible;
    var lines := PerLine(Flipped(ds), at);
    if op :| op in BatchOps(Flipped(ds), at) && op.key == k && Hits(t, op) {
      var i := FlattenFrom(lines, op);
      var a := RowOfLine(ds, t, now, p, i);
      FlippedShown(a, t.rows[a], now, at[i]);
      assert a == k || IsDroppedByAddress(t, now, k, a);
      assert IsDroppedByOwnLine(t, now, k) || IsDroppedByAddress(t, now, k, a);
    }
    if IsDroppedByOwnLine(t, now, k) {
      var i := LineOfRow(ds, t, now, p, k);
      FlippedShown(k, t.rows[k], now, at[i]);
      FlattenHolds(lines, i, Drop(k, t.rows[k].ttl, Some(t.rows[k].id)));
    }
    if a :| IsDroppedByAddress(t, now, k, a) {
      var i := LineOfRow(ds, t, now, p, a);
      FlippedShown(a, t.rows[a], now, at[i]);
      FlattenHolds(lines, i, Drop(k, t.rows[k].ttl, None));
    }
  }

  /** DELETE of the listing of a store leaves exactly the rows that survive, as they were. */
  lemma ListingDrops(t: Table, ds: seq<DynamicRecord>, now: int, at: seq<Readings>, p: (Record, Row) -> bool)
    requires Store.Valid(t) && ListsAll(ds, t, now, p) && |at| == |ds|
    ensures OnlySurvivors(t, now, ApplyAll(t, BatchOps(Flipped(ds), at)))
  {
    hide WellFormed, BatchOps, ShownRecord, ApplyAll, Survives, IsListing, Hits;
    forall i | 0 <= i < |ds| ensures Flipped(ds)[i].disabled {
      var k := RowOfLine(ds, t, now, p, i);
      ShownLine(k, t.rows[k], now);
    }
    DisabledBatchDrops(Flipped(ds), at);
    SurvivorsAreRows(t, now);
    forall k ensures k in ApplyAll(t, BatchOps(Flipped(ds), at)).rows <==> Survives(t, now, k) {
      DropsTakeTheirRows(t, BatchOps(Flipped(ds), at), k);
      if k in t.rows {
        HitUnlessSurvives(t, ds, now, at, p, k);
      }
    }
    forall k | k in ApplyAll(t, BatchOps(Flipped(ds), at)).rows
      ensures k in t.rows && ApplyAll(t, BatchOps(Flipped(ds), at)).rows[k] == t.rows[k]
    {
      DropsTakeTheirRows(t, BatchOps(Flipped(ds), at), k);
    }
  }

  lemma SurvivorsAreRows(t: Table, now: int)
    ensures forall k :: Survives(t, now, k) ==> k in t.rows
  {
  }

  ghost predicate OnlySurvivors(t: Table, now: int, u: Table) {
    (forall k :: k in u.rows <==> Survives(t, now, k)) &&
    (forall k :: k in u.rows ==> k in t.rows && u.rows[k] == t.rows[k])
  }

  // ------------------------------------------------------------ permanent stores

  ghost predicate AllRowsPermanent(t: Table) {
    forall k :: k in t.rows ==> t.rows[k].expire == 0
  }

  /** NS rows are stored with TTL 0. */
  ghost predicate NsRowsHaveNoTTL(t: Table) {
    forall k :: k in t.rows && k.Ns? ==> t.rows[k].ttl == 0
  }

  lemma {:induction false} NsOpsHaveNoTTL(t: Table, ops: seq<Op>)
    requires NsRowsHaveNoTTL(t) && forall op :: op in ops ==> op.Put? && op.key.Ns? ==> op.ttl == 0
    ensures NsRowsHaveNoTTL(ApplyAll(t, ops))
  {
    if ops != [] {
      assert ops[|ops| - 1] in ops;
      NsOpsHaveNoTTL(t, ops[..|ops| - 1]);
    }
  }

  /** Every batch keeps it that way. */
  lemma BatchKeepsNsRows(t: Table, lines: seq<DynamicRecord>, at: seq<Readings>)
    requires NsRowsHaveNoTTL(t) && |at| == |lines|
    ensures NsRowsHaveNoTTL(ApplyAll(t, BatchOps(lines, at)))
  {
    var p := (op: Op) => op.Put? && op.key.Ns? ==> op.ttl == 0;
    forall i | 0 <= i < |lines| ensures forall op :: op in PerLine(lines, at)[i] ==> p(op) {
      MaskedNs(lines[i].record);
    }
    FlattenAll(PerLine(lines, at), p);
    NsOpsHaveNoTTL(t, BatchOps(lines, at));
  }

  lemma MaskedNs(r: Record)
    ensures r.Masked().Ns? ==> r.Ns? && r.GetTTL() == 0
  {
  }

  /** No row of a permanent store survives. */
  lemma NoneSurvives(t: Table, now: int)
    requires AllRowsPermanent(t) && NsRowsHaveNoTTL(t)
    ensures forall k :: !Survives(t, now, k)
  {
    forall k | k in t.rows ensures IsDroppedByOwnLine(t, now, k) {
      PermanentLine(k, t.rows[k], now);
    }
  }

  lemma PermanentLine(k: Record, row: Row, now: int)
    requires row.expire == 0 && (k.Ns? ==> row.ttl == 0)
    ensures IsVisible(row, Unix(now)) && LineTTL(k, row, now) == row.ttl
  {
  }

  // --------------------------------------------------------- the text of a listing

  lemma ListedAreListable(ds: seq<DynamicRecord>, t: Table, now: int, p: (Record, Row) -> bool)
    requires Store.Valid(t) && t.last <= INT64_MAX && ListsAll(ds, t, now, p)
    ensures Listable(ds) && forall i :: 0 <= i < |ds| ==> !ds[i].disabled
  {
    hide WellFormed, Record.Masked, ShownTTL, IsListing, IsVisible;
    forall i | 0 <= i < |ds| ensures WellFormed(ds[i].record) && HasGoodId(ds[i]) && !ds[i].disabled {
      var k := RowOfLine(ds, t, now, p, i);
      WithTTLWellFormed(k, ShownTTL(t.rows[k], now));
    }
  }

  lemma TTLBringsNoSemicolon(r: Record, ttl: U32)
    ensures HoldsSemicolon(r.WithTTL(ttl)) <==> HoldsSemicolon(r)
  {
  }

  ghost predicate ShowsSemicolon(t: Table, now: int) {
    exists k :: k in t.rows && IsVisible(t.rows[k], Unix(now)) && HoldsSemicolon(k)
  }

  lemma SemicolonsListed(ds: seq<DynamicRecord>, t: Table, now: int, p: (Record, Row) -> bool)
    requires ListsAll(ds, t, now, p)
    ensures (exists i :: 0 <= i < |ds| && HoldsSemicolon(ds[i].record)) <==> ShowsSemicolon(t, now)
  {
    hide HoldsSemicolon, Record.WithTTL, ShownTTL, IsListing, IsVisible;
    if i :| 0 <= i < |ds| && HoldsSemicolon(ds[i].record) {
      var k := RowOfLine(ds, t, now, p, i);
      TTLBringsNoSemicolon(k, ShownTTL(t.rows[k], now));
    }
    if k :| k in t.rows && IsVisible(t.rows[k], Unix(now)) && HoldsSemicolon(k) {
      var i := LineOfRow(ds, t, now, p, k);
      TTLBringsNoSemicolon(k, ShownTTL(t.rows[k], now));
    }
  }

  /** Rows whose text does not look like a placeholder. */
  ghost predicate NoPlaceholders(t: Table) {
    forall k :: k in t.rows ==> !HasPlaceholder(Text(k))
  }

  lemma PlaceholderInLine(name: Domain, ttl: U32, qtype: U16, data: string)
    ensures HasPlaceholder(Line(name, ttl, QtypeToString(qtype), data)) <==>
      HasPlaceholder(Fqdn(name)) || HasPlaceholder(data)
  {
    hide Fqdn, HasPlaceholder;
    var middle := Decimal(ttl) + " IN " + QtypeToString(qtype);
    assert '$' !in Decimal(ttl) && '$' !in " IN " && '$' !in QtypeToString(qtype);
    NoDollarNoPlaceholder(middle);
    AcrossSeparator(middle, ' ', data);
    AcrossSeparator(Fqdn(name), ' ', middle + [' '] + data);
    assert Line(name, ttl, QtypeToString(qtype), data) == Fqdn(name) + [' '] + (middle + [' '] + data);
  }

  lemma TTLBringsNoPlaceholder(r: Record, ttl: U32)
    ensures HasPlaceholder(Text(r.WithTTL(ttl))) <==> HasPlaceholder(Text(r))
  {
    hide Fqdn, DataText, HasPlaceholder;
    var q := r.WithTTL(ttl);
    SameData(r, ttl);
    if !r.Ns? {
      PlaceholderInLine(r.name, r.ttl, r.GetQtype(), DataText(r));
      PlaceholderInLine(q.name, q.ttl, q.GetQtype(), DataText(q));
    }
  }

  lemma SameData(r: Record, ttl: U32)
    ensures DataText(r.WithTTL(ttl)) == DataText(r) && r.WithTTL(ttl).name == r.name
  {
  }

  lemma LinePlaceholder(d: DynamicRecord)
    requires !d.disabled && !HasPlaceholder(Text(d.record))
    ensures !HasPlaceholder(LineText(d))
  {
    hide Text, HasPlaceholder, Annotations, Join;
    if Annotations(d) != [] {
      BodyShape(d);
      NotesHaveNo(d, '$');
      NoDollarNoPlaceholder([';'] + Notes(d));
      AcrossSeparator(Text(d.record), ' ', [';'] + Notes(d));
      assert Text(d.record) + " " + [';'] + Notes(d) == Text(d.record) + [' '] + ([';'] + Notes(d));
    }
  }

  lemma ListingPlaceholder(ds: seq<DynamicRecord>, t: Table, now: int, p: (Record, Row) -> bool)
    requires ListsAll(ds, t, now, p) && NoPlaceholders(t)
    ensures !HasPlaceholder(ListingText(ds))
  {
    hide Text, LineText, ShownTTL, Join, Record.WithTTL, HasPlaceholder, IsListing, IsVisible;
    forall i | 0 <= i < |ds| ensures !HasPlaceholder(LineText(ds[i])) {
      var k := RowOfLine(ds, t, now, p, i);
      TTLBringsNoPlaceholder(k, ShownTTL(t.rows[k], now));
      LinePlaceholder(ds[i]);
    }
    NoDollarNoPlaceholder("");
    JoinedPlaceholder(LineTexts(ds) + [""], '\n');
  }

  /** GET of all records, and DELETE of the answer, on a store in which no row holds the text of a placeholder: the
      request is accepted exactly when no TXT row that is shown holds a semicolon; then exactly the rows that survive
      are left, and otherwise nothing has changed. */
  method DeleteListing(api: DynamicAPI, remote: string, now: int, clock: nat -> Readings) returns (response: Response)
    requires api.resolver.Valid() && api.resolver.sequence <= INT64_MAX && NoPlaceholders(api.resolver.Contents())
    modifies api.resolver
    ensures api.resolver.Valid()
    ensures response.Answered? <==> !ShowsSemicolon(old(api.resolver.Contents()), now)
    ensures response.Answered? ==> OnlySurvivors(old(api.resolver.Contents()), now, api.resolver.Contents())
    ensures !response.Answered? ==> api.resolver.Contents() == old(api.resolver.Contents())
  {
    hide Parsed, BatchOps, ApplyAll, CountDisabled, Flipped, WellFormed, IsListing, Join, LineTexts, Filled;
    hide Meaning, ValidRows, HoldsSemicolon, NoPlaceholders, OnlySurvivors, ShowsSemicolon, HasPlaceholder;
    ghost var t := api.resolver.Contents();
    ghost var p := (k: Record, row: Row) => true;
    MeaningValid(api.resolver.rows, api.resolver.sequence);
    MeaningLast(api.resolver.rows, api.resolver.sequence);
    var listing := api.resolver.AllRecords(now);
    var ds := listing.value;
    assert ListsAll(ds, t, now, p);
    ListedAreListable(ds, t, now, p);
    ListingIsParsed(ds);
    SemicolonsListed(ds, t, now, p);
    ListingPlaceholder(ds, t, now, p);
    var text := MarshalSet(ds);
    NothingFilled(text, remote);
    response := api.DeleteRecords(text, remote, clock, true);
    if response.Answered? {
      ListingDrops(t, ds, now, Times(clock, |ds|), p);
    }
  }
}
