/** The dynamic record store both backends implement: rows keyed by the text of a record without its TTL,
    numbered from a counter that only grows. Everything a batch does to it is a list of row operations. */
module Store {
  import opened Strings
  import opened Records
  import opened DynamicRecords

  /** What a row holds beside its key: expire is a Unix time in seconds, 0 for a permanent row. */
  datatype Row = Row(id: nat, ttl: U32, expire: int)

  /** Keys are records with TTL 0; `last` is the last ID given out. */
  datatype Table = Table(last: nat, rows: map<Record, Row>)

  const EMPTY := Table(0, map[])

  ghost predicate ValidIds(t: Table) {
    (forall k :: k in t.rows ==> 1 <= t.rows[k].id <= t.last) &&
    (forall j, k :: j in t.rows && k in t.rows && t.rows[j].id == t.rows[k].id ==> j == k)
  }

  ghost predicate ValidKeys(t: Table) {
    forall k :: k in t.rows ==> WellFormedKey(k)
  }

  predicate WellFormedKey(k: Record) {
    WellFormed(k) && k == k.Masked()
  }

  ghost predicate Valid(t: Table) {
    ValidIds(t) && ValidKeys(t)
  }

  // ------------------------------------------------------------ row operations

  datatype Op =
    | Put(key: Record, ttl: U32, expire: int)
    | Drop(key: Record, ttl: U32, id: Option<int>)

  function Apply(t: Table, op: Op): Table {
    match op
    case Put(key, ttl, expire) =>
      if key in t.rows then t.(rows := t.rows[key := Row(t.rows[key].id, ttl, expire)])
      else Table(t.last + 1, t.rows[key := Row(t.last + 1, ttl, expire)])
    case Drop(key, ttl, id) =>
      if key in t.rows && t.rows[key].ttl == ttl && (id.None? || id.value == t.rows[key].id)
      then t.(rows := t.rows - {key})
      else t
  }

  function ApplyAll(t: Table, ops: seq<Op>): Table {
    if ops == [] then t else Apply(ApplyAll(t, ops[..|ops| - 1]), ops[|ops| - 1])
  }

  lemma {:induction false} ApplyAllAppend(t: Table, a: seq<Op>, b: seq<Op>)
    ensures ApplyAll(t, a + b) == ApplyAll(ApplyAll(t, a), b)
  {
    if b == [] {
      assert a + b == a;
    } else {
      ApplyAllAppend(t, a, b[..|b| - 1]);
      assert (a + b)[..|a + b| - 1] == a + b[..|b| - 1];
    }
  }

  lemma ApplyTwo(t: Table, a: Op, b: Op)
    ensures ApplyAll(t, [a]) == Apply(t, a)
    ensures ApplyAll(t, [a, b]) == Apply(Apply(t, a), b)
  {
    assert [a][..0] == [] && [a, b][..1] == [a];
    assert ApplyAll(t, [a][..0]) == t;
  }

  /** DELETE by ID. */
  ghost function RemoveById(t: Table, id: int): Table {
    t.(rows := map k | k in t.rows && t.rows[k].id != id :: t.rows[k])
  }

  /** Unreadable: the records could not be read to look for the number. */
  datatype RemoveResult = Removed | NoSuchRecord | Unreadable

  ghost predicate HasId(t: Table, id: int) {
    exists k :: k in t.rows && t.rows[k].id == id
  }

  // ------------------------------------------------------- lines and batches

  /** The two clock readings a line makes: one for its own row, one for the reverse row. */
  datatype Readings = Readings(first: int, second: int)

  function ExpireOf(line: DynamicRecord, now: int): int {
    if line.volatile then Unix(now + Seconds(line.record.GetTTL())) else 0
  }

  /** What inserting a line does: its row, then the reverse row of an address. */
  function PutOps(line: DynamicRecord, at: Readings): seq<Op> {
    var r := line.record;
    [Put(r.Masked(), r.GetTTL(), ExpireOf(line, at.first))] +
    (if r.Address? then [Put(ReverseRecord(r).Masked(), r.GetTTL(), ExpireOf(line, at.second))] else [])
  }

  /** What dropping a line does; only its own row is picked by ID. */
  function DropOps(line: DynamicRecord): seq<Op> {
    var r := line.record;
    [Drop(r.Masked(), r.GetTTL(), line.id)] +
    (if r.Address? then [Drop(ReverseRecord(r).Masked(), r.GetTTL(), None)] else [])
  }

  function LineOps(line: DynamicRecord, at: Readings): seq<Op> {
    if line.disabled then DropOps(line) else PutOps(line, at)
  }

  lemma PutOpsShape(line: DynamicRecord, at: Readings)
    ensures var r := line.record;
            var own := Put(r.Masked(), r.GetTTL(), ExpireOf(line, at.first));
            if r.Address? then
              PutOps(line, at) == [own, Put(ReverseRecord(r).Masked(), r.GetTTL(), ExpireOf(line, at.second))]
            else PutOps(line, at) == [own]
  {
  }

  lemma DropOpsShape(line: DynamicRecord)
    ensures var r := line.record;
            var own := Drop(r.Masked(), r.GetTTL(), line.id);
            if r.Address? then DropOps(line) == [own, Drop(ReverseRecord(r).Masked(), r.GetTTL(), None)]
            else DropOps(line) == [own]
  {
  }

  predicate WellFormedBatch(lines: seq<DynamicRecord>) {
    forall i :: 0 <= i < |lines| ==> WellFormed(lines[i].record)
  }

  /** The operations of each line, at the times the batch reaches it. */
  function PerLine(lines: seq<DynamicRecord>, at: seq<Readings>): seq<seq<Op>>
    requires |at| == |lines|
  {
    seq(|lines|, i requires 0 <= i < |lines| => LineOps(lines[i], at[i]))
  }

  function BatchOps(lines: seq<DynamicRecord>, at: seq<Readings>): seq<Op>
    requires |at| == |lines|
  {
    Flatten(PerLine(lines, at))
  }

  lemma BatchOpsAppend(a: seq<DynamicRecord>, at: seq<Readings>, b: seq<DynamicRecord>, bt: seq<Readings>)
    requires |at| == |a| && |bt| == |b|
    ensures BatchOps(a + b, at + bt) == BatchOps(a, at) + BatchOps(b, bt)
  {
    FlattenAppend(PerLine(a, at), PerLine(b, bt));
    assert PerLine(a + b, at + bt) == PerLine(a, at) + PerLine(b, bt);
  }

  lemma BatchOpsPrefix(lines: seq<DynamicRecord>, at: seq<Readings>, n: nat)
    requires n < |lines| == |at|
    ensures BatchOps(lines[..n + 1], at[..n + 1]) == BatchOps(lines[..n], at[..n]) + LineOps(lines[n], at[n])
  {
    var shorter := PerLine(lines[..n], at[..n]);
    var longer := PerLine(lines[..n + 1], at[..n + 1]);
    assert longer[..n] == shorter;
  }

  predicate Permanent(lines: seq<DynamicRecord>) {
    forall i :: 0 <= i < |lines| ==> !lines[i].volatile
  }

  predicate NoIds(lines: seq<DynamicRecord>) {
    forall i :: 0 <= i < |lines| ==> lines[i].id.None?
  }

  /** A permanent batch does not depend on the clock. */
  lemma PermanentBatchOps(lines: seq<DynamicRecord>, at: seq<Readings>, at': seq<Readings>)
    requires Permanent(lines) && |at| == |at'| == |lines|
    ensures BatchOps(lines, at) == BatchOps(lines, at')
  {
    assert PerLine(lines, at) == PerLine(lines, at');
  }

  predicate NoIdOps(ops: seq<Op>) {
    forall op :: op in ops ==> op.Drop? ==> op.id.None?
  }

  lemma BatchOpsNoIds(lines: seq<DynamicRecord>, at: seq<Readings>)
    requires NoIds(lines) && |at| == |lines|
    ensures NoIdOps(BatchOps(lines, at))
  {
    FlattenAll(PerLine(lines, at), (op: Op) => op.Drop? ==> op.id.None?);
  }

  /** Operations on well-formed keys, as every well-formed batch makes them. */
  predicate WellFormedOps(ops: seq<Op>) {
    forall op :: op in ops ==> WellFormedKey(op.key)
  }

  lemma MaskedWellFormed(r: Record)
    requires WellFormed(r)
    ensures WellFormedKey(r.Masked())
  {
  }

  lemma LineOpsWellFormed(line: DynamicRecord, at: Readings)
    requires WellFormed(line.record)
    ensures WellFormedOps(LineOps(line, at))
  {
    MaskedWellFormed(line.record);
    if line.record.Address? {
      ReverseRecordWellFormed(line.record);
      MaskedWellFormed(ReverseRecord(line.record));
    }
  }

  lemma BatchOpsWellFormed(lines: seq<DynamicRecord>, at: seq<Readings>)
    requires WellFormedBatch(lines) && |at| == |lines|
    ensures WellFormedOps(BatchOps(lines, at))
  {
    var p := (op: Op) => WellFormedKey(op.key);
    forall i | 0 <= i < |lines| ensures forall op :: op in PerLine(lines, at)[i] ==> p(op) {
      LineOpsWellFormed(lines[i], at[i]);
    }
    FlattenAll(PerLine(lines, at), p);
  }

  // ---------------------------------------------------------- IDs are not reused

  /** What every operation keeps: numbers stay unique and within the counter; a number given out before
      the operations names the row it named then, or no row any more. */
  lemma {:induction false} IdsNeverReused(t: Table, ops: seq<Op>)
    requires ValidIds(t)
    ensures ValidIds(ApplyAll(t, ops)) && t.last <= ApplyAll(t, ops).last
    ensures forall k :: k in ApplyAll(t, ops).rows && ApplyAll(t, ops).rows[k].id <= t.last ==>
              k in t.rows && t.rows[k].id == ApplyAll(t, ops).rows[k].id
  {
    if ops != [] {
      IdsNeverReused(t, ops[..|ops| - 1]);
    }
  }

  lemma {:induction false} KeysStayWellFormed(t: Table, ops: seq<Op>)
    requires ValidKeys(t) && WellFormedOps(ops)
    ensures ValidKeys(ApplyAll(t, ops))
  {
    if ops != [] {
      KeysStayWellFormed(t, ops[..|ops| - 1]);
    }
  }

  // --------------------------------------------------- one row at a time

  /** The content of a row without its number. */
  datatype Cell = Cell(ttl: U32, expire: int)

  function CellAt(t: Table, k: Record): Option<Cell> {
    if k in t.rows then Some(Cell(t.rows[k].ttl, t.rows[k].expire)) else None
  }

  ghost predicate SameContent(s: Table, t: Table) {
    forall k :: CellAt(s, k) == CellAt(t, k)
  }

  /** The operations that name a row. */
  function Touching(ops: seq<Op>, k: Record): seq<Op> {
    if ops == [] then []
    else
      var rest := Touching(ops[..|ops| - 1], k);
      if ops[|ops| - 1].key == k then rest + [ops[|ops| - 1]] else rest
  }

  function CellStep(c: Option<Cell>, op: Op): Option<Cell> {
    match op
    case Put(_, ttl, expire) => Some(Cell(ttl, expire))
    case Drop(_, ttl, _) => if c.Some? && c.value.ttl == ttl then None else c
  }

  function CellFold(c: Option<Cell>, ops: seq<Op>): Option<Cell> {
    if ops == [] then c else CellStep(CellFold(c, ops[..|ops| - 1]), ops[|ops| - 1])
  }

  /** A batch is a family of independent folds: what a row holds in the end depends on what it held and
      on the operations that name it, in their order, and on nothing else. */
  lemma {:induction false} RowsAreIndependent(t: Table, ops: seq<Op>, k: Record)
    requires NoIdOps(ops)
    ensures CellAt(ApplyAll(t, ops), k) == CellFold(CellAt(t, k), Touching(ops, k))
  {
    if ops != [] {
      RowsAreIndependent(t, ops[..|ops| - 1], k);
      var op := ops[|ops| - 1];
      if op.key == k {
        assert Touching(ops, k)[..|Touching(ops, k)| - 1] == Touching(ops[..|ops| - 1], k);
      }
    }
  }

  lemma {:induction false} TouchingAppend(a: seq<Op>, b: seq<Op>, k: Record)
    ensures Touching(a + b, k) == Touching(a, k) + Touching(b, k)
  {
    if b == [] {
      assert a + b == a;
    } else {
      TouchingAppend(a, b[..|b| - 1], k);
      assert (a + b)[..|a + b| - 1] == a + b[..|b| - 1];
    }
  }

  lemma {:induction false} CellFoldAppend(c: Option<Cell>, a: seq<Op>, b: seq<Op>)
    ensures CellFold(c, a + b) == CellFold(CellFold(c, a), b)
  {
    if b == [] {
      assert a + b == a;
    } else {
      CellFoldAppend(c, a, b[..|b| - 1]);
      assert (a + b)[..|a + b| - 1] == a + b[..|b| - 1];
    }
  }

  /** Lists of operations that agree row by row leave the same content, whatever the order across rows. */
  lemma SameRowsSameContent(t: Table, a: seq<Op>, b: seq<Op>)
    requires NoIdOps(a) && NoIdOps(b)
    requires forall k :: Touching(a, k) == Touching(b, k)
    ensures SameContent(ApplyAll(t, a), ApplyAll(t, b))
  {
    forall k ensures CellAt(ApplyAll(t, a), k) == CellAt(ApplyAll(t, b), k) {
      RowsAreIndependent(t, a, k);
      RowsAreIndependent(t, b, k);
    }
  }

  const MIDNIGHT := Readings(0, 0)

  /** Two lines that name no common row, their implicit reverse rows included. */
  ghost predicate Disjoint(x: DynamicRecord, y: DynamicRecord) {
    forall a, b :: a in LineOps(x, MIDNIGHT) && b in LineOps(y, MIDNIGHT) ==> a.key != b.key
  }

  lemma {:induction false} TouchingSome(ops: seq<Op>, k: Record)
    ensures Touching(ops, k) != [] <==> exists op :: op in ops && op.key == k
  {
    if ops != [] {
      TouchingSome(ops[..|ops| - 1], k);
      assert ops == ops[..|ops| - 1] + [ops[|ops| - 1]];
    }
  }

  /** Lines fit for the laws below: permanent and without IDs. */
  predicate Plain(lines: seq<DynamicRecord>) {
    Permanent(lines) && NoIds(lines)
  }

  /** The operations of a permanent batch, whatever the clock says. */
  function PlainOps(lines: seq<DynamicRecord>): seq<Op>
    requires Plain(lines)
  {
    BatchOps(lines, seq(|lines|, _ => MIDNIGHT))
  }

  lemma PlainBatchOps(lines: seq<DynamicRecord>, at: seq<Readings>)
    requires Plain(lines) && |at| == |lines|
    ensures BatchOps(lines, at) == PlainOps(lines)
    ensures NoIdOps(PlainOps(lines))
  {
    PermanentBatchOps(lines, at, seq(|lines|, _ => MIDNIGHT));
    BatchOpsNoIds(lines, at);
  }

  lemma PlainOpsAppend(a: seq<DynamicRecord>, b: seq<DynamicRecord>)
    requires Plain(a) && Plain(b)
    ensures Plain(a + b) && PlainOps(a + b) == PlainOps(a) + PlainOps(b)
  {
    var at, bt := seq(|a|, _ => MIDNIGHT), seq(|b|, _ => MIDNIGHT);
    BatchOpsAppend(a, at, b, bt);
    assert at + bt == seq(|a + b|, _ => MIDNIGHT);
  }

  lemma PlainPair(x: DynamicRecord, y: DynamicRecord)
    requires Plain([x]) && Plain([y])
    ensures Plain([x, y]) && PlainOps([x, y]) == LineOps(x, MIDNIGHT) + LineOps(y, MIDNIGHT)
  {
    PlainOpsAppend([x], [y]);
    assert [x] + [y] == [x, y];
    PlainSingle(x);
    PlainSingle(y);
  }

  lemma PlainSingle(x: DynamicRecord)
    requires Plain([x])
    ensures PlainOps([x]) == LineOps(x, MIDNIGHT)
  {
    var lines, at := [x], seq(1, _ => MIDNIGHT);
    BatchOpsPrefix(lines, at, 0);
    assert lines[..1] == lines && at[..1] == at;
    assert BatchOps(lines[..0], at[..0]) == [];
  }

  lemma DisjointTouching(x: DynamicRecord, y: DynamicRecord, k: Record)
    requires Disjoint(x, y)
    ensures Touching(LineOps(x, MIDNIGHT) + LineOps(y, MIDNIGHT), k)
         == Touching(LineOps(y, MIDNIGHT) + LineOps(x, MIDNIGHT), k)
  {
    var lx, ly := LineOps(x, MIDNIGHT), LineOps(y, MIDNIGHT);
    TouchingAppend(lx, ly, k);
    TouchingAppend(ly, lx, k);
    TouchingSome(lx, k);
    TouchingSome(ly, k);
    assert Touching(lx, k) == [] || Touching(ly, k) == [];
  }

  /** Neighbouring lines that name no common row can be exchanged anywhere in a batch. */
  lemma LinesCommute(t: Table, pre: seq<DynamicRecord>, x: DynamicRecord, y: DynamicRecord,
                     post: seq<DynamicRecord>)
    requires Plain(pre) && Plain([x]) && Plain([y]) && Plain(post)
    requires Disjoint(x, y)
    ensures Plain(pre + [x, y] + post) && Plain(pre + [y, x] + post)
    ensures SameContent(ApplyAll(t, PlainOps(pre + [x, y] + post)), ApplyAll(t, PlainOps(pre + [y, x] + post)))
  {
    PlainPair(x, y);
    PlainPair(y, x);
    SplitAround(pre, [x, y], post);
    SplitAround(pre, [y, x], post);
    var head, tail, xy, yx := PlainOps(pre), PlainOps(post), PlainOps([x, y]), PlainOps([y, x]);
    forall k ensures Touching(head + xy + tail, k) == Touching(head + yx + tail, k) {
      TouchingAppend(head + xy, tail, k);
      TouchingAppend(head, xy, k);
      TouchingAppend(head + yx, tail, k);
      TouchingAppend(head, yx, k);
      DisjointTouching(x, y, k);
    }
    SameRowsSameContent(t, head + xy + tail, head + yx + tail);
  }

  lemma SplitAround(pre: seq<DynamicRecord>, mid: seq<DynamicRecord>, post: seq<DynamicRecord>)
    requires Plain(pre) && Plain(mid) && Plain(post)
    ensures Plain(pre + mid + post)
    ensures PlainOps(pre + mid + post) == PlainOps(pre) + PlainOps(mid) + PlainOps(post)
    ensures NoIdOps(PlainOps(pre) + PlainOps(mid) + PlainOps(post))
  {
    PlainOpsAppend(pre, mid);
    PlainOpsAppend(pre + mid, post);
    PlainBatchOps(pre + mid + post, seq(|pre + mid + post|, _ => MIDNIGHT));
  }

  // ------------------------------------------------------------- idempotence

  /** Folding twice is folding once: after the last Put the outcome no longer depends on the start, and a
      list without Put only removes what it names. */
  lemma {:induction false} FoldTwice(c: Option<Cell>, ops: seq<Op>)
    ensures CellFold(CellFold(c, ops), ops) == CellFold(c, ops)
  {
    if exists i :: 0 <= i < |ops| && ops[i].Put? {
      FoldForgets(c, CellFold(c, ops), ops);
    } else {
      FoldDrops(c, ops);
      FoldDrops(CellFold(c, ops), ops);
    }
  }

  lemma {:induction false} FoldForgets(c: Option<Cell>, d: Option<Cell>, ops: seq<Op>)
    requires exists i :: 0 <= i < |ops| && ops[i].Put?
    ensures CellFold(c, ops) == CellFold(d, ops)
  {
    if ops[|ops| - 1].Drop? {
      var i :| 0 <= i < |ops| && ops[i].Put?;
      assert ops[..|ops| - 1][i].Put?;
      FoldForgets(c, d, ops[..|ops| - 1]);
    }
  }

  lemma {:induction false} FoldDrops(c: Option<Cell>, ops: seq<Op>)
    requires forall i :: 0 <= i < |ops| ==> ops[i].Drop?
    ensures CellFold(c, ops) ==
      if c.Some? && exists i :: 0 <= i < |ops| && ops[i].ttl == c.value.ttl then None else c
  {
    if ops != [] {
      FoldDrops(c, ops[..|ops| - 1]);
      assert forall i :: 0 <= i < |ops| - 1 ==> ops[..|ops| - 1][i] == ops[i];
    }
  }

  /** Applying a permanent batch without IDs twice leaves the content applying it once leaves. */
  lemma BatchIdempotent(t: Table, lines: seq<DynamicRecord>, at: seq<Readings>, at': seq<Readings>)
    requires Plain(lines) && |at| == |at'| == |lines|
    ensures var once := ApplyAll(t, BatchOps(lines, at));
            SameContent(ApplyAll(once, BatchOps(lines, at')), once)
  {
    var ops := PlainOps(lines);
    PlainBatchOps(lines, at);
    PlainBatchOps(lines, at');
    var once := ApplyAll(t, ops);
    forall k ensures CellAt(ApplyAll(once, ops), k) == CellAt(once, k) {
      RowsAreIndependent(t, ops, k);
      RowsAreIndependent(once, ops, k);
      FoldTwice(CellAt(t, k), Touching(ops, k));
    }
  }
}
