/** Forward and reverse records stay paired: every A or AAAA row has the PTR row of its address. */
module Pairing {
  import opened Strings
  import opened Records
  import opened DynamicRecords
  import opened Store
  import opened Expiry

  /** The PTR row an address row asks for. */
  function ReverseKey(k: Record): Record
    requires k.Address?
  {
    ReverseRecord(k).Masked()
  }

  /** The reverse row has the same TTL and lives at least as long; permanent rows pair with permanent rows. */
  predicate PairedRows(forward: Row, reverse: Row) {
    reverse.ttl == forward.ttl &&
    (forward.expire == reverse.expire == 0 || 0 < forward.expire <= reverse.expire)
  }

  ghost predicate PairedAt(t: Table, k: Record)
    requires k.Address?
  {
    k in t.rows ==> ReverseKey(k) in t.rows && PairedRows(t.rows[k], t.rows[ReverseKey(k)])
  }

  ghost predicate Paired(t: Table) {
    forall k :: k in t.rows && k.Address? ==> PairedAt(t, k)
  }

  /** The clock a line reads: after 1970 and not running backwards. */
  predicate Running(at: Readings) {
    Seconds(1) <= at.first <= at.second
  }

  /** A line the invariant is for: no explicit PTR record, and a drop names no ID. */
  predicate Pairable(line: DynamicRecord) {
    WellFormed(line.record) && !line.record.Ptr? && (line.disabled ==> line.id.None?)
  }

  /** Masking does not change which PTR row an address has. */
  lemma ReverseOfMasked(r: Record)
    requires r.Address?
    ensures ReverseRecord(r).Masked() == ReverseKey(r.Masked())
  {
  }

  lemma UnixMonotone(a: int, b: int)
    requires a <= b
    ensures Unix(a) <= Unix(b)
  {
  }

  lemma ExpiryOrder(line: DynamicRecord, at: Readings)
    requires Running(at)
    ensures var e, f := ExpireOf(line, at.first), ExpireOf(line, at.second);
            e == f == 0 || 0 < e <= f
  {
    UnixMonotone(at.first + Seconds(line.record.GetTTL()), at.second + Seconds(line.record.GetTTL()));
    UnixMonotone(Seconds(1), at.first + Seconds(line.record.GetTTL()));
  }

  /** Both rows of an address are written, and no other address row's partner is touched. */
  lemma PutPair(t: Table, k: Record, ttl: U32, e: int, f: int)
    requires Paired(t) && ValidKeys(t) && WellFormedKey(k) && k.Address?
    requires e == f == 0 || 0 < e <= f
    ensures Paired(Apply(Apply(t, Put(k, ttl, e)), Put(ReverseKey(k), ttl, f)))
  {
    var t' := Apply(Apply(t, Put(k, ttl, e)), Put(ReverseKey(k), ttl, f));
    forall j | j in t'.rows && j.Address? ensures PairedAt(t', j) {
      if j != k {
        assert j in t.rows && PairedAt(t, j);
        ReverseRecordInjective(j, k);
      }
    }
  }

  /** Dropping an address with its TTL drops both rows or neither of a pair. */
  lemma DropPair(t: Table, k: Record, ttl: U32)
    requires Paired(t) && ValidKeys(t) && WellFormedKey(k) && k.Address?
    ensures Paired(Apply(Apply(t, Drop(k, ttl, None)), Drop(ReverseKey(k), ttl, None)))
  {
    var t' := Apply(Apply(t, Drop(k, ttl, None)), Drop(ReverseKey(k), ttl, None));
    forall j | j in t'.rows && j.Address? ensures PairedAt(t', j) {
      assert j in t.rows && PairedAt(t, j);
      if j != k {
        ReverseRecordInjective(j, k);
      } else {
        assert PairedAt(t, k);
      }
    }
  }

  /** A row that is neither an address nor a PTR row takes no part in any pair. */
  lemma OtherRow(t: Table, op: Op)
    requires Paired(t) && !op.key.Address? && !op.key.Ptr?
    ensures Paired(Apply(t, op))
  {
    var t' := Apply(t, op);
    forall j | j in t'.rows && j.Address? ensures PairedAt(t', j) {
      assert j in t.rows && PairedAt(t, j);
    }
  }

  lemma LineKeepsPairs(t: Table, line: DynamicRecord, at: Readings)
    requires Paired(t) && ValidKeys(t) && Pairable(line) && Running(at)
    ensures Paired(ApplyAll(t, LineOps(line, at)))
  {
    var r, ops := line.record, LineOps(line, at);
    var k := r.Masked();
    MaskedWellFormed(r);
    if r.Address? {
      ReverseOfMasked(r);
      assert ops == [ops[0], ops[1]];
      ApplyTwo(t, ops[0], ops[1]);
      if line.disabled {
        DropPair(t, k, r.GetTTL());
      } else {
        ExpiryOrder(line, at);
        PutPair(t, k, r.GetTTL(), ExpireOf(line, at.first), ExpireOf(line, at.second));
      }
    } else {
      assert ops == [ops[0]];
      ApplyTwo(t, ops[0], ops[0]);
      OtherRow(t, ops[0]);
    }
  }

  // ------------------------------------------------------------------- runs

  /** A sweep that takes a PTR row also takes the address row that needs it. */
  lemma SweepKeepsPairs(t: Table, second: int)
    requires Paired(t)
    ensures Paired(Sweep(t, second))
  {
    var t' := Sweep(t, second);
    forall j | j in t'.rows && j.Address? ensures PairedAt(t', j) {
      assert PairedAt(t, j);
    }
  }

  datatype Event = Batch(lines: seq<DynamicRecord>, at: seq<Readings>) | Sweeping(second: int)

  ghost predicate PairableEvent(e: Event) {
    e.Batch? ==> |e.at| == |e.lines| &&
                 (forall i :: 0 <= i < |e.lines| ==> Pairable(e.lines[i])) &&
                 (forall i :: 0 <= i < |e.at| ==> Running(e.at[i]))
  }

  ghost function After(t: Table, e: Event): Table
    requires PairableEvent(e)
  {
    match e
    case Batch(lines, at) => ApplyAll(t, BatchOps(lines, at))
    case Sweeping(second) => Sweep(t, second)
  }

  ghost function AfterAll(t: Table, run: seq<Event>): Table
    requires forall i :: 0 <= i < |run| ==> PairableEvent(run[i])
  {
    if run == [] then t else After(AfterAll(t, run[..|run| - 1]), run[|run| - 1])
  }

  lemma {:induction false} BatchKeepsPairs(t: Table, lines: seq<DynamicRecord>, at: seq<Readings>)
    requires Paired(t) && ValidKeys(t) && PairableEvent(Batch(lines, at))
    ensures Paired(ApplyAll(t, BatchOps(lines, at))) && ValidKeys(ApplyAll(t, BatchOps(lines, at)))
  {
    hide WellFormed;
    BatchOpsWellFormed(lines, at);
    KeysStayWellFormed(t, BatchOps(lines, at));
    if lines != [] {
      var n := |lines| - 1;
      BatchKeepsPairs(t, lines[..n], at[..n]);
      BatchOpsPrefix(lines, at, n);
      assert lines[..n + 1] == lines && at[..n + 1] == at;
      ApplyAllAppend(t, BatchOps(lines[..n], at[..n]), LineOps(lines[n], at[n]));
      LineKeepsPairs(ApplyAll(t, BatchOps(lines[..n], at[..n])), lines[n], at[n]);
    }
  }

  /** Over every run of batches and expiry sweeps, each address row is paired with its PTR row. */
  lemma {:induction false} RunKeepsPairs(run: seq<Event>)
    requires forall i :: 0 <= i < |run| ==> PairableEvent(run[i])
    ensures Paired(AfterAll(EMPTY, run)) && ValidKeys(AfterAll(EMPTY, run))
  {
    if run != [] {
      RunKeepsPairs(run[..|run| - 1]);
      var t := AfterAll(EMPTY, run[..|run| - 1]);
      match run[|run| - 1] {
        case Batch(lines, at) => BatchKeepsPairs(t, lines, at);
        case Sweeping(second) => SweepKeepsPairs(t, second);
      }
    }
  }

  // ----------------------------------------------------- drops that name an ID

  /** A drop of an address that names an ID keeps the store paired exactly when it does not split a pair:
      the ID is the row's own, or the TTL is not the row's, or there is no such row. */
  lemma DropWithIdKeepsPairs(t: Table, k: Record, ttl: U32, id: int)
    requires Paired(t) && ValidKeys(t) && WellFormedKey(k) && k.Address?
    ensures Paired(Apply(Apply(t, Drop(k, ttl, Some(id))), Drop(ReverseKey(k), ttl, None)))
       <==> (k in t.rows && t.rows[k].ttl == ttl ==> t.rows[k].id == id)
  {
    var t1 := Apply(t, Drop(k, ttl, Some(id)));
    var t' := Apply(t1, Drop(ReverseKey(k), ttl, None));
    if k in t.rows && t.rows[k].ttl == ttl && t.rows[k].id != id {
      assert PairedAt(t, k);
      assert k in t'.rows && !PairedAt(t', k);
    } else if k in t.rows && t.rows[k].ttl == ttl {
      assert t1 == Apply(t, Drop(k, ttl, None));
      DropPair(t, k, ttl);
    } else {
      assert t1 == Apply(t, Drop(k, ttl, None));
      DropPair(t, k, ttl);
    }
  }
}
