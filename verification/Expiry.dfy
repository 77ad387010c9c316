/** Volatile rows: which rows a query shows, what the background DELETE removes, and the TTL that is shown. */
module Expiry {
  import opened Strings
  import opened Records
  import opened DynamicRecords
  import opened Store

  /** WHERE expire = 0 OR expire > now, in whole seconds. */
  predicate IsVisible(row: Row, second: int) {
    row.expire == 0 || row.expire > second
  }

  /** WHERE expire > 0 AND expire < now. */
  predicate IsSwept(row: Row, second: int) {
    0 < row.expire < second
  }

  ghost function Sweep(t: Table, second: int): Table {
    t.(rows := map k | k in t.rows && !IsSwept(t.rows[k], second) :: t.rows[k])
  }

  /** What a query can see. */
  ghost function Visible(t: Table, second: int): map<Record, Row> {
    map k | k in t.rows && IsVisible(t.rows[k], second) :: t.rows[k]
  }

  /** A sweep removes only rows that no query at that time or later shows, and no visible row changes. */
  lemma SweepIsInvisible(t: Table, swept: int, second: int)
    requires swept <= second
    ensures Visible(Sweep(t, swept), second) == Visible(t, second)
    ensures Sweep(t, swept).last == t.last
    ensures forall k :: k in t.rows && k !in Sweep(t, swept).rows ==> !IsVisible(t.rows[k], second)
    ensures forall k :: k in t.rows && k !in Sweep(t, swept).rows <==>
              k in t.rows && 0 < t.rows[k].expire && t.rows[k].expire < swept
  {
    var a, b := Visible(Sweep(t, swept), second), Visible(t, second);
    forall k ensures k in a <==> k in b {
    }
  }

  // --------------------------------------------------- sweeps between writes

  datatype Step = Write(op: Op, second: int) | Swept(second: int)

  ghost function Run(t: Table, steps: seq<Step>): Table {
    if steps == [] then t
    else
      var before := Run(t, steps[..|steps| - 1]);
      match steps[|steps| - 1]
      case Write(op, _) => Apply(before, op)
      case Swept(second) => Sweep(before, second)
  }

  /** The same run without its sweeps. */
  ghost function RunUnswept(t: Table, steps: seq<Step>): Table {
    if steps == [] then t
    else
      var before := RunUnswept(t, steps[..|steps| - 1]);
      match steps[|steps| - 1]
      case Write(op, _) => Apply(before, op)
      case Swept(_) => before
  }

  predicate InOrder(steps: seq<Step>) {
    forall i, j :: 0 <= i <= j < |steps| ==> steps[i].second <= steps[j].second
  }

  predicate UpTo(steps: seq<Step>, second: int) {
    forall i :: 0 <= i < |steps| ==> steps[i].second <= second
  }

  /** What a query shows of a row, but for its number. */
  ghost function VisibleCell(t: Table, k: Record, second: int): Option<Cell> {
    if k in t.rows && IsVisible(t.rows[k], second) then CellAt(t, k) else None
  }

  /** A query shows the same records with the same TTLs and expiries. */
  ghost predicate SameAnswers(a: Table, b: Table, second: int) {
    forall k :: VisibleCell(a, k, second) == VisibleCell(b, k, second)
  }

  ghost predicate Hits(t: Table, op: Op)
    requires op.Drop?
  {
    op.key in t.rows && t.rows[op.key].ttl == op.ttl && (op.id.None? || op.id.value == t.rows[op.key].id)
  }

  /** A drop that takes a visible row in one of the runs only, because the row has different numbers in them. */
  ghost predicate Splits(t: Table, steps: seq<Step>, i: nat, second: int) {
    i < |steps| && steps[i].Write? && steps[i].op.Drop? && steps[i].op.id.Some? &&
    VisibleCell(Run(t, steps[..i]), steps[i].op.key, second).Some? &&
    (Hits(Run(t, steps[..i]), steps[i].op) != Hits(RunUnswept(t, steps[..i]), steps[i].op))
  }

  /** One step keeps the answers the same exactly when it does not split a row. */
  lemma StepKeepsAnswers(t: Table, steps: seq<Step>, second: int)
    requires steps != [] && UpTo(steps, second)
    requires var n := |steps| - 1; SameAnswers(Run(t, steps[..n]), RunUnswept(t, steps[..n]), second)
    ensures SameAnswers(Run(t, steps), RunUnswept(t, steps), second) <==> !Splits(t, steps, |steps| - 1, second)
  {
    var n := |steps| - 1;
    var a, b, a', b' := Run(t, steps[..n]), RunUnswept(t, steps[..n]), Run(t, steps), RunUnswept(t, steps);
    match steps[n] {
      case Swept(_) =>
      case Write(op, _) =>
        forall k | k != op.key ensures VisibleCell(a', k, second) == VisibleCell(b', k, second) {
          assert VisibleCell(a, k, second) == VisibleCell(b, k, second);
        }
        assert VisibleCell(a, op.key, second) == VisibleCell(b, op.key, second);
        if op.Drop? && VisibleCell(a, op.key, second).Some? {
          assert Hits(a, op) <==> VisibleCell(a', op.key, second).None?;
          assert Hits(b, op) <==> VisibleCell(b', op.key, second).None?;
        }
    }
  }

  lemma SamePrefix(t: Table, steps: seq<Step>, n: nat, second: int)
    requires n <= |steps|
    ensures forall i :: 0 <= i < n ==> (Splits(t, steps[..n], i, second) <==> Splits(t, steps, i, second))
  {
    forall i | 0 <= i < n ensures Splits(t, steps[..n], i, second) <==> Splits(t, steps, i, second) {
      assert steps[..n][..i] == steps[..i];
    }
  }

  lemma {:induction false} AgreeUntilSplit(t: Table, steps: seq<Step>, second: int)
    requires UpTo(steps, second) && forall i :: 0 <= i < |steps| ==> !Splits(t, steps, i, second)
    ensures SameAnswers(Run(t, steps), RunUnswept(t, steps), second)
  {
    if steps != [] {
      var n := |steps| - 1;
      SamePrefix(t, steps, n, second);
      AgreeUntilSplit(t, steps[..n], second);
      StepKeepsAnswers(t, steps, second);
    }
  }

  /** What is visible later was visible before. */
  lemma SplitsEarlier(t: Table, steps: seq<Step>, i: nat, second: int)
    requires Splits(t, steps, i, second) && steps[i].second <= second
    ensures Splits(t, steps, i, steps[i].second)
  {
  }

  /** The answers that a client gets, at every point of a run and at every time from then on. */
  ghost predicate NeverTells(t: Table, steps: seq<Step>) {
    forall n, now :: 0 <= n <= |steps| && UpTo(steps[..n], now) ==>
      SameAnswers(Run(t, steps[..n]), RunUnswept(t, steps[..n]), now)
  }

  /** Whatever is written in between and however often the sweeper runs, a query shows the same records with the
      same TTL and expiry, at every point of the run and at every time from then on, exactly when no drop that names an
      ID meets a row, visible at the time of the drop, that has that number in one of the runs only. */
  lemma SweeperChangesNoAnswer(t: Table, steps: seq<Step>)
    requires InOrder(steps)
    ensures NeverTells(t, steps) <==> forall i :: 0 <= i < |steps| ==> !Splits(t, steps, i, steps[i].second)
  {
    if i :| 0 <= i < |steps| && Splits(t, steps, i, steps[i].second) {
      var front, now := steps[..i + 1], steps[i].second;
      SamePrefix(t, steps, i + 1, now);
      assert front[..i] == steps[..i] && UpTo(front, now) && UpTo(steps[..i], now);
      if NeverTells(t, steps) {
        StepKeepsAnswers(t, front, now);
      }
    } else {
      forall n, now | 0 <= n <= |steps| && UpTo(steps[..n], now)
        ensures SameAnswers(Run(t, steps[..n]), RunUnswept(t, steps[..n]), now)
      {
        forall i | 0 <= i < n ensures !Splits(t, steps[..n], i, now) {
          SamePrefix(t, steps, n, now);
          assert steps[..n][i] == steps[i];
          if Splits(t, steps, i, now) {
            SplitsEarlier(t, steps, i, now);
          }
        }
        AgreeUntilSplit(t, steps[..n], now);
      }
    }
  }

  predicate NoIdSteps(steps: seq<Step>) {
    forall s :: s in steps && s.Write? && s.op.Drop? ==> s.op.id.None?
  }

  /** Without IDs on drops the sweeper never changes an answer. */
  lemma NoIdsNoSplit(t: Table, steps: seq<Step>, second: int)
    requires UpTo(steps, second) && NoIdSteps(steps)
    ensures SameAnswers(Run(t, steps), RunUnswept(t, steps), second)
  {
    forall i | 0 <= i < |steps| ensures !Splits(t, steps, i, second) {
      assert steps[i] in steps;
    }
    AgreeUntilSplit(t, steps, second);
  }

  // ------------------------------------------------------------- row numbers

  /** A write that finds a row in the run without sweeps and none in the run with them. */
  ghost predicate Renumbers(t: Table, steps: seq<Step>, i: nat) {
    i < |steps| && steps[i].Write? && steps[i].op.Put? &&
    steps[i].op.key in RunUnswept(t, steps[..i]).rows && steps[i].op.key !in Run(t, steps[..i]).rows
  }

  ghost predicate NeverRenumbers(t: Table, steps: seq<Step>) {
    forall i :: 0 <= i < |steps| ==> !Renumbers(t, steps, i)
  }

  /** The swept table is the other one without some rows that expired before `second`. */
  ghost predicate SubtableUpToExpired(a: Table, b: Table, second: int) {
    a.last == b.last &&
    (forall k :: k in a.rows ==> k in b.rows && a.rows[k] == b.rows[k]) &&
    (forall k :: k in b.rows && k !in a.rows ==> IsSwept(b.rows[k], second))
  }

  lemma SameRenumbering(t: Table, steps: seq<Step>, n: nat)
    requires n <= |steps|
    ensures forall i :: 0 <= i < n ==> (Renumbers(t, steps[..n], i) <==> Renumbers(t, steps, i))
  {
    forall i | 0 <= i < n ensures Renumbers(t, steps[..n], i) <==> Renumbers(t, steps, i) {
      assert steps[..n][..i] == steps[..i];
    }
  }

  lemma {:induction false} RowsAgree(t: Table, steps: seq<Step>, second: int)
    requires UpTo(steps, second) && NeverRenumbers(t, steps)
    ensures SubtableUpToExpired(Run(t, steps), RunUnswept(t, steps), second)
  {
    if steps != [] {
      var n := |steps| - 1;
      SameRenumbering(t, steps, n);
      RowsAgree(t, steps[..n], second);
      assert !Renumbers(t, steps, n);
    }
  }

  /** Without IDs on drops the sweeper only ever takes rows away. */
  lemma {:induction false} SweptKeysAreKeys(t: Table, steps: seq<Step>, k: Record)
    requires NoIdSteps(steps)
    ensures k in Run(t, steps).rows ==>
      k in RunUnswept(t, steps).rows && Run(t, steps).rows[k].ttl == RunUnswept(t, steps).rows[k].ttl
  {
    if steps != [] {
      SweptKeysAreKeys(t, steps[..|steps| - 1], k);
      assert steps[|steps| - 1] in steps;
    }
  }

  /** The counter of the run without sweeps is never ahead, and stays behind once a row was renumbered. */
  lemma {:induction false} CountersApart(t: Table, steps: seq<Step>)
    requires NoIdSteps(steps)
    ensures RunUnswept(t, steps).last <= Run(t, steps).last
    ensures (exists i :: Renumbers(t, steps, i)) ==> RunUnswept(t, steps).last < Run(t, steps).last
  {
    if steps != [] {
      var n := |steps| - 1;
      SameRenumbering(t, steps, n);
      CountersApart(t, steps[..n]);
      if steps[n].Write? {
        SweptKeysAreKeys(t, steps[..n], steps[n].op.key);
      }
      if i: nat :| Renumbers(t, steps, i) && i < n {
        assert Renumbers(t, steps[..n], i);
      }
    }
  }

  /** A query shows the same rows, numbers included, and the next number to be given out is the same. */
  ghost predicate SameRowsShown(a: Table, b: Table, second: int) {
    Visible(a, second) == Visible(b, second) && a.last == b.last
  }

  /** The sweeper changes nothing at all that a query shows, row numbers included, when no write meets a row that
      the sweeper has taken and that would still be there; and, without IDs on drops, only then. */
  lemma SweeperChangesNoRow(t: Table, steps: seq<Step>, second: int)
    requires UpTo(steps, second)
    ensures NeverRenumbers(t, steps) ==> SameRowsShown(Run(t, steps), RunUnswept(t, steps), second)
    ensures NoIdSteps(steps) ==>
      (SameRowsShown(Run(t, steps), RunUnswept(t, steps), second) <==> NeverRenumbers(t, steps))
  {
    if NeverRenumbers(t, steps) {
      RowsAgree(t, steps, second);
    } else if NoIdSteps(steps) {
      CountersApart(t, steps);
    }
  }

  /** The shortest such run: a record written again after it expired keeps its old number when the sweeper has not
      run, and gets a new one when it has. */
  lemma RevivedRowsAreRenumbered(k: Record)
    requires WellFormedKey(k)
    ensures var steps := [Write(Put(k, 1, 11), 10), Swept(20), Write(Put(k, 1, 21), 20)];
            InOrder(steps) && Visible(Run(EMPTY, steps), 20)[k].id == 2 &&
            Visible(RunUnswept(EMPTY, steps), 20)[k].id == 1
  {
    var first, swept, again := Write(Put(k, 1, 11), 10), Swept(20), Write(Put(k, 1, 21), 20);
    var steps := [first, swept, again];
    assert steps[..2] == [first, swept] && [first, swept][..1] == [first] && [first][..0] == [];
    assert Run(EMPTY, [first]) == Table(1, map[k := Row(1, 1, 11)]) by {
      assert Run(EMPTY, [first][..0]) == EMPTY;
    }
    assert Run(EMPTY, [first, swept]) == Table(1, map[]) by {
      assert Run(EMPTY, [first, swept]) == Sweep(Run(EMPTY, [first]), 20);
    }
    assert Run(EMPTY, steps) == Table(2, map[k := Row(2, 1, 21)]);
    assert RunUnswept(EMPTY, [first]) == Table(1, map[k := Row(1, 1, 11)]) by {
      assert RunUnswept(EMPTY, [first][..0]) == EMPTY;
    }
    assert RunUnswept(EMPTY, [first, swept]) == RunUnswept(EMPTY, [first]);
    assert RunUnswept(EMPTY, steps) == Table(1, map[k := Row(1, 1, 21)]);
  }

  // -------------------------------------------------------------- shown TTLs

  /** The TTL a query shows: stored for a permanent row, the time left for a volatile one. */
  function ShownTTL(row: Row, now: int): U32 {
    if row.expire == 0 then row.ttl else ToU32(RoundSeconds(Seconds(row.expire) - now))
  }

  /** No row expires later than its TTL after now. */
  ghost predicate Fresh(t: Table, now: int) {
    forall k :: k in t.rows ==> t.rows[k].expire <= Unix(now) + t.rows[k].ttl || t.rows[k].expire == 0
  }

  /** At one clock reading, a row the SQL filter lets through passes the expiry check in Go, and what is shown
      is the record with the TTL of `ShownTTL`. */
  lemma VisibleRowsConvert(k: Record, row: Row, now: int)
    requires WellFormedKey(k) && IsVisible(row, Unix(now)) && row.expire != 0
    ensures NewRecordWithExpire(Text(k), Seconds(row.expire), now) == Ok(k.WithTTL(ShownTTL(row, now)))
  {
    var left := RoundSeconds(Seconds(row.expire) - now);
    assert ShownTTL(row, now) == ToU32(left);
    NotYet(row.expire, now);
    ParseWithExpire(k, Seconds(row.expire), now, left);
  }

  lemma NotYet(expire: int, now: int)
    requires Unix(now) < expire
    ensures now < Seconds(expire)
  {
  }

  /** The TTL shown never exceeds the stored one and is within half a second of the time left. */
  lemma ShownTTLBound(row: Row, now: int)
    requires IsVisible(row, Unix(now)) && (row.expire == 0 || row.expire <= Unix(now) + row.ttl)
    ensures ShownTTL(row, now) <= row.ttl
    ensures row.expire != 0 ==>
      -Seconds(1) <= 2 * (Seconds(ShownTTL(row, now)) - (Seconds(row.expire) - now)) <= Seconds(1)
  {
    if row.expire != 0 {
      TimeLeft(row.expire, row.ttl, now);
    }
  }

  /** The time left of a row that has not expired, in nanoseconds and rounded to seconds. */
  lemma TimeLeft(expire: int, ttl: U32, now: int)
    requires Unix(now) < expire <= Unix(now) + ttl
    ensures var left := Seconds(expire) - now;
            0 < left <= Seconds(ttl) && 0 <= RoundSeconds(left) <= ttl &&
            ToU32(RoundSeconds(left)) == RoundSeconds(left) &&
            -Seconds(1) <= 2 * (Seconds(RoundSeconds(left)) - left) <= Seconds(1)
  {
    var left := Seconds(expire) - now;
    RoundSecondsMonotone(left, Seconds(ttl));
    RoundSecondsExact(ttl);
    RoundSecondsNearest(left);
  }

  lemma {:induction false} FreshAfterOps(t: Table, ops: seq<Op>, now: int)
    requires Fresh(t, now)
    requires forall op :: op in ops && op.Put? ==> op.expire == 0 || op.expire <= Unix(now) + op.ttl
    ensures Fresh(ApplyAll(t, ops), now)
  {
    if ops != [] {
      FreshAfterOps(t, ops[..|ops| - 1], now);
    }
  }

  /** Batches written no later than now leave the store fresh, and it stays fresh as time passes. */
  lemma FreshAfterBatch(t: Table, lines: seq<DynamicRecord>, at: seq<Readings>, before: int, now: int)
    requires Fresh(t, before) && before <= now && |at| == |lines|
    requires forall i :: 0 <= i < |at| ==> at[i].first <= now && at[i].second <= now
    ensures Fresh(ApplyAll(t, BatchOps(lines, at)), now)
  {
    assert Unix(before) <= Unix(now);
    var p := (op: Op) => op.Put? ==> op.expire == 0 || op.expire <= Unix(now) + op.ttl;
    forall i | 0 <= i < |lines| ensures forall op :: op in PerLine(lines, at)[i] ==> p(op) {
      ExpireBound(lines[i], at[i].first, now);
      ExpireBound(lines[i], at[i].second, now);
    }
    FlattenAll(PerLine(lines, at), p);
    FreshAfterOps(t, BatchOps(lines, at), now);
  }

  lemma ExpireBound(line: DynamicRecord, at: int, now: int)
    requires at <= now
    ensures ExpireOf(line, at) == 0 || ExpireOf(line, at) <= Unix(now) + line.record.GetTTL()
  {
    var ttl := line.record.GetTTL();
    assert Unix(at + Seconds(ttl)) == Unix(at) + ttl;
    assert Unix(at) <= Unix(now);
  }

  // -------------------------------------------------------- how long rows live

  /** The expiry of a row that a line writes at some time: the end of its TTL, within the second; none for a permanent
      line. */
  predicate LivesFor(expire: int, line: DynamicRecord, at: int) {
    if line.volatile
    then at + Seconds(line.record.GetTTL()) - Seconds(1) < Seconds(expire) <= at + Seconds(line.record.GetTTL())
    else expire == 0
  }

  lemma ExpiresAfterTTL(line: DynamicRecord, at: int)
    ensures LivesFor(ExpireOf(line, at), line, at)
  {
  }

  /** A query shows a row exactly until it expires. */
  lemma VisibleUntilExpiry(row: Row, now: int)
    ensures IsVisible(row, Unix(now)) <==> row.expire == 0 || now < Seconds(row.expire)
  {
  }

  /** A row as it is written: the TTL of the line, its expiry, and the number it had or a new one. */
  ghost predicate IsWritten(t: Table, u: Table, k: Record, line: DynamicRecord, at: int, last: nat) {
    k in u.rows && u.rows[k].ttl == line.record.GetTTL() && LivesFor(u.rows[k].expire, line, at) &&
    u.rows[k].id == if k in t.rows then t.rows[k].id else last + 1
  }

  ghost predicate IsSameRow(t: Table, u: Table, k: Record) {
    (k in u.rows <==> k in t.rows) && (k in t.rows ==> u.rows[k] == t.rows[k])
  }

  /** What an enabled line does: its own row and the reverse row of an address are written, no other changes. */
  lemma LineWritten(t: Table, line: DynamicRecord, at: Readings)
    requires !line.disabled
    ensures var u, k := ApplyAll(t, LineOps(line, at)), line.record.Masked();
            IsWritten(t, u, k, line, at.first, t.last) &&
            if line.record.Address? then
              var p := ReverseRecord(line.record).Masked();
              IsWritten(t, u, p, line, at.second, if k in t.rows then t.last else t.last + 1) &&
              forall j :: j != k && j != p ==> IsSameRow(t, u, j)
            else forall j :: j != k ==> IsSameRow(t, u, j)
  {
    var r := line.record;
    var own := Put(r.Masked(), r.GetTTL(), ExpireOf(line, at.first));
    PutOpsShape(line, at);
    ExpiresAfterTTL(line, at.first);
    ExpiresAfterTTL(line, at.second);
    ApplyTwo(t, own, if r.Address? then Put(ReverseRecord(r).Masked(), r.GetTTL(), ExpireOf(line, at.second)) else own);
  }

  /** What a disabled line does: its own row goes if it has the TTL, and the number if one is named; the reverse row of
      an address goes if it has the TTL; no other changes. */
  lemma LineDropped(t: Table, line: DynamicRecord, at: Readings)
    requires line.disabled
    ensures var u, k, ttl := ApplyAll(t, LineOps(line, at)), line.record.Masked(), line.record.GetTTL();
            (if k in t.rows && t.rows[k].ttl == ttl && (line.id.None? || line.id.value == t.rows[k].id)
             then k !in u.rows else IsSameRow(t, u, k)) &&
            if line.record.Address? then
              var p := ReverseRecord(line.record).Masked();
              (if p in t.rows && t.rows[p].ttl == ttl then p !in u.rows else IsSameRow(t, u, p)) &&
              forall j :: j != k && j != p ==> IsSameRow(t, u, j)
            else forall j :: j != k ==> IsSameRow(t, u, j)
  {
    var r := line.record;
    var own := Drop(r.Masked(), r.GetTTL(), line.id);
    DropOpsShape(line);
    ApplyTwo(t, own, if r.Address? then Drop(ReverseRecord(r).Masked(), r.GetTTL(), None) else own);
  }
}
