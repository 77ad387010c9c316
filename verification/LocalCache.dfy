/** LocalCache: answers of an upstream resolver kept until the first of their records expires. */
module LocalCache {
  import opened Strings
  import opened Records

  datatype Key = Key(qtype: U16, name: Domain)

  /** A cached record; its TTL is the header that hits rewrite. Expire is a time in nanoseconds. */
  datatype CachedRecord = CachedRecord(record: Record, expire: int)

  /** The entries by type and name. */
  type Entries = map<Key, seq<CachedRecord>>

  /** A record the upstream resolver adds to its answer, and when. */
  datatype Delivery = Delivery(record: Record, at: int)

  /** One call of the upstream resolver: what it adds, and whether it then fails. */
  datatype Answer = Answer(deliveries: seq<Delivery>, failed: bool)

  datatype Reply = Reply(records: seq<Record>, hit: bool, failed: bool)

  function KeyOf(r: Record): Key {
    Key(r.GetQtype(), r.name)
  }

  // ------------------------------------------------------------ what happens

  function Cached(d: Delivery): CachedRecord {
    CachedRecord(d.record, d.at + Seconds(d.record.GetTTL()))
  }

  function ListAt(c: Entries, k: Key): seq<CachedRecord> {
    if k in c then c[k] else []
  }

  /** What `add` does: a record is filed under its own name and type, unless its TTL is 0. */
  function Added(c: Entries, d: Delivery): Entries {
    if d.record.GetTTL() == 0 then c
    else c[KeyOf(d.record) := ListAt(c, KeyOf(d.record)) + [Cached(d)]]
  }

  function AddedAll(c: Entries, ds: seq<Delivery>): Entries {
    if ds == [] then c else Added(AddedAll(c, ds[..|ds| - 1]), ds[|ds| - 1])
  }

  function DeliveredRecords(ds: seq<Delivery>): (rs: seq<Record>)
    ensures |rs| == |ds|
  {
    seq(|ds|, i requires 0 <= i < |ds| => ds[i].record)
  }

  /** Less than a nanosecond is left. */
  predicate IsOver(e: CachedRecord, now: int) {
    e.expire - now < 1
  }

  predicate IsStale(list: seq<CachedRecord>, now: int) {
    exists i :: 0 <= i < |list| && IsOver(list[i], now)
  }

  /** A record that no expired record of its list stands before, nor is it expired itself. */
  predicate IsSeen(list: seq<CachedRecord>, i: int, now: int) {
    0 <= i < |list| && forall j :: 0 <= j <= i ==> !IsOver(list[j], now)
  }

  predicate IsHit(c: Entries, k: Key, now: int) {
    k in c && !IsStale(c[k], now)
  }

  /** VolatileRecord.Record: the header is set to the time left, in place. */
  function Aged(e: CachedRecord, now: int): CachedRecord {
    if Unix(e.expire) > 0 then e.(record := e.record.WithTTL(ToU32(RoundSeconds(e.expire - now)))) else e
  }

  function AgedList(list: seq<CachedRecord>, now: int): (aged: seq<CachedRecord>)
    ensures |aged| == |list|
  {
    seq(|list|, i requires 0 <= i < |list| => Aged(list[i], now))
  }

  function RecordsOf(list: seq<CachedRecord>): (rs: seq<Record>)
    ensures |rs| == |list|
  {
    seq(|list|, i requires 0 <= i < |list| => list[i].record)
  }

  /** What a question does to the cache, and the reply to it. */
  function Asked(c: Entries, k: Key, now: int, up: Answer): (Entries, Reply) {
    if IsHit(c, k, now) then
      (c[k := AgedList(c[k], now)], Reply(RecordsOf(AgedList(c[k], now)), true, false))
    else
      (AddedAll(c - {k}, up.deliveries), Reply(DeliveredRecords(up.deliveries), false, up.failed))
  }

  /** What a sweep does. */
  function Swept(c: Entries, now: int): Entries {
    map k | k in c && !IsStale(c[k], now) :: c[k]
  }

  /** A sweep keeps exactly the lists of which every record is within its time, as they are. */
  lemma SweptMeaning(c: Entries, now: int, k: Key)
    ensures k in Swept(c, now) <==> k in c && forall i :: 0 <= i < |c[k]| ==> now < c[k][i].expire
    ensures k in Swept(c, now) ==> Swept(c, now)[k] == c[k]
  {
    hide Record.GetQtype;
    if k in c && !IsStale(c[k], now) {
      forall i | 0 <= i < |c[k]| ensures now < c[k][i].expire {
        assert !IsOver(c[k][i], now);
      }
    }
  }

  // ---------------------------------------------------------------- the class

  const TEN_SECONDS: int := 10_000_000_000

  class LocalCache {
    var entries: Entries

    constructor ()
      ensures entries == map[]
    {
      entries := map[];
    }

    method Add(r: Record, at: int)
      modifies this
      ensures entries == Added(old(entries), Delivery(r, at))
    {
      if r.GetTTL() == 0 {
        return;
      }
      var k := KeyOf(r);
      assert [] + [Cached(Delivery(r, at))] == [Cached(Delivery(r, at))];
      if k !in entries {
        entries := entries[k := [CachedRecord(r, at + Seconds(r.GetTTL()))]];
      } else {
        entries := entries[k := entries[k] + [CachedRecord(r, at + Seconds(r.GetTTL()))]];
      }
    }

    /** The upstream resolver adds its records one by one; the hook files each before it is written. */
    method ResolveFromUpstream(up: Answer) returns (reply: Reply)
      modifies this
      ensures entries == AddedAll(old(entries), up.deliveries)
      ensures reply == Reply(DeliveredRecords(up.deliveries), false, up.failed)
    {
      var written: seq<Record> := [];
      var ds := up.deliveries;
      assert ds[..0] == [];
      for i := 0 to |ds|
        invariant entries == AddedAll(old(entries), ds[..i])
        invariant written == DeliveredRecords(ds[..i])
      {
        assert ds[..i + 1][..i] == ds[..i];
        Add(ds[i].record, ds[i].at);
        written := written + [ds[i].record];
      }
      assert ds[..|ds|] == ds;
      return Reply(written, false, up.failed);
    }

    method ResolveFromCache(k: Key, now: int) returns (reply: Reply)
      requires IsHit(entries, k, now)
      modifies this
      ensures entries == old(entries)[k := AgedList(old(entries)[k], now)]
      ensures reply == Reply(RecordsOf(AgedList(old(entries)[k], now)), true, false)
    {
      hide Aged;
      var written: seq<Record> := [];
      var list := entries[k];
      ghost var all := AgedList(list, now);
      assert all[..0] + list[0..] == list && RecordsOf(all[..0]) == [];
      for i := 0 to |list|
        invariant entries == old(entries)[k := all[..i] + list[i..]]
        invariant written == RecordsOf(all[..i])
      {
        var aged := Aged(list[i], now);
        AgedStep(list, now, i);
        entries := entries[k := entries[k][i := aged]];
        written := written + [aged.record];
      }
      assert all[..|list|] + list[|list|..] == all && all[..|list|] == all;
      return Reply(written, true, false);
    }

    method Resolve(k: Key, now: int, up: Answer) returns (reply: Reply)
      modifies this
      ensures (entries, reply) == Asked(old(entries), k, now, up)
    {
      if k !in entries {
        assert entries - {k} == entries;
        reply := ResolveFromUpstream(up);
        return;
      }
      var list := entries[k];
      for i := 0 to |list|
        invariant entries == old(entries)
        invariant forall j :: 0 <= j < i ==> !IsOver(list[j], now)
      {
        if list[i].expire - now < 1 {
          assert IsOver(list[i], now);
          entries := entries - {k};
          reply := ResolveFromUpstream(up);
          return;
        }
      }
      reply := ResolveFromCache(k, now);
    }

    /** The loop over one set: whether it holds an expired record, and the delay lowered by the records before. */
    static method CheckSet(list: seq<CachedRecord>, now: int, limit: int) returns (next: int, sweep: bool)
      requires limit > 0
      ensures sweep == IsStale(list, now) && 0 < next <= limit
      ensures forall i :: IsSeen(list, i, now) ==> next <= list[i].expire - now
      ensures next == limit || exists i :: IsSeen(list, i, now) && next == list[i].expire - now
    {
      next, sweep := limit, false;
      for i := 0 to |list|
        invariant 0 < next <= limit
        invariant forall j :: 0 <= j < i ==> !IsOver(list[j], now) && next <= list[j].expire - now
        invariant next == limit || exists j :: 0 <= j < i && next == list[j].expire - now
      {
        var delta := list[i].expire - now;
        if delta < 1 {
          assert IsOver(list[i], now);
          sweep := true;
          break;
        } else if next > delta {
          next := delta;
        }
      }
      assert next == limit || exists j :: IsSeen(list, j, now) && next == list[j].expire - now;
    }

    /** One sweep. It removes exactly the sets that hold an expired record. The delay it returns is the least of ten
        seconds and the lives of the records before the first expired one of each set, so it is positive and no
        longer than any record it keeps has to live. */
    method ManageTask(now: int) returns (next: int)
      modifies this
      ensures entries == Swept(old(entries), now)
      ensures 0 < next <= 10_000_000_000
      ensures NoLongerThanSeen(old(entries), {}, now, next) && IsLifeSeen(old(entries), now, next)
      ensures forall k, i :: k in entries && 0 <= i < |entries[k]| ==> next <= entries[k][i].expire - now
    {
      hide NoLongerThanSeen, IsLifeSeen, IsSeen;
      next := TEN_SECONDS;
      var rest := entries.Keys;
      NothingSeen(entries, now);
      while rest != {}
        invariant rest <= entries.Keys <= old(entries).Keys
        invariant forall k :: k in entries ==> entries[k] == old(entries)[k]
        invariant forall k :: k in old(entries) && k !in entries ==> IsStale(old(entries)[k], now)
        invariant forall k :: k in entries && k !in rest ==> !IsStale(entries[k], now)
        invariant 0 < next <= TEN_SECONDS
        invariant NoLongerThanSeen(old(entries), rest, now, next) && IsLifeSeen(old(entries), now, next)
        decreases |rest|
      {
        var k :| k in rest;
        var limit := next;
        var sweep;
        next, sweep := CheckSet(entries[k], now, limit);
        SetSeen(old(entries), rest, k, now, limit, next);
        rest := rest - {k};
        if sweep {
          entries := entries - {k};
        }
      }
      assert entries == Swept(old(entries), now);
      KeptIsSeen(old(entries), now, next);
    }
  }

  /** A delay no longer than the lives seen in all sets but some. */
  ghost predicate NoLongerThanSeen(c: Entries, except: set<Key>, now: int, next: int) {
    forall k, i :: k in c && k !in except && IsSeen(c[k], i, now) ==> next <= c[k][i].expire - now
  }

  /** Ten seconds, or the life of a record seen. */
  ghost predicate IsLifeSeen(c: Entries, now: int, next: int) {
    next == 10_000_000_000 || exists k, i :: k in c && IsSeen(c[k], i, now) && next == c[k][i].expire - now
  }

  lemma NothingSeen(c: Entries, now: int)
    ensures NoLongerThanSeen(c, c.Keys, now, TEN_SECONDS) && IsLifeSeen(c, now, TEN_SECONDS)
  {
  }

  lemma SetSeen(c: Entries, rest: set<Key>, k: Key, now: int, limit: int, next: int)
    requires NoLongerThanSeen(c, rest, now, limit) && IsLifeSeen(c, now, limit) && k in c
    requires next <= limit && forall i :: IsSeen(c[k], i, now) ==> next <= c[k][i].expire - now
    requires next == limit || exists i :: IsSeen(c[k], i, now) && next == c[k][i].expire - now
    ensures NoLongerThanSeen(c, rest - {k}, now, next) && IsLifeSeen(c, now, next)
  {
    hide IsSeen;
  }

  lemma KeptIsSeen(c: Entries, now: int, next: int)
    requires NoLongerThanSeen(c, {}, now, next)
    ensures forall k, i :: k in Swept(c, now) && 0 <= i < |c[k]| ==> next <= c[k][i].expire - now
  {
    forall k, i | k in Swept(c, now) && 0 <= i < |c[k]| ensures next <= c[k][i].expire - now {
      assert IsSeen(c[k], i, now);
    }
  }

  lemma AgedStep(list: seq<CachedRecord>, now: int, i: nat)
    requires i < |list|
    ensures var all, aged := AgedList(list, now), Aged(list[i], now);
            (all[..i] + list[i..])[i := aged] == all[..i + 1] + list[i + 1..] &&
            RecordsOf(all[..i + 1]) == RecordsOf(all[..i]) + [aged.record]
  {
    hide Aged;
    var all := AgedList(list, now);
    assert all[..i + 1] == all[..i] + [all[i]];
  }

  // --------------------------------------------------- answers stay as they came

  /** The records of an answer that are kept, in their order. */
  function Kept(ds: seq<Delivery>): seq<Delivery> {
    Filter(ds, (d: Delivery) => d.record.GetTTL() != 0)
  }

  /** An answer of which only records of the name and type asked for are kept. Records without a TTL are not kept,
      so they may be of any name. */
  predicate IsHonest(k: Key, ds: seq<Delivery>) {
    forall d :: d in Kept(ds) ==> KeyOf(d.record) == k
  }

  /** The records of an answer that are kept under a key, in their order. */
  function KeptUnder(ds: seq<Delivery>, k: Key): seq<Delivery> {
    Filter(ds, (d: Delivery) => d.record.GetTTL() != 0 && KeyOf(d.record) == k)
  }

  function CachedAll(ds: seq<Delivery>): (list: seq<CachedRecord>)
    ensures |list| == |ds|
  {
    seq(|ds|, i requires 0 <= i < |ds| => Cached(ds[i]))
  }

  /** What filing any answer does to any key: its list grows by the records that are kept under it. */
  lemma {:induction false} ListAfter(c: Entries, ds: seq<Delivery>, k: Key)
    ensures ListAt(AddedAll(c, ds), k) == ListAt(c, k) + CachedAll(KeptUnder(ds, k))
    ensures k in AddedAll(c, ds) <==> k in c || KeptUnder(ds, k) != []
  {
    hide Record.GetQtype;
    if ds != [] {
      var n := |ds| - 1;
      ListAfter(c, ds[..n], k);
      if ds[n].record.GetTTL() != 0 && KeyOf(ds[n].record) == k {
        assert CachedAll(KeptUnder(ds, k)) == CachedAll(KeptUnder(ds[..n], k)) + [Cached(ds[n])];
      }
    }
  }

  /** An honest answer is kept under its key alone. */
  lemma {:induction false} HonestKept(k: Key, ds: seq<Delivery>, j: Key)
    requires IsHonest(k, ds)
    ensures KeptUnder(ds, j) == if j == k then Kept(ds) else []
  {
    hide Record.GetQtype;
    if ds != [] {
      var n := |ds| - 1;
      assert forall d :: d in Kept(ds[..n]) ==> d in Kept(ds);
      HonestKept(k, ds[..n], j);
      assert ds[n].record.GetTTL() != 0 ==> ds[n] in Kept(ds);
    }
  }

  /** Filing an answer under a key without entries leaves exactly its positive-TTL records there and changes no other
      key, exactly when all of those are of that name and type. */
  lemma HonestFill(c: Entries, k: Key, ds: seq<Delivery>)
    requires k !in c
    ensures AddedAll(c, ds) == (if Kept(ds) == [] then c else c[k := CachedAll(Kept(ds))]) <==> IsHonest(k, ds)
  {
    hide Record.GetQtype, AddedAll, Kept, KeptUnder;
    var filled := if Kept(ds) == [] then c else c[k := CachedAll(Kept(ds))];
    if IsHonest(k, ds) {
      forall j ensures j in AddedAll(c, ds) <==> j in filled {
        ListAfter(c, ds, j);
        HonestKept(k, ds, j);
      }
      forall j | j in filled ensures AddedAll(c, ds)[j] == filled[j] {
        ListAfter(c, ds, j);
        HonestKept(k, ds, j);
      }
    } else {
      var d :| d in Kept(ds) && KeyOf(d.record) != k;
      ListAfter(c, ds, KeyOf(d.record));
      ForeignKept(ds, d);
    }
  }

  lemma ForeignKept(ds: seq<Delivery>, d: Delivery)
    requires d in Kept(ds)
    ensures d in KeptUnder(ds, KeyOf(d.record))
  {
  }

  datatype Event = Ask(key: Key, now: int, up: Answer) | Tick(now: int)

  function After(c: Entries, e: Event): Entries {
    match e
    case Ask(k, now, up) => Asked(c, k, now, up).0
    case Tick(now) => Swept(c, now)
  }

  function AfterAll(run: seq<Event>): Entries {
    if run == [] then map[] else After(AfterAll(run[..|run| - 1]), run[|run| - 1])
  }

  /** The answer that filled each key last, along a run. */
  function Origin(run: seq<Event>): map<Key, seq<Delivery>> {
    if run == [] then map[]
    else
      var n := |run| - 1;
      var e := run[n];
      if e.Ask? && !IsHit(AfterAll(run[..n]), e.key, e.now) then Origin(run[..n])[e.key := e.up.deliveries]
      else Origin(run[..n])
  }

  predicate HonestRun(run: seq<Event>) {
    forall i :: 0 <= i < |run| && run[i].Ask? ==> IsHonest(run[i].key, run[i].up.deliveries)
  }

  /** The same records but for the TTL in their headers. */
  predicate SameButHeader(e: CachedRecord, f: CachedRecord) {
    e.expire == f.expire && e.record.Masked() == f.record.Masked()
  }

  predicate SameButHeaders(x: seq<CachedRecord>, y: seq<CachedRecord>) {
    |x| == |y| && forall i :: 0 <= i < |x| ==> SameButHeader(x[i], y[i])
  }

  predicate AgreesWithOrigin(c: Entries, o: map<Key, seq<Delivery>>, k: Key) {
    k in c ==> k in o && IsHonest(k, o[k]) && Kept(o[k]) != [] && SameButHeaders(c[k], CachedAll(Kept(o[k])))
  }

  lemma AgedSame(x: seq<CachedRecord>, y: seq<CachedRecord>, now: int)
    requires SameButHeaders(x, y)
    ensures SameButHeaders(AgedList(x, now), y)
  {
    hide Record.GetQtype;
  }

  /** Over every run, with the sweeper coming by at any time, each cached list is exactly, in order, the
      positive-TTL records of the answer that filled it, and all of them have the key's name and type. */
  lemma {:induction false} CacheAgreesWithUpstream(run: seq<Event>, k: Key)
    requires HonestRun(run)
    ensures AgreesWithOrigin(AfterAll(run), Origin(run), k)
  {
    if run != [] {
      var n := |run| - 1;
      var c, o, e := AfterAll(run[..n]), Origin(run[..n]), run[n];
      assert HonestRun(run[..n]);
      CacheAgreesWithUpstream(run[..n], k);
      if e.Ask? && e.key == k {
        if IsHit(c, k, e.now) {
          AgedSame(c[k], CachedAll(Kept(o[k])), e.now);
        } else {
          HonestFill(c - {k}, k, e.up.deliveries);
          SameAsItself(CachedAll(Kept(e.up.deliveries)));
        }
      } else if e.Ask? {
        OtherKeyKept(c, e.key, e.now, e.up, k);
      }
    }
  }

  lemma SameAsItself(x: seq<CachedRecord>)
    ensures SameButHeaders(x, x)
  {
  }

  lemma OtherKeyKept(c: Entries, asked: Key, now: int, up: Answer, k: Key)
    requires k != asked && IsHonest(asked, up.deliveries)
    ensures var c' := Asked(c, asked, now, up).0;
            (k in c' <==> k in c) && (k in c ==> c'[k] == c[k])
  {
    HonestFill(c - {asked}, asked, up.deliveries);
  }

  /** A delivered record as a hit at a given time shows it. */
  function ServedTTL(d: Delivery, now: int): U32 {
    ToU32(RoundSeconds(Cached(d).expire - now))
  }

  /** A hit serves the records of the answer that filled the key with the time they have left, whatever earlier
      hits wrote into their headers. */
  lemma HitServesOrigin(run: seq<Event>, k: Key, now: int, up: Answer)
    requires HonestRun(run) && IsHit(AfterAll(run), k, now) && now >= Seconds(1)
    ensures k in Origin(run)
    ensures var kept := Kept(Origin(run)[k]);
            var reply := Asked(AfterAll(run), k, now, up).1;
            reply.hit && |reply.records| == |kept| &&
            forall i :: 0 <= i < |kept| ==> reply.records[i] == kept[i].record.WithTTL(ServedTTL(kept[i], now))
  {
    hide Record.GetQtype, ToU32, RoundSeconds;
    CacheAgreesWithUpstream(run, k);
    var list, kept := AfterAll(run)[k], Kept(Origin(run)[k]);
    forall i | 0 <= i < |kept|
      ensures AgedList(list, now)[i].record == kept[i].record.WithTTL(ServedTTL(kept[i], now))
    {
      assert SameButHeader(list[i], CachedAll(kept)[i]) && !IsOver(list[i], now);
      assert Unix(list[i].expire) > 0;
      SameMaskSameAged(list[i].record, kept[i].record, ServedTTL(kept[i], now));
    }
  }

  lemma SameMaskSameAged(x: Record, y: Record, ttl: U32)
    requires x.Masked() == y.Masked()
    ensures x.WithTTL(ttl) == y.WithTTL(ttl)
  {
  }

  /** TTLs age as the clock does: a served TTL is the original one when the record comes in, at most that later, within
      half a second of the time left, and never rises; and a TTL in nanoseconds fits 64 bits. */
  lemma ServedTTLAges(d: Delivery, now: int, later: int)
    requires d.at <= now <= later < d.at + Seconds(d.record.GetTTL())
    ensures var ttl := d.record.GetTTL();
            ServedTTL(d, d.at) == ttl && ServedTTL(d, now) <= ttl &&
            -Seconds(1) <= 2 * (Seconds(ServedTTL(d, now)) - (d.at + Seconds(ttl) - now)) <= Seconds(1) &&
            ServedTTL(d, later) <= ServedTTL(d, now) && IsInt64(Seconds(ttl))
  {
    var ttl, left := d.record.GetTTL(), Cached(d).expire - now;
    RoundSecondsMonotone(left, Seconds(ttl));
    RoundSecondsMonotone(Cached(d).expire - later, left);
    RoundSecondsExact(ttl);
    RoundSecondsNearest(left);
    RoundSecondsNearest(Cached(d).expire - later);
    SmallToU32(ttl);
    SmallToU32(RoundSeconds(left));
    SmallToU32(RoundSeconds(Cached(d).expire - later));
  }

  /** A record is kept for its TTL from when it came in. */
  lemma KeptForTTL(d: Delivery, now: int)
    ensures IsOver(Cached(d), now) <==> now >= d.at + Seconds(d.record.GetTTL())
  {
  }

  /** After a question that was answered by the upstream resolver, with records of the name and type asked for, the same
      question is answered from the cache exactly as long as every one of those that was kept is within its TTL. */
  lemma HitWithinTTL(c: Entries, k: Key, now: int, up: Answer, later: int)
    requires !IsHit(c, k, now) && IsHonest(k, up.deliveries) && Kept(up.deliveries) != []
    ensures IsHit(Asked(c, k, now, up).0, k, later) <==>
      forall d :: d in Kept(up.deliveries) ==> later < d.at + Seconds(d.record.GetTTL())
  {
    hide AddedAll, Record.GetQtype, IsHonest, Kept, Cached, IsOver;
    var kept := Kept(up.deliveries);
    var list := CachedAll(kept);
    HonestFill(c - {k}, k, up.deliveries);
    forall i | 0 <= i < |kept|
      ensures kept[i] in kept && (IsOver(list[i], later) <==> later >= kept[i].at + Seconds(kept[i].record.GetTTL()))
    {
      KeptForTTL(kept[i], later);
    }
    if d :| d in kept && later >= d.at + Seconds(d.record.GetTTL()) {
      var i :| 0 <= i < |kept| && kept[i] == d;
      assert IsOver(list[i], later);
    }
  }

  lemma SmallToU32(n: int)
    ensures 0 <= n < 0x1_0000_0000 ==> ToU32(n) == n
  {
  }

  /** Honesty is needed: on a miss, every other key grows by the records of the answer that are kept under it, each
      time it is answered; no other list changes exactly when the answer is honest. */
  lemma OtherNamesPileUp(c: Entries, k: Key, now: int, up: Answer)
    requires !IsHit(c, k, now)
    ensures forall j :: j != k ==>
      ListAt(Asked(c, k, now, up).0, j) == ListAt(c, j) + CachedAll(KeptUnder(up.deliveries, j))
    ensures (forall j :: j != k ==> ListAt(Asked(c, k, now, up).0, j) == ListAt(c, j)) <==> IsHonest(k, up.deliveries)
  {
    hide Record.GetQtype, AddedAll, Kept, KeptUnder, IsHit;
    var ds := up.deliveries;
    forall j | j != k ensures ListAt(Asked(c, k, now, up).0, j) == ListAt(c, j) + CachedAll(KeptUnder(ds, j)) {
      ListAfter(c - {k}, ds, j);
    }
    if IsHonest(k, ds) {
      forall j | j != k ensures KeptUnder(ds, j) == [] {
        HonestKept(k, ds, j);
      }
    } else {
      var d :| d in Kept(ds) && KeyOf(d.record) != k;
      ForeignKept(ds, d);
    }
  }

  // ------------------------------------------------------ the invisible sweeper

  /** What clients do, and when the sweeper comes by; the upstream resolver answers by the number of questions it
      has had, the question and the time. */
  datatype Action = Question(key: Key, now: int) | Sweeping(now: int)

  type Upstream = (nat, Key, int) -> Answer

  datatype State = State(entries: Entries, upstreamCalls: nat, replies: seq<Reply>)

  function Step(s: State, a: Action, up: Upstream): State {
    match a
    case Sweeping(now) => s.(entries := Swept(s.entries, now))
    case Question(k, now) =>
      var (entries, reply) := Asked(s.entries, k, now, up(s.upstreamCalls, k, now));
      State(entries, if reply.hit then s.upstreamCalls else s.upstreamCalls + 1, s.replies + [reply])
  }

  function Run(actions: seq<Action>, up: Upstream): State {
    if actions == [] then State(map[], 0, []) else Step(Run(actions[..|actions| - 1], up), actions[|actions| - 1], up)
  }

  /** The same questions without the sweeper. */
  function Questions(actions: seq<Action>): seq<Action> {
    Filter(actions, (a: Action) => a.Question?)
  }

  predicate ClockRuns(actions: seq<Action>) {
    forall i, j :: 0 <= i <= j < |actions| ==> actions[i].now <= actions[j].now
  }

  function StaleKeys(c: Entries, now: int): set<Key> {
    set k | k in c && IsStale(c[k], now)
  }

  /** The keys of which the sweeper has taken a list since they were last asked of the upstream resolver. */
  function Lost(actions: seq<Action>, up: Upstream): set<Key> {
    if actions == [] then {}
    else
      var front, a := actions[..|actions| - 1], actions[|actions| - 1];
      var c := Run(front, up).entries;
      match a
      case Sweeping(now) => Lost(front, up) + StaleKeys(c, now)
      case Question(k, now) => if IsHit(c, k, now) then Lost(front, up) else Lost(front, up) - {k}
  }

  /** A question that the cache answers although the sweeper has taken a list of its key since it was last asked of the
      upstream resolver: answers to other questions have put records there. */
  predicate Revives(actions: seq<Action>, up: Upstream, i: nat) {
    i < |actions| && actions[i].Question? && actions[i].key in Lost(actions[..i], up) &&
    IsHit(Run(actions[..i], up).entries, actions[i].key, actions[i].now)
  }

  predicate NeverRevives(actions: seq<Action>, up: Upstream) {
    forall i :: 0 <= i < |actions| ==> !Revives(actions, up, i)
  }

  // What the two caches hold under a key.

  /** One list is the other with records before it of which one has expired. */
  predicate EndsStale(x: seq<CachedRecord>, y: seq<CachedRecord>, now: int) {
    |x| <= |y| && y[|y| - |x|..] == x && IsStale(y[..|y| - |x|], now)
  }

  predicate NoEmptyLists(c: Entries) {
    forall k :: k in c ==> c[k] != []
  }

  /** The swept cache holds the same lists, but for lost keys, whose list lacks what was taken. */
  ghost predicate EqualUpToLost(c: Entries, d: Entries, lost: set<Key>, now: int) {
    NoEmptyLists(c) && NoEmptyLists(d) &&
    forall k :: if k in lost then EndsStale(ListAt(c, k), ListAt(d, k), now) else ListAt(c, k) == ListAt(d, k)
  }

  lemma LaterUpToLost(c: Entries, d: Entries, lost: set<Key>, now: int, later: int)
    requires EqualUpToLost(c, d, lost, now) && now <= later
    ensures EqualUpToLost(c, d, lost, later)
  {
    forall k | k in lost ensures EndsStale(ListAt(c, k), ListAt(d, k), later) {
      var x, y := ListAt(c, k), ListAt(d, k);
      var i :| 0 <= i < |y| - |x| && IsOver(y[..|y| - |x|][i], now);
      assert IsOver(y[..|y| - |x|][i], later);
    }
  }

  lemma StaleWhole(x: seq<CachedRecord>, y: seq<CachedRecord>, now: int)
    requires EndsStale(x, y, now)
    ensures IsStale(y, now)
  {
    var i :| 0 <= i < |y| - |x| && IsOver(y[..|y| - |x|][i], now);
    assert IsOver(y[i], now);
  }

  lemma NothingLeft(y: seq<CachedRecord>, now: int)
    requires IsStale(y, now)
    ensures EndsStale([], y, now)
  {
    assert y[..|y|] == y;
  }

  lemma BothGrow(x: seq<CachedRecord>, y: seq<CachedRecord>, z: seq<CachedRecord>, now: int)
    requires EndsStale(x, y, now)
    ensures EndsStale(x + z, y + z, now)
  {
    assert (y + z)[..|y + z| - |x + z|] == y[..|y| - |x|];
    assert (y + z)[|y + z| - |x + z|..] == y[|y| - |x|..] + z;
  }

  lemma SweepLoses(c: Entries, d: Entries, lost: set<Key>, now: int)
    requires EqualUpToLost(c, d, lost, now)
    ensures EqualUpToLost(Swept(c, now), d, lost + StaleKeys(c, now), now)
  {
    hide IsStale;
    var more := StaleKeys(c, now);
    forall k | k in more ensures EndsStale(ListAt(Swept(c, now), k), ListAt(d, k), now) {
      if k in lost {
        StaleWhole(ListAt(c, k), ListAt(d, k), now);
      }
      NothingLeft(ListAt(d, k), now);
    }
    forall k | k !in more ensures ListAt(Swept(c, now), k) == ListAt(c, k) {
    }
  }

  lemma {:induction false} AddingLeavesNoneEmpty(c: Entries, ds: seq<Delivery>)
    requires NoEmptyLists(c)
    ensures NoEmptyLists(AddedAll(c, ds))
  {
    hide Record.GetQtype;
    if ds != [] {
      AddingLeavesNoneEmpty(c, ds[..|ds| - 1]);
    }
  }

  /** A question on which the caches do not part gets the same reply from both. */
  lemma QuestionAlike(c: Entries, d: Entries, lost: set<Key>, k: Key, now: int, up: Answer)
    requires EqualUpToLost(c, d, lost, now)
    ensures k in lost ==> !IsHit(d, k, now)
    ensures k in lost && IsHit(c, k, now) ==> Asked(c, k, now, up).1 != Asked(d, k, now, up).1
    ensures !(k in lost && IsHit(c, k, now)) ==>
      Asked(c, k, now, up).1 == Asked(d, k, now, up).1 &&
      EqualUpToLost(Asked(c, k, now, up).0, Asked(d, k, now, up).0, if IsHit(c, k, now) then lost else lost - {k}, now)
  {
    hide IsStale, EndsStale, AgedList, AddedAll, KeptUnder;
    if k in lost && k in d {
      StaleWhole(ListAt(c, k), d[k], now);
    }
    assert k !in lost ==> (k in c <==> k in d);
    if !IsHit(c, k, now) {
      var ds := up.deliveries;
      AddingLeavesNoneEmpty(c - {k}, ds);
      AddingLeavesNoneEmpty(d - {k}, ds);
      forall j
        ensures if j in lost - {k}
                then EndsStale(ListAt(AddedAll(c - {k}, ds), j), ListAt(AddedAll(d - {k}, ds), j), now)
                else ListAt(AddedAll(c - {k}, ds), j) == ListAt(AddedAll(d - {k}, ds), j)
      {
        ListAfter(c - {k}, ds, j);
        ListAfter(d - {k}, ds, j);
        if j in lost - {k} {
          BothGrow(ListAt(c, j), ListAt(d, j), CachedAll(KeptUnder(ds, j)), now);
        }
      }
    }
  }

  lemma QuestionsOfFront(actions: seq<Action>)
    requires actions != []
    ensures var n := |actions| - 1;
            if actions[n].Sweeping? then Questions(actions) == Questions(actions[..n])
            else Questions(actions) == Questions(actions[..n]) + [actions[n]] &&
                 Questions(actions)[..|Questions(actions)| - 1] == Questions(actions[..n])
  {
  }

  lemma RevivesInFront(actions: seq<Action>, up: Upstream, n: nat)
    requires n <= |actions|
    ensures forall i :: 0 <= i < n ==> (Revives(actions[..n], up, i) <==> Revives(actions, up, i))
  {
    forall i | 0 <= i < n ensures Revives(actions[..n], up, i) <==> Revives(actions, up, i) {
      assert actions[..n][..i] == actions[..i];
    }
  }

  lemma {:induction false} AlikeUntilRevived(actions: seq<Action>, up: Upstream, now: int)
    requires ClockRuns(actions) && NeverRevives(actions, up)
    requires actions != [] ==> actions[|actions| - 1].now <= now
    ensures var s, t := Run(actions, up), Run(Questions(actions), up);
            EqualUpToLost(s.entries, t.entries, Lost(actions, up), now) &&
            s.upstreamCalls == t.upstreamCalls && s.replies == t.replies
  {
    hide IsHit, Asked, EndsStale, IsStale;
    if actions != [] {
      var n := |actions| - 1;
      var front, a := actions[..n], actions[n];
      RevivesInFront(actions, up, n);
      AlikeUntilRevived(front, up, a.now);
      QuestionsOfFront(actions);
      var s, t := Run(front, up), Run(Questions(front), up);
      match a {
        case Question(k, at) =>
          assert !Revives(actions, up, n);
          QuestionAlike(s.entries, t.entries, Lost(front, up), k, at, up(s.upstreamCalls, k, at));
        case Sweeping(at) => SweepLoses(s.entries, t.entries, Lost(front, up), at);
      }
      LaterUpToLost(Run(actions, up).entries, Run(Questions(actions), up).entries, Lost(actions, up), a.now, now);
    }
  }

  lemma {:induction false} AsManyReplies(actions: seq<Action>, up: Upstream)
    ensures |Run(actions, up).replies| == |Questions(actions)| == |Run(Questions(actions), up).replies|
  {
    hide Asked;
    if actions != [] {
      AsManyReplies(actions[..|actions| - 1], up);
      QuestionsOfFront(actions);
    }
  }

  lemma RunLast(actions: seq<Action>, up: Upstream)
    requires actions != []
    ensures var n := |actions| - 1; Run(actions, up) == Step(Run(actions[..n], up), actions[n], up)
  {
  }

  lemma StepReplies(s: State, a: Action, up: Upstream)
    ensures Step(s, a, up).replies ==
      if a.Sweeping? then s.replies
      else s.replies + [Asked(s.entries, a.key, a.now, up(s.upstreamCalls, a.key, a.now)).1]
  {
    hide Asked;
  }

  /** The caches part at a revived list. */
  lemma StepsPart(s: State, t: State, lost: set<Key>, a: Action, up: Upstream)
    requires a.Question? && a.key in lost && IsHit(s.entries, a.key, a.now)
    requires EqualUpToLost(s.entries, t.entries, lost, a.now) && s.upstreamCalls == t.upstreamCalls
    ensures |s.replies| == |t.replies| ==> Step(s, a, up).replies != Step(t, a, up).replies
  {
    hide Asked, EqualUpToLost, IsHit, Step;
    QuestionAlike(s.entries, t.entries, lost, a.key, a.now, up(s.upstreamCalls, a.key, a.now));
    StepReplies(s, a, up);
    StepReplies(t, a, up);
    assert |s.replies| == |t.replies| ==>
        Step(s, a, up).replies[|s.replies|] != Step(t, a, up).replies[|s.replies|];
  }

  lemma RepliesStayApart(s: State, t: State, a: Action, b: Action, up: Upstream)
    requires |s.replies| == |t.replies| && s.replies != t.replies && a.Question? && b.Question?
    ensures Step(s, a, up).replies != Step(t, b, up).replies
  {
    hide Asked, Step;
    StepReplies(s, a, up);
    StepReplies(t, b, up);
    var x, y := Step(s, a, up).replies, Step(t, b, up).replies;
    assert x[..|s.replies|] == s.replies && y[..|t.replies|] == t.replies;
  }

  lemma {:induction false} RevivedShows(actions: seq<Action>, up: Upstream, i: nat)
    requires ClockRuns(actions) && i < |actions| && Revives(actions, up, i)
    ensures Run(actions, up).replies != Run(Questions(actions), up).replies
  {
    hide IsHit, Step, EqualUpToLost, Run, Questions, Lost;
    var n := |actions| - 1;
    var front, a := actions[..n], actions[n];
    var s, t := Run(front, up), Run(Questions(front), up);
    RevivesInFront(actions, up, n);
    AsManyReplies(front, up);
    QuestionsOfFront(actions);
    RunLast(actions, up);
    if a.Question? {
      RunLast(Questions(actions), up);
    }
    if j :| 0 <= j < n && Revives(actions, up, j) {
      RevivedShows(front, up, j);
      if a.Question? {
        RepliesStayApart(s, t, a, a, up);
      } else {
        StepReplies(s, a, up);
      }
    } else {
      AlikeUntilRevived(front, up, a.now);
      StepsPart(s, t, Lost(front, up), a, up);
    }
  }

  /** Wherever the sweeper runs, every question gets the reply it would get without it, and the upstream resolver is
      asked at the same points, exactly when the cache never answers from a list that began after the sweeper took the
      one before it. */
  lemma SweeperIsInvisible(actions: seq<Action>, up: Upstream)
    requires ClockRuns(actions)
    ensures Run(actions, up).replies == Run(Questions(actions), up).replies <==> NeverRevives(actions, up)
    ensures NeverRevives(actions, up) ==> Run(actions, up).upstreamCalls == Run(Questions(actions), up).upstreamCalls
  {
    if NeverRevives(actions, up) {
      if actions != [] {
        AlikeUntilRevived(actions, up, actions[|actions| - 1].now);
      }
    } else {
      var i :| 0 <= i < |actions| && Revives(actions, up, i);
      RevivedShows(actions, up, i);
    }
  }

  ghost predicate HonestUpstream(up: Upstream) {
    forall i, k, now :: IsHonest(k, up(i, k, now).deliveries)
  }

  /** An upstream resolver of whose answers only records of the name and type asked for are kept is enough: then a key
      that was lost has no list until it is asked again. */
  lemma {:induction false} HonestUpstreamNeverRevives(actions: seq<Action>, up: Upstream)
    requires HonestUpstream(up)
    ensures NeverRevives(actions, up) && forall k :: k in Lost(actions, up) ==> k !in Run(actions, up).entries
  {
    hide IsStale, AgedList, AddedAll, IsHonest, Kept;
    if actions != [] {
      var n := |actions| - 1;
      var front, a := actions[..n], actions[n];
      RevivesInFront(actions, up, n);
      HonestUpstreamNeverRevives(front, up);
      var s := Run(front, up);
      if a.Question? && !IsHit(s.entries, a.key, a.now) {
        HonestFill(s.entries - {a.key}, a.key, up(s.upstreamCalls, a.key, a.now).deliveries);
      }
    }
  }
}
