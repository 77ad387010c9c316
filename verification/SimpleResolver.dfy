/** SimpleResolver: the static table, an index from query type and name to the records configured for them. */
module SimpleResolver {
  import opened Strings
  import opened Records
  import Addresses
  import Resolvers

  type Index = map<U16, map<Domain, seq<Record>>>

  /** What the index holds for a question; the zero value of a missing map is empty. */
  function Lookup(sr: Index, qtype: U16, name: Domain): seq<Record> {
    if qtype in sr && name in sr[qtype] then sr[qtype][name] else []
  }

  function Asked(qtype: U16, name: Domain): Record -> bool {
    (r: Record) => r.GetQtype() == qtype && r.name == name
  }

  lemma FilterNone(p: Record -> bool)
    ensures Filter([], p) == []
  {
  }

  lemma FilterNext(records: seq<Record>, i: nat, p: Record -> bool)
    requires i < |records|
    ensures Filter(records[..i + 1], p) == Filter(records[..i], p) + (if p(records[i]) then [records[i]] else [])
  {
    assert records[..i + 1][..i] == records[..i];
  }

  /** NewSimpleResolver: the index holds, for every question, the records configured for it in their order. */
  method NewSimpleResolver(records: seq<Record>) returns (sr: Index)
    ensures forall qtype, name :: Lookup(sr, qtype, name) == Filter(records, Asked(qtype, name))
    ensures forall qtype :: qtype in sr <==> exists r :: r in records && r.GetQtype() == qtype
  {
    hide Record.GetQtype, Filter;
    sr := map[];
    assert records[..0] == [];
    forall q, n ensures Filter(records[..0], Asked(q, n)) == [] {
      FilterNone(Asked(q, n));
    }
    for i := 0 to |records|
      invariant forall qtype, name :: Lookup(sr, qtype, name) == Filter(records[..i], Asked(qtype, name))
      invariant forall qtype :: qtype in sr <==> exists r :: r in records[..i] && r.GetQtype() == qtype
    {
      var r := records[i];
      var qtype, name := r.GetQtype(), r.name;
      ghost var before := sr;
      if qtype !in sr {
        sr := sr[qtype := map[]];
      }
      sr := sr[qtype := sr[qtype][name := Lookup(sr, qtype, name) + [r]]];
      forall q, n ensures Lookup(sr, q, n) == Filter(records[..i + 1], Asked(q, n)) {
        assert Lookup(before, q, n) == Filter(records[..i], Asked(q, n));
        FilterNext(records, i, Asked(q, n));
      }
      assert records[..i + 1] == records[..i] + [r];
    }
    assert records[..|records|] == records;
  }

  /** Resolve: the records of the question, one after the other. */
  method Resolve(sr: Index, qtype: U16, name: Domain, w: Resolvers.Writer)
    modifies w.Base(), w.Flags()
    ensures w.Base().records == old(w.Base().records) + Lookup(sr, qtype, name)
    ensures w.Base().authoritative == old(w.Base().authoritative)
  {
    if qtype !in sr {
      return;
    }
    var found := Lookup(sr, qtype, name);
    for i := 0 to |found|
      invariant w.Base().records == old(w.Base().records) + found[..i]
      invariant w.Base().authoritative == old(w.Base().authoritative)
    {
      Resolvers.Add(w, found[i]);
    }
  }

  // ------------------------------------------------------------ from a configuration

  /** What a configuration gives to a name. */
  datatype Entry<T> = Entry(name: Domain, values: seq<T>)

  datatype Service = Service(service: string, proto: string, priority: U16, weight: U16, port: U16, target: Domain)

  datatype Config = Config(
    ttl: Option<U32>, addresses: seq<Entry<Addresses.IP>>, cnames: seq<Entry<Domain>>, texts: seq<Entry<string>>,
    services: seq<Entry<Service>>)

  /** How often a value is given to a name. */
  ghost function Occurrences<T>(entries: seq<Entry<T>>, name: Domain, v: T): nat {
    if entries == [] then 0
    else
      var n := |entries| - 1;
      Occurrences(entries[..n], name, v) + (if entries[n].name == name then multiset(entries[n].values)[v] else 0)
  }

  /** How often a record is made of the values of a name. */
  ghost function MadeOf<T(!new)>(name: Domain, values: seq<T>, make: (Domain, T) -> Record, r: Record): nat {
    if values == [] then 0
    else
      var n := |values| - 1;
      MadeOf(name, values[..n], make, r) + (if make(name, values[n]) == r then 1 else 0)
  }

  ghost function Made<T(!new)>(entries: seq<Entry<T>>, make: (Domain, T) -> Record, r: Record): nat {
    if entries == [] then 0
    else
      var n := |entries| - 1;
      Made(entries[..n], make, r) + MadeOf(entries[n].name, entries[n].values, make, r)
  }

  /** The loops over a part of a configuration: one record for each value of each name. */
  method MakeRecords<T(!new)>(entries: seq<Entry<T>>, make: (Domain, T) -> Record) returns (records: seq<Record>)
    ensures forall r :: multiset(records)[r] == Made(entries, make, r)
  {
    records := [];
    for i := 0 to |entries|
      invariant forall r :: multiset(records)[r] == Made(entries[..i], make, r)
    {
      var name, values := entries[i].name, entries[i].values;
      ghost var before := records;
      for j := 0 to |values|
        invariant forall r :: multiset(records)[r] == multiset(before)[r] + MadeOf(name, values[..j], make, r)
      {
        assert values[..j + 1][..j] == values[..j];
        records := records + [make(name, values[j])];
      }
      assert values[..|values|] == values && entries[..i + 1][..i] == entries[..i];
    }
    assert entries[..|entries|] == entries;
  }

  function AddressMaker(ttl: U32): (Domain, Addresses.IP) -> Record {
    (name: Domain, ip: Addresses.IP) => Address(name, ttl, ip)
  }

  function ReverseMaker(ttl: U32): (Domain, Addresses.IP) -> Record {
    (name: Domain, ip: Addresses.IP) => Ptr(Addresses.ReverseAddr(ip), ttl, name)
  }

  function CnameMaker(ttl: U32): (Domain, Domain) -> Record {
    (name: Domain, target: Domain) => Cname(name, ttl, target)
  }

  function TextMaker(ttl: U32): (Domain, string) -> Record {
    (name: Domain, text: string) => Txt(name, ttl, text)
  }

  /** SrvRecordConfig.ToRecord. */
  function ServiceMaker(ttl: U32): (Domain, Service) -> Record {
    (name: Domain, s: Service) =>
      Srv("_" + s.service + "._" + (if s.proto == "" then "tcp" else s.proto) + "." + Fqdn(name), ttl,
          s.priority, s.weight, s.port, s.target)
  }

  function TTLOf(config: Config): U32 {
    if config.ttl.Some? then config.ttl.value else DEFAULT_TTL
  }

  /** How often a configuration gives a record. */
  ghost function Configured(config: Config, r: Record): nat {
    var ttl := TTLOf(config);
    Made(config.addresses, AddressMaker(ttl), r) + Made(config.addresses, ReverseMaker(ttl), r) +
    Made(config.cnames, CnameMaker(ttl), r) + Made(config.texts, TextMaker(ttl), r) +
    Made(config.services, ServiceMaker(ttl), r)
  }

  /** SrvRecord.Validate; `valid` is Domain.Validate. */
  predicate IsValid(r: Record, valid: Domain -> bool) {
    r.Srv? ==> valid(r.name) && r.port != 0 && valid(r.target)
  }

  /** Every service has a port, a valid target and a valid name to be answered under. */
  ghost predicate AllValid(entries: seq<Entry<Service>>, valid: Domain -> bool) {
    forall e, s :: e in entries && s in e.values ==>
      s.port > 0 && valid(s.target) &&
      valid("_" + s.service + "._" + (if s.proto == "" then "tcp" else s.proto) + "." + Fqdn(e.name))
  }

  lemma ValidService(name: Domain, s: Service, ttl: U32, valid: Domain -> bool)
    ensures IsValid(ServiceMaker(ttl)(name, s), valid) <==>
      s.port > 0 && valid(s.target) &&
      valid("_" + s.service + "._" + (if s.proto == "" then "tcp" else s.proto) + "." + Fqdn(name))
  {
  }

  ghost predicate EachValid(entries: seq<Entry<Service>>, ttl: U32, valid: Domain -> bool) {
    forall e, s :: e in entries && s in e.values ==> IsValid(ServiceMaker(ttl)(e.name, s), valid)
  }

  lemma EachIsAll(entries: seq<Entry<Service>>, ttl: U32, valid: Domain -> bool)
    ensures EachValid(entries, ttl, valid) <==> AllValid(entries, valid)
  {
    hide IsValid, ServiceMaker, Fqdn;
    if EachValid(entries, ttl, valid) {
      forall e, s | e in entries && s in e.values
        ensures s.port > 0 && valid(s.target) &&
                valid("_" + s.service + "._" + (if s.proto == "" then "tcp" else s.proto) + "." + Fqdn(e.name))
      {
        ValidService(e.name, s, ttl, valid);
      }
    }
    if AllValid(entries, valid) {
      forall e, s | e in entries && s in e.values ensures IsValid(ServiceMaker(ttl)(e.name, s), valid) {
        ValidService(e.name, s, ttl, valid);
      }
    }
  }

  /** The check of services, up to the first that is not valid. */
  method CheckServices(entries: seq<Entry<Service>>, ttl: U32, valid: Domain -> bool) returns (ok: bool)
    ensures ok <==> AllValid(entries, valid)
  {
    hide AllValid, IsValid, ServiceMaker;
    EachIsAll(entries, ttl, valid);
    for i := 0 to |entries|
      invariant EachValid(entries[..i], ttl, valid)
    {
      var e := entries[i];
      for j := 0 to |e.values|
        invariant forall s :: s in e.values[..j] ==> IsValid(ServiceMaker(ttl)(e.name, s), valid)
      {
        if !IsValid(ServiceMaker(ttl)(e.name, e.values[j]), valid) {
          assert e in entries && e.values[j] in e.values;
          return false;
        }
      }
      assert entries[..i + 1] == entries[..i] + [e] && e.values[..|e.values|] == e.values;
    }
    assert entries[..|entries|] == entries;
    return true;
  }

  /** NewSimpleResolverFromConfig: an error exactly when a service is not valid; and otherwise every record is in the
      answer to its question exactly as often as the configuration gives it. */
  method FromConfig(config: Config, valid: Domain -> bool) returns (sr: Option<Index>)
    ensures sr.Some? <==> AllValid(config.services, valid)
    ensures sr.Some? ==> forall r: Record ::
              multiset(Lookup(sr.value, r.GetQtype(), r.name))[r] == Configured(config, r)
  {
    hide Made, AddressMaker, ReverseMaker, CnameMaker, TextMaker, ServiceMaker, Filter, AllValid, Record.GetQtype;
    var ttl := TTLOf(config);
    var records := MakeRecords(config.addresses, AddressMaker(ttl));
    var reverse := MakeRecords(config.addresses, ReverseMaker(ttl));
    var cnames := MakeRecords(config.cnames, CnameMaker(ttl));
    var texts := MakeRecords(config.texts, TextMaker(ttl));
    var ok := CheckServices(config.services, ttl, valid);
    if !ok {
      return None;
    }
    var services := MakeRecords(config.services, ServiceMaker(ttl));
    var all := records + reverse + cnames + texts + services;
    var index := NewSimpleResolver(all);
    forall r: Record ensures multiset(Lookup(index, r.GetQtype(), r.name))[r] == Configured(config, r) {
      assert Lookup(index, r.GetQtype(), r.name) == Filter(all, Asked(r.GetQtype(), r.name));
      FilterKeepsCount(all, Asked(r.GetQtype(), r.name), r);
    }
    return Some(index);
  }

  lemma {:induction false} FilterKeepsCount(records: seq<Record>, p: Record -> bool, r: Record)
    requires p(r)
    ensures multiset(Filter(records, p))[r] == multiset(records)[r]
  {
    if records != [] {
      var n := |records| - 1;
      FilterKeepsCount(records[..n], p, r);
      assert records == records[..n] + [records[n]];
    }
  }

  // ------------------------------------------------ what a configuration gives

  /** Values of a name and records made of them, one for one. */
  ghost predicate IsOneToOne<T(!new)>(make: (Domain, T) -> Record) {
    forall m, n, v, w :: make(m, v) == make(n, w) ==> m == n && v == w
  }

  lemma {:induction false} MadeOfOccurs<T(!new)>(name: Domain, values: seq<T>, make: (Domain, T) -> Record, n: Domain,
                                                 v: T)
    requires IsOneToOne(make)
    ensures MadeOf(name, values, make, make(n, v)) == if name == n then multiset(values)[v] else 0
  {
    if values != [] {
      var last := |values| - 1;
      MadeOfOccurs(name, values[..last], make, n, v);
      assert values == values[..last] + [values[last]];
    }
  }

  lemma {:induction false} MadeOccurs<T(!new)>(entries: seq<Entry<T>>, make: (Domain, T) -> Record, name: Domain, v: T)
    requires IsOneToOne(make)
    ensures Made(entries, make, make(name, v)) == Occurrences(entries, name, v)
  {
    if entries != [] {
      var n := |entries| - 1;
      MadeOccurs(entries[..n], make, name, v);
      MadeOfOccurs(entries[n].name, entries[n].values, make, name, v);
    }
  }

  lemma {:induction false} MadeOfNone<T(!new)>(name: Domain, values: seq<T>, make: (Domain, T) -> Record, r: Record)
    requires forall v :: make(name, v) != r
    ensures MadeOf(name, values, make, r) == 0
  {
    if values != [] {
      MadeOfNone(name, values[..|values| - 1], make, r);
    }
  }

  lemma {:induction false} MadeNone<T(!new)>(entries: seq<Entry<T>>, make: (Domain, T) -> Record, r: Record)
    requires forall n, v :: make(n, v) != r
    ensures Made(entries, make, r) == 0
  {
    if entries != [] {
      var n := |entries| - 1;
      MadeNone(entries[..n], make, r);
      MadeOfNone(entries[n].name, entries[n].values, make, r);
    }
  }

  /** One address record and one reverse record for each time an address is given to a name, and as many records as
      there are targets and texts. */
  lemma ConfiguredRecords(config: Config, name: Domain, ip: Addresses.IP, target: Domain, text: string)
    ensures var ttl := TTLOf(config);
            Configured(config, Address(name, ttl, ip)) == Occurrences(config.addresses, name, ip) &&
            Configured(config, Ptr(Addresses.ReverseAddr(ip), ttl, name)) == Occurrences(config.addresses, name, ip) &&
            Configured(config, Cname(name, ttl, target)) == Occurrences(config.cnames, name, target) &&
            Configured(config, Txt(name, ttl, text)) == Occurrences(config.texts, name, text)
  {
    hide Addresses.ReverseAddr, Made, Occurrences;
    var ttl := TTLOf(config);
    ReverseMakerOneToOne(ttl);
    MadeOccurs(config.addresses, AddressMaker(ttl), name, ip);
    MadeOccurs(config.addresses, ReverseMaker(ttl), name, ip);
    MadeOccurs(config.cnames, CnameMaker(ttl), name, target);
    MadeOccurs(config.texts, TextMaker(ttl), name, text);
    OnlyItsKind(config, Address(name, ttl, ip));
    OnlyItsKind(config, Ptr(Addresses.ReverseAddr(ip), ttl, name));
    OnlyItsKind(config, Cname(name, ttl, target));
    OnlyItsKind(config, Txt(name, ttl, text));
  }

  lemma ReverseMakerOneToOne(ttl: U32)
    ensures IsOneToOne(ReverseMaker(ttl))
  {
    hide Addresses.ReverseAddr;
    forall m, n, v, w | ReverseMaker(ttl)(m, v) == ReverseMaker(ttl)(n, w) ensures m == n && v == w {
      Addresses.ReverseAddrInjective(v, w);
    }
  }

  lemma OnlyItsKind(config: Config, r: Record)
    ensures var ttl := TTLOf(config);
            (!r.Address? ==> Made(config.addresses, AddressMaker(ttl), r) == 0) &&
            (!r.Ptr? ==> Made(config.addresses, ReverseMaker(ttl), r) == 0) &&
            (!r.Cname? ==> Made(config.cnames, CnameMaker(ttl), r) == 0) &&
            (!r.Txt? ==> Made(config.texts, TextMaker(ttl), r) == 0) &&
            (!r.Srv? ==> Made(config.services, ServiceMaker(ttl), r) == 0)
  {
    hide Addresses.ReverseAddr, Made;
    var ttl := TTLOf(config);
    if !r.Address? {
      MadeNone(config.addresses, AddressMaker(ttl), r);
    }
    if !r.Ptr? {
      MadeNone(config.addresses, ReverseMaker(ttl), r);
    }
    if !r.Cname? {
      MadeNone(config.cnames, CnameMaker(ttl), r);
    }
    if !r.Txt? {
      MadeNone(config.texts, TextMaker(ttl), r);
    }
    if !r.Srv? {
      MadeNone(config.services, ServiceMaker(ttl), r);
    }
  }

  /** An SRV record as it stands for a service of a name. */
  predicate IsServiceOf(r: Record, name: Domain, s: Service, ttl: U32) {
    r.Srv? && r.ttl == ttl &&
    r.name == "_" + s.service + "._" + (if s.proto == "" then "tcp" else s.proto) + "." + Fqdn(name) &&
    r.priority == s.priority && r.weight == s.weight && r.port == s.port && r.target == s.target
  }

  /** The places of a configuration that an SRV record stands for. */
  ghost function ServicePlaces(entries: seq<Entry<Service>>, r: Record, ttl: U32): set<(int, int)> {
    set i, j | 0 <= i < |entries| && 0 <= j < |entries[i].values| &&
               IsServiceOf(r, entries[i].name, entries[i].values[j], ttl) :: (i, j)
  }

  ghost function PlacesIn(values: seq<Service>, n: int, name: Domain, r: Record, ttl: U32): set<(int, int)> {
    set j | 0 <= j < |values| && IsServiceOf(r, name, values[j], ttl) :: (n, j)
  }

  lemma {:induction false} MadeOfPlaces(values: seq<Service>, n: int, name: Domain, r: Record, ttl: U32)
    ensures MadeOf(name, values, ServiceMaker(ttl), r) == |PlacesIn(values, n, name, r, ttl)|
  {
    if values != [] {
      var m := |values| - 1;
      MadeOfPlaces(values[..m], n, name, r, ttl);
      ServiceRecord(name, values[m], r, ttl);
      var front := PlacesIn(values[..m], n, name, r, ttl);
      if IsServiceOf(r, name, values[m], ttl) {
        assert PlacesIn(values, n, name, r, ttl) == front + {(n, m)} && (n, m) !in front;
      } else {
        assert PlacesIn(values, n, name, r, ttl) == front;
      }
    }
  }

  lemma ServiceRecord(name: Domain, s: Service, r: Record, ttl: U32)
    ensures ServiceMaker(ttl)(name, s) == r <==> IsServiceOf(r, name, s, ttl)
  {
  }

  lemma PlacesSplit(entries: seq<Entry<Service>>, r: Record, ttl: U32)
    requires entries != []
    ensures var n := |entries| - 1;
            var front := ServicePlaces(entries[..n], r, ttl);
            var last := PlacesIn(entries[n].values, n, entries[n].name, r, ttl);
            ServicePlaces(entries, r, ttl) == front + last && front !! last
  {
    hide IsServiceOf;
    var n := |entries| - 1;
    assert forall i :: 0 <= i < n ==> entries[..n][i] == entries[i];
  }

  lemma {:induction false} MadePlaces(entries: seq<Entry<Service>>, r: Record, ttl: U32)
    ensures Made(entries, ServiceMaker(ttl), r) == |ServicePlaces(entries, r, ttl)|
  {
    if entries == [] {
      assert ServicePlaces(entries, r, ttl) == {};
    } else {
      hide ServicePlaces, PlacesIn, ServiceMaker;
      var n := |entries| - 1;
      MadePlaces(entries[..n], r, ttl);
      MadeOfPlaces(entries[n].values, n, entries[n].name, r, ttl);
      PlacesSplit(entries, r, ttl);
    }
  }

  /** An SRV record is answered once for each service that it stands for: one with its priority, weight, port and
      target, under its service, protocol and name. */
  lemma ConfiguredServices(config: Config, r: Record)
    requires r.Srv?
    ensures Configured(config, r) == |ServicePlaces(config.services, r, TTLOf(config))|
  {
    hide Made;
    OnlyItsKind(config, r);
    MadePlaces(config.services, r, TTLOf(config));
  }

  /** The records of a configuration without a TTL have the TTL 3600. */
  lemma TTLDefault(config: Config)
    ensures config.ttl.None? ==> TTLOf(config) == 3600
    ensures config.ttl.Some? ==> TTLOf(config) == config.ttl.value
  {
  }
}
