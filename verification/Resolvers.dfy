/** Trees of resolvers: ResolverSet asks all its children, AlternateResolver asks them until one has written a
    record. What a resolver writes passes through the hooks of every AlternateResolver above it. */
module Resolvers {
  import opened Strings
  import opened Records

  /** What a resolver does to the response writer. A record is foreign when it comes from the forwarder or from
      a cache hit. */
  datatype Event = Put(record: Record, foreign: bool) | NoAuthority

  /** One call of a resolver that is not a tree. */
  datatype Output = Output(events: seq<Event>, failed: bool)

  /** A leaf is a resolver with its own state: static table, dynamic store, cache or forwarder. */
  datatype Tree = Leaf(id: nat) | All(children: seq<Tree>) | First(children: seq<Tree>)

  /** The output of a leaf, by the number of leaf calls made before. */
  type Environment = (nat, nat) -> Output

  function Puts(events: seq<Event>): seq<Record> {
    if events == [] then []
    else
      var last := events[|events| - 1];
      Puts(events[..|events| - 1]) + (if last.Put? then [last.record] else [])
  }

  predicate Writes(events: seq<Event>) {
    exists e :: e in events && e.Put?
  }

  predicate WritesForeign(events: seq<Event>) {
    exists e :: e in events && e.Put? && e.foreign
  }

  // ----------------------------------------------------------------- writers

  class MessageBuilder {
    var records: seq<Record>
    var authoritative: bool

    constructor ()
      ensures records == [] && authoritative
    {
      records := [];
      authoritative := true;
    }
  }

  /** The variable `resolved` that the hook of an AlternateResolver sets. */
  class Flag {
    var resolved: bool

    constructor ()
      ensures !resolved
    {
      resolved := false;
    }
  }

  /** A response writer: the message builder behind any number of hooks. */
  datatype Writer = Builder(builder: MessageBuilder) | Hook(writer: Writer, flag: Flag)
  {
    function Base(): MessageBuilder {
      match this
      case Builder(b) => b
      case Hook(w, _) => w.Base()
    }

    ghost function Flags(): set<Flag> {
      match this
      case Builder(_) => {}
      case Hook(w, f) => w.Flags() + {f}
    }

    /** The flags from the outermost hook to the innermost. */
    ghost function Resolved(): seq<bool>
      reads Flags()
    {
      match this
      case Builder(_) => []
      case Hook(w, f) => [f.resolved] + w.Resolved()
    }
  }

  function Raise(flags: seq<bool>, b: bool): (r: seq<bool>)
    ensures |r| == |flags|
  {
    seq(|flags|, i requires 0 <= i < |flags| => flags[i] || b)
  }

  /** Writer.Add: the outermost hook first, the builder last. */
  method Add(w: Writer, r: Record)
    modifies w.Base(), w.Flags()
    ensures w.Base().records == old(w.Base().records) + [r]
    ensures w.Base().authoritative == old(w.Base().authoritative)
    ensures forall f :: f in w.Flags() ==> f.resolved
    ensures w.Resolved() == Raise(old(w.Resolved()), true)
    decreases w
  {
    match w {
      case Builder(b) => b.records := b.records + [r];
      case Hook(inner, f) =>
        f.resolved := true;
        Add(inner, r);
        AllResolved(inner);
        assert w.Resolved() == [true] + inner.Resolved();
        SameDepth(w);
    }
    AllResolved(w);
    SameDepth(w);
  }

  ghost function Depth(w: Writer): nat {
    match w
    case Builder(_) => 0
    case Hook(inner, _) => 1 + Depth(inner)
  }

  twostate lemma SameDepth(w: Writer)
    ensures |w.Resolved()| == |old(w.Resolved())| == Depth(w)
  {
    if w.Hook? {
      SameDepth(w.writer);
    }
  }

  lemma AllResolved(w: Writer)
    requires forall f :: f in w.Flags() ==> f.resolved
    ensures forall i :: 0 <= i < |w.Resolved()| ==> w.Resolved()[i]
  {
    if w.Hook? {
      AllResolved(w.writer);
    }
  }

  method SetNoAuthoritative(w: Writer)
    modifies w.Base()
    ensures w.Base().records == old(w.Base().records) && !w.Base().authoritative
    ensures w.Resolved() == old(w.Resolved())
    decreases w
  {
    match w {
      case Builder(b) => b.authoritative := false;
      case Hook(inner, _) => SetNoAuthoritative(inner);
    }
  }

  /** The leaf calls that were made. */
  class Log {
    var calls: seq<nat>

    constructor ()
      ensures calls == []
    {
      calls := [];
    }
  }

  // ------------------------------------------------------------ what a tree does

  datatype Trace = Trace(events: seq<Event>, calls: seq<nat>, failed: bool)

  function Then(a: Trace, b: Trace): Trace {
    Trace(a.events + b.events, a.calls + b.calls, b.failed)
  }

  const NOTHING := Trace([], [], false)

  /** What resolving a tree does when `n` leaf calls were made before. */
  function Outcome(t: Tree, env: Environment, n: nat): Trace
    decreases t, 1
  {
    match t
    case Leaf(id) => Trace(env(id, n).events, [id], env(id, n).failed)
    case All(children) => OutcomeAll(children, env, n)
    case First(children) => OutcomeFirst(children, env, n)
  }

  function OutcomeAll(children: seq<Tree>, env: Environment, n: nat): Trace
    decreases children, 0
  {
    if children == [] then NOTHING
    else
      var a := Outcome(children[0], env, n);
      if a.failed then a else Then(a, OutcomeAll(children[1..], env, n + |a.calls|))
  }

  function OutcomeFirst(children: seq<Tree>, env: Environment, n: nat): Trace
    decreases children, 0
  {
    if children == [] then NOTHING
    else
      var a := Outcome(children[0], env, n);
      if a.failed || Writes(a.events) then a else Then(a, OutcomeFirst(children[1..], env, n + |a.calls|))
  }

  /** Everything the response writer and the leaves can notice. */
  datatype View = View(records: seq<Record>, authoritative: bool, flags: seq<bool>, calls: seq<nat>)

  ghost function ViewOf(w: Writer, log: Log): View
    reads w.Base(), w.Flags(), log
  {
    View(w.Base().records, w.Base().authoritative, w.Resolved(), log.calls)
  }

  /** What a trace adds to a view. */
  function Advance(v: View, t: Trace): View {
    View(v.records + Puts(t.events), v.authoritative && NoAuthority !in t.events,
         Raise(v.flags, Writes(t.events)), v.calls + t.calls)
  }

  lemma AdvanceNothing(v: View)
    ensures Advance(v, NOTHING) == v
  {
    assert Raise(v.flags, false) == v.flags;
  }

  lemma AdvanceThen(v: View, a: Trace, b: Trace)
    ensures Advance(Advance(v, a), b) == Advance(v, Then(a, b))
  {
    hide Puts, Writes, WritesForeign, Raise;
    PutsAppend(a.events, b.events);
    WritesAppend(a.events, b.events);
    RaiseTwice(v.flags, Writes(a.events), Writes(b.events));
  }

  lemma RaiseTwice(flags: seq<bool>, a: bool, b: bool)
    ensures Raise(Raise(flags, a), b) == Raise(flags, a || b)
    ensures Raise(flags, false) == flags
  {
  }

  /** A leaf plays its events into the writer. */
  method Play(w: Writer, events: seq<Event>, log: Log)
    modifies w.Base(), w.Flags()
    ensures ViewOf(w, log) == Advance(old(ViewOf(w, log)), Trace(events, [], false))
  {
    hide Puts, Writes, Raise;
    ghost var v := ViewOf(w, log);
    assert events[..0] == [];
    AdvanceNothing(v);
    for i := 0 to |events|
      invariant ViewOf(w, log) == Advance(v, Trace(events[..i], [], false))
    {
      ghost var u, done, one := ViewOf(w, log), Trace(events[..i], [], false), Trace([events[i]], [], false);
      AdvanceThen(v, done, one);
      assert Then(done, one) == Trace(events[..i + 1], [], false);
      AdvanceOne(u, events[i]);
      match events[i] {
        case Put(r, _) => Add(w, r);
        case NoAuthority => SetNoAuthoritative(w);
      }
      assert ViewOf(w, log) == Advance(u, one);
    }
    assert events[..|events|] == events;
  }

  lemma AdvanceOne(v: View, e: Event)
    ensures Advance(v, Trace([e], [], false)) ==
      if e.Put? then v.(records := v.records + [e.record], flags := Raise(v.flags, true))
      else v.(authoritative := false)
  {
    OneEvent(e);
    RaiseTwice(v.flags, false, false);
  }

  lemma OneEvent(e: Event)
    ensures Puts([e]) == if e.Put? then [e.record] else []
    ensures Writes([e]) <==> e.Put?
    ensures NoAuthority in [e] <==> e.NoAuthority?
  {
    assert [e][..0] == [] && Puts([e][..0]) == [];
    assert e in [e];
  }

  lemma WritesAppend(a: seq<Event>, b: seq<Event>)
    ensures Writes(a + b) <==> Writes(a) || Writes(b)
    ensures WritesForeign(a + b) <==> WritesForeign(a) || WritesForeign(b)
  {
    assert forall e :: e in a + b <==> e in a || e in b;
  }

  lemma {:induction false} PutsAppend(a: seq<Event>, b: seq<Event>)
    ensures Puts(a + b) == Puts(a) + Puts(b)
  {
    if b == [] {
      assert a + b == a;
    } else {
      PutsAppend(a, b[..|b| - 1]);
      assert (a + b)[..|a + b| - 1] == a + b[..|b| - 1];
    }
  }

  lemma {:induction false} WritesIffPuts(events: seq<Event>)
    ensures Writes(events) <==> Puts(events) != []
  {
    if events != [] {
      var n := |events| - 1;
      WritesIffPuts(events[..n]);
      assert events == events[..n] + [events[n]];
      WritesAppend(events[..n], [events[n]]);
      assert Writes([events[n]]) <==> events[n].Put? by {
        assert events[n] in [events[n]];
      }
    }
  }

  /** Resolver.Resolve of a tree; the result says whether it ended without an error. */
  method Resolve(t: Tree, w: Writer, env: Environment, log: Log) returns (ok: bool)
    modifies w.Base(), w.Flags(), log
    ensures ViewOf(w, log) == Advance(old(ViewOf(w, log)), Outcome(t, env, |old(log.calls)|))
    ensures |log.calls| == |old(log.calls)| + |Outcome(t, env, |old(log.calls)|).calls|
    ensures ok == !Outcome(t, env, |old(log.calls)|).failed
    decreases t, 1
  {
    match t {
      case Leaf(id) =>
        var output := env(id, |log.calls|);
        ghost var before := ViewOf(w, log);
        log.calls := log.calls + [id];
        Play(w, output.events, log);
        return !output.failed;
      case All(children) =>
        ok := ResolveAll(children, w, env, log);
      case First(children) =>
        ok := ResolveFirst(children, w, env, log);
    }
  }

  /** ResolverSet.Resolve. */
  method ResolveAll(children: seq<Tree>, w: Writer, env: Environment, log: Log) returns (ok: bool)
    modifies w.Base(), w.Flags(), log
    ensures ViewOf(w, log) == Advance(old(ViewOf(w, log)), OutcomeAll(children, env, |old(log.calls)|))
    ensures |log.calls| == |old(log.calls)| + |OutcomeAll(children, env, |old(log.calls)|).calls|
    ensures ok == !OutcomeAll(children, env, |old(log.calls)|).failed
    decreases children, 0
  {
    hide Advance, Outcome, Writes, ViewOf, Writer.Base, Writer.Flags, Writer.Resolved;
    ghost var v, n := ViewOf(w, log), |log.calls|;
    ghost var whole, done := OutcomeAll(children, env, n), NOTHING;
    AdvanceNothing(v);
    assert children[0..] == children;
    for i := 0 to |children|
      invariant ViewOf(w, log) == Advance(v, done) && |log.calls| == n + |done.calls| && !done.failed
      invariant Then(done, OutcomeAll(children[i..], env, n + |done.calls|)) == whole
    {
      ghost var a := Outcome(children[i], env, |log.calls|);
      assert children[i..][0] == children[i] && children[i..][1..] == children[i + 1..];
      ok := Resolve(children[i], w, env, log);
      AdvanceThen(v, done, a);
      if !ok {
        return;
      }
      ThenAssociates(done, a, OutcomeAll(children[i + 1..], env, n + |done.calls| + |a.calls|));
      done := Then(done, a);
    }
    assert children[|children|..] == [];
    ThenNothing(done);
    return true;
  }

  lemma ThenAssociates(a: Trace, b: Trace, c: Trace)
    ensures Then(Then(a, b), c) == Then(a, Then(b, c))
  {
  }

  lemma ThenNothing(a: Trace)
    requires !a.failed
    ensures Then(a, NOTHING) == a
  {
  }

  /** AlternateResolver.Resolve: every child writes through a hook that sets the flag. */
  method ResolveFirst(children: seq<Tree>, w: Writer, env: Environment, log: Log) returns (ok: bool)
    modifies w.Base(), w.Flags(), log
    ensures ViewOf(w, log) == Advance(old(ViewOf(w, log)), OutcomeFirst(children, env, |old(log.calls)|))
    ensures ok == !OutcomeFirst(children, env, |old(log.calls)|).failed
    decreases children, 1
  {
    hide Advance, OutcomeFirst;
    ghost var v := ViewOf(w, log);
    FlagsAllocated(w);
    var resolved := new Flag();
    assert ViewOf(w, log) == v by {
      assert w.Base().records == old(w.Base().records) && log.calls == old(log.calls);
      assert forall f :: f in w.Flags() ==> f != resolved && f.resolved == old(f.resolved);
      assert w.Resolved() == old(w.Resolved());
    }
    ok := UntilResolved(children, w, resolved, env, log);
  }

  /** The loop of AlternateResolver.Resolve. */
  method UntilResolved(children: seq<Tree>, w: Writer, flag: Flag, env: Environment, log: Log) returns (ok: bool)
    requires flag !in w.Flags() && !flag.resolved
    modifies w.Base(), w.Flags(), log, flag
    ensures ViewOf(w, log) == Advance(old(ViewOf(w, log)), OutcomeFirst(children, env, |old(log.calls)|))
    ensures ok == !OutcomeFirst(children, env, |old(log.calls)|).failed
    decreases children, 0
  {
    hide Advance, Outcome, Writes, OutcomeFirst, ViewOf, Writer.Base, Writer.Flags, Writer.Resolved;
    ghost var v, n := ViewOf(w, log), |log.calls|;
    ghost var whole, done := OutcomeFirst(children, env, n), NOTHING;
    AdvanceNothing(v);
    assert children[0..] == children;
    for i := 0 to |children|
      invariant ViewOf(w, log) == Advance(v, done) && |log.calls| == n + |done.calls| && !done.failed
      invariant !flag.resolved
      invariant Then(done, OutcomeFirst(children[i..], env, n + |done.calls|)) == whole
    {
      ghost var a := Outcome(children[i], env, |log.calls|);
      FirstStep(children, env, n, i, done);
      AdvanceThen(v, done, a);
      ok := ResolveHooked(children[i], w, flag, env, log);
      if !ok || flag.resolved {
        return;
      }
      done := Then(done, a);
    }
    assert children[|children|..] == [];
    FirstOfNone(env, n + |done.calls|);
    ThenNothing(done);
    return true;
  }

  /** One child behind the hook: the writer sees what it would see without the hook, and the flag says whether
      the child wrote. */
  method ResolveHooked(t: Tree, w: Writer, flag: Flag, env: Environment, log: Log) returns (ok: bool)
    requires flag !in w.Flags() && !flag.resolved
    modifies w.Base(), w.Flags(), log, flag
    ensures ViewOf(w, log) == Advance(old(ViewOf(w, log)), Outcome(t, env, |old(log.calls)|))
    ensures |log.calls| == |old(log.calls)| + |Outcome(t, env, |old(log.calls)|).calls|
    ensures flag.resolved == Writes(Outcome(t, env, |old(log.calls)|).events)
    ensures ok == !Outcome(t, env, |old(log.calls)|).failed
    decreases t, 2
  {
    hide Advance, Outcome, Writes;
    var hooked := Hook(w, flag);
    ghost var u, a := ViewOf(w, log), Outcome(t, env, |log.calls|);
    HookedView(hooked, log);
    ok := Resolve(t, hooked, env, log);
    HookedStep(hooked, log, u, a);
  }

  lemma FlagsAllocated(w: Writer)
    ensures forall f :: f in w.Flags() ==> allocated(f)
  {
    if w.Hook? {
      FlagsAllocated(w.writer);
    }
  }

  lemma FirstOfNone(env: Environment, n: nat)
    ensures OutcomeFirst([], env, n) == NOTHING
  {
  }

  lemma FirstStep(children: seq<Tree>, env: Environment, n: nat, i: nat, done: Trace)
    requires i < |children|
    ensures var a := Outcome(children[i], env, n + |done.calls|);
            var rest := OutcomeFirst(children[i + 1..], env, n + |Then(done, a).calls|);
            Then(done, OutcomeFirst(children[i..], env, n + |done.calls|)) ==
              if a.failed || Writes(a.events) then Then(done, a) else Then(Then(done, a), rest)
  {
    hide Outcome, Writes;
    var a := Outcome(children[i], env, n + |done.calls|);
    assert children[i..][0] == children[i] && children[i..][1..] == children[i + 1..];
    ThenAssociates(done, a, OutcomeFirst(children[i + 1..], env, n + |done.calls| + |a.calls|));
  }

  /** A hook adds its own flag to the view and hides nothing. */
  lemma HookedView(w: Writer, log: Log)
    requires w.Hook?
    ensures ViewOf(w, log) == Hooked(ViewOf(w.writer, log), w.flag.resolved)
  {
  }

  lemma HookedStep(w: Writer, log: Log, u: View, a: Trace)
    requires w.Hook? && ViewOf(w, log) == Advance(Hooked(u, false), a)
    ensures ViewOf(w.writer, log) == Advance(u, a) && w.flag.resolved == Writes(a.events)
    ensures |log.calls| == |u.calls| + |a.calls|
  {
    hide Writes, Puts;
    HookedView(w, log);
    HookedAdvance(u, a);
    var x, y := ViewOf(w.writer, log).flags, Advance(u, a).flags;
    assert ([w.flag.resolved] + x)[0] == ([Writes(a.events)] + y)[0];
    assert ([w.flag.resolved] + x)[1..] == ([Writes(a.events)] + y)[1..];
  }

  function Hooked(v: View, b: bool): View {
    v.(flags := [b] + v.flags)
  }

  lemma HookedAdvance(v: View, t: Trace)
    ensures Advance(Hooked(v, false), t) == Hooked(Advance(v, t), Writes(t.events))
  {
    assert Raise([false] + v.flags, Writes(t.events)) == [Writes(t.events)] + Raise(v.flags, Writes(t.events));
  }

  // ------------------------------------------------------- what trees mean

  /** The traces of children asked one after the other, the first failing one included. */
  function Traces(children: seq<Tree>, env: Environment, n: nat): (ts: seq<Trace>)
    ensures |ts| <= |children|
    decreases |children|
  {
    if children == [] then []
    else
      var a := Outcome(children[0], env, n);
      if a.failed then [a] else [a] + Traces(children[1..], env, n + |a.calls|)
  }

  function EventsOf(ts: seq<Trace>): (r: seq<seq<Event>>)
    ensures |r| == |ts|
  {
    seq(|ts|, i requires 0 <= i < |ts| => ts[i].events)
  }

  function CallsOf(ts: seq<Trace>): (r: seq<seq<nat>>)
    ensures |r| == |ts|
  {
    seq(|ts|, i requires 0 <= i < |ts| => ts[i].calls)
  }

  lemma FlattenCons<T>(x: seq<T>, xs: seq<seq<T>>)
    ensures Flatten([x] + xs) == x + Flatten(xs)
  {
    FlattenAppend([x], xs);
    assert [x][..0] == [] && Flatten([x][..0]) == [];
    assert Flatten([x]) == x;
  }

  lemma NothingFlat()
    ensures Flatten(EventsOf([])) == [] && Flatten(CallsOf([])) == []
  {
  }

  /** A child that fails ends the list, of either kind: what stands behind it is not asked. */
  lemma {:induction false} FailureEnds(before: seq<Tree>, bad: Tree, behind: seq<Tree>, env: Environment, n: nat)
    requires Outcome(bad, env, n + |OutcomeAll(before, env, n).calls|).failed && !OutcomeAll(before, env, n).failed
    ensures var quiet, end := OutcomeAll(before, env, n), OutcomeAll(before + [bad] + behind, env, n);
            end == Then(quiet, Outcome(bad, env, n + |quiet.calls|)) && end.failed
    decreases |before|
  {
    var list := before + [bad] + behind;
    if before == [] {
      assert list[0] == bad;
      NothingThen(Outcome(bad, env, n));
    } else {
      hide Outcome, OutcomeAll;
      var a := Outcome(before[0], env, n);
      assert list[0] == before[0] && list[1..] == before[1..] + [bad] + behind;
      HeadAll(before, env, n);
      HeadAll(list, env, n);
      if !a.failed {
        var rest := OutcomeAll(before[1..], env, n + |a.calls|);
        FailureEnds(before[1..], bad, behind, env, n + |a.calls|);
        ThenAssociates(a, rest, Outcome(bad, env, n + |a.calls| + |rest.calls|));
      }
    }
  }

  lemma FirstFailureEnds(children: seq<Tree>, env: Environment, n: nat)
    requires children != [] && Outcome(children[0], env, n).failed
    ensures OutcomeFirst(children, env, n) == Outcome(children[0], env, n)
  {
  }

  /** In a run without errors a ResolverSet writes what its children write, one after the other, and every child
      is asked. */
  lemma {:induction false} AllConcatenates(children: seq<Tree>, env: Environment, n: nat)
    requires !OutcomeAll(children, env, n).failed
    ensures |Traces(children, env, n)| == |children|
    ensures OutcomeAll(children, env, n).events == Flatten(EventsOf(Traces(children, env, n)))
    ensures OutcomeAll(children, env, n).calls == Flatten(CallsOf(Traces(children, env, n)))
    decreases |children|
  {
    hide Outcome, Flatten;
    if children == [] {
      NothingFlat();
    } else {
      var a := Outcome(children[0], env, n);
      var ts := Traces(children[1..], env, n + |a.calls|);
      AllConcatenates(children[1..], env, n + |a.calls|);
      FlattenCons(a.events, EventsOf(ts));
      FlattenCons(a.calls, CallsOf(ts));
      assert EventsOf([a] + ts) == [a.events] + EventsOf(ts);
      assert CallsOf([a] + ts) == [a.calls] + CallsOf(ts);
    }
  }

  /** The first child that writes, or the number of children. */
  function FirstWriter(ts: seq<Trace>): (k: nat)
    ensures k <= |ts|
    ensures forall i :: 0 <= i < k ==> !Writes(ts[i].events)
    ensures k < |ts| ==> Writes(ts[k].events)
  {
    if ts == [] || Writes(ts[0].events) then 0 else 1 + FirstWriter(ts[1..])
  }

  /** In a run without errors an AlternateResolver writes what the first child that writes anything writes, and
      the children after it are never asked. */
  lemma {:induction false} FirstTakesFirstWriter(children: seq<Tree>, env: Environment, n: nat)
    requires !OutcomeFirst(children, env, n).failed
    ensures IsFirstWriter(Traces(children, env, n), OutcomeFirst(children, env, n))
    ensures FirstWriter(Traces(children, env, n)) == |Traces(children, env, n)| ==>
      |Traces(children, env, n)| == |children|
    decreases |children|
  {
    hide Outcome, Writes, Puts, IsFirstWriter;
    if children == [] {
      NobodyWrites();
    } else {
      var a := Outcome(children[0], env, n);
      var rest := Traces(children[1..], env, n + |a.calls|);
      if Writes(a.events) {
        FirstWrites(a, if a.failed then [] else rest);
      } else {
        var out := OutcomeFirst(children[1..], env, n + |a.calls|);
        FirstTakesFirstWriter(children[1..], env, n + |a.calls|);
        assert Traces(children, env, n) == [a] + rest;
        FirstKeepsQuiet(a, rest, out);
      }
    }
  }

  /** Of the children asked, `out` holds the records of the first that writes and the calls up to it. */
  predicate IsFirstWriter(ts: seq<Trace>, out: Trace) {
    var k := FirstWriter(ts);
    if k == |ts| then Puts(out.events) == [] && out.calls == Flatten(CallsOf(ts))
    else Puts(out.events) == Puts(ts[k].events) && out.calls == Flatten(CallsOf(ts[..k + 1]))
  }

  lemma NobodyWrites()
    ensures IsFirstWriter([], NOTHING)
  {
  }

  lemma FirstWrites(a: Trace, rest: seq<Trace>)
    requires Writes(a.events)
    ensures IsFirstWriter([a] + rest, a) && FirstWriter([a] + rest) == 0
  {
    var ts := [a] + rest;
    assert ts[0] == a;
    assert CallsOf(ts[..1]) == [a.calls] + [];
    FlattenCons(a.calls, []);
  }

  lemma CallsOfCons(a: Trace, ts: seq<Trace>)
    ensures CallsOf([a] + ts) == [a.calls] + CallsOf(ts)
  {
  }

  lemma FirstKeepsQuiet(a: Trace, rest: seq<Trace>, out: Trace)
    requires !Writes(a.events) && IsFirstWriter(rest, out)
    ensures IsFirstWriter([a] + rest, Then(a, out)) && FirstWriter([a] + rest) == 1 + FirstWriter(rest)
  {
    hide Puts, Writes, Flatten, CallsOf;
    var ts, k := [a] + rest, FirstWriter(rest);
    assert ts[0] == a && ts[1..] == rest;
    WritesIffPuts(a.events);
    PutsAppend(a.events, out.events);
    var asked := if k == |rest| then rest else rest[..k + 1];
    CallsOfCons(a, asked);
    FlattenCons(a.calls, CallsOf(asked));
    if k < |rest| {
      assert ts[..k + 2] == [a] + rest[..k + 1];
    }
  }

  /** What a list of children does is decided by the first that writes or fails; the ones behind never matter. */
  lemma {:induction false} FirstIgnoresRest(front: seq<Tree>, behind: seq<Tree>, env: Environment, n: nat)
    requires var out := OutcomeFirst(front, env, n); out.failed || Writes(out.events)
    ensures OutcomeFirst(front + behind, env, n) == OutcomeFirst(front, env, n)
    decreases |front|
  {
    hide Outcome, Writes;
    if front == [] {
      NothingIsWritten();
    } else {
      var a := Outcome(front[0], env, n);
      assert (front + behind)[0] == front[0] && (front + behind)[1..] == front[1..] + behind;
      if !a.failed && !Writes(a.events) {
        WritesAppend(a.events, OutcomeFirst(front[1..], env, n + |a.calls|).events);
        FirstIgnoresRest(front[1..], behind, env, n + |a.calls|);
      }
    }
  }

  lemma NothingIsWritten()
    ensures !Writes([])
  {
  }

  /** A local resolver anywhere in the list: when it writes and nothing before it did, the reply holds its records and
      no others, and nothing behind it, cache and forwarder included, is called. */
  lemma LocalAnswerShields(before: seq<Tree>, local: Tree, behind: seq<Tree>, env: Environment, n: nat)
    requires var quiet := OutcomeFirst(before, env, n); !quiet.failed && !Writes(quiet.events)
    requires var m := n + |OutcomeFirst(before, env, n).calls|;
             !Outcome(local, env, m).failed && Writes(Outcome(local, env, m).events)
    ensures var quiet, out := OutcomeFirst(before, env, n), OutcomeFirst(before + [local] + behind, env, n);
            var answer := Outcome(local, env, n + |quiet.calls|);
            Puts(out.events) == Puts(answer.events) && out.calls == quiet.calls + answer.calls && !out.failed
  {
    hide Outcome, Writes, Puts;
    FirstThenLast(before, local, env, n);
    var quiet := OutcomeFirst(before, env, n);
    var answer := Outcome(local, env, n + |quiet.calls|);
    WritesAppend(quiet.events, answer.events);
    PutsAppend(quiet.events, answer.events);
    WritesIffPuts(quiet.events);
    FirstIgnoresRest(before + [local], behind, env, n);
  }

  lemma {:induction false} FirstThenLast(before: seq<Tree>, last: Tree, env: Environment, n: nat)
    requires var quiet := OutcomeFirst(before, env, n); !quiet.failed && !Writes(quiet.events)
    requires !Outcome(last, env, n + |OutcomeFirst(before, env, n).calls|).failed
    ensures var quiet := OutcomeFirst(before, env, n);
            OutcomeFirst(before + [last], env, n) == Then(quiet, Outcome(last, env, n + |quiet.calls|))
    decreases |before|
  {
    if before == [] {
      LastOnly(last, env, n);
      assert before + [last] == [last];
      NothingThen(Outcome(last, env, n));
    } else {
      hide Outcome, Writes, OutcomeFirst;
      var a := Outcome(before[0], env, n);
      assert (before + [last])[0] == before[0] && (before + [last])[1..] == before[1..] + [last];
      HeadFirst(before, env, n);
      HeadFirst(before + [last], env, n);
      if !a.failed && !Writes(a.events) {
        var rest := OutcomeFirst(before[1..], env, n + |a.calls|);
        WritesAppend(a.events, rest.events);
        FirstThenLast(before[1..], last, env, n + |a.calls|);
        ThenAssociates(a, rest, Outcome(last, env, n + |a.calls| + |rest.calls|));
      }
    }
  }

  lemma HeadFirst(children: seq<Tree>, env: Environment, n: nat)
    requires children != []
    ensures var a := Outcome(children[0], env, n);
            OutcomeFirst(children, env, n) ==
              if a.failed || Writes(a.events) then a else Then(a, OutcomeFirst(children[1..], env, n + |a.calls|))
  {
    hide Outcome, Writes;
  }

  lemma HeadAll(children: seq<Tree>, env: Environment, n: nat)
    requires children != []
    ensures var a := Outcome(children[0], env, n);
            OutcomeAll(children, env, n) ==
              if a.failed then a else Then(a, OutcomeAll(children[1..], env, n + |a.calls|))
  {
    hide Outcome;
  }

  lemma NothingThen(a: Trace)
    ensures Then(NOTHING, a) == a
  {
  }

  lemma LastOnly(last: Tree, env: Environment, n: nat)
    requires !Outcome(last, env, n).failed
    ensures OutcomeFirst([last], env, n) == Outcome(last, env, n)
    ensures OutcomeFirst([], env, n) == NOTHING
  {
    hide Outcome;
    assert [last][1..] == [];
  }

  // ------------------------------------------------------------------ authority

  /** The outputs leaves make: local data is never announced as foreign, the forwarder drops authority before
      each record, a cache hit drops it once before its records, of which there is at least one. */
  function LocalOutput(rs: seq<Record>): seq<Event> {
    seq(|rs|, i requires 0 <= i < |rs| => Put(rs[i], false))
  }

  function ForwardedOutput(rs: seq<Record>): seq<Event> {
    if rs == [] then [] else ForwardedOutput(rs[..|rs| - 1]) + [NoAuthority, Put(rs[|rs| - 1], true)]
  }

  function HitOutput(rs: seq<Record>): seq<Event> {
    [NoAuthority] + seq(|rs|, i requires 0 <= i < |rs| => Put(rs[i], true))
  }

  /** Authority is dropped exactly when a foreign record is written. */
  predicate IsCandid(events: seq<Event>) {
    NoAuthority in events <==> WritesForeign(events)
  }

  lemma {:induction false} LeafOutputsAreCandid(rs: seq<Record>)
    ensures IsCandid(LocalOutput(rs)) && IsCandid(ForwardedOutput(rs)) && (IsCandid(HitOutput(rs)) <==> rs != [])
  {
    if rs != [] {
      var n := |rs| - 1;
      LeafOutputsAreCandid(rs[..n]);
      var pair := [NoAuthority, Put(rs[n], true)];
      assert pair[0] in pair && pair[1] in pair;
      WritesAppend(ForwardedOutput(rs[..n]), pair);
      assert HitOutput(rs)[1] in HitOutput(rs) && HitOutput(rs)[0] in HitOutput(rs);
    } else {
      assert HitOutput(rs)[0] in HitOutput(rs);
    }
  }

  lemma PutsLast(events: seq<Event>, e: Event)
    ensures Puts(events + [e]) == Puts(events) + (if e.Put? then [e.record] else [])
  {
    assert (events + [e])[..|events|] == events;
  }

  /** Each of the outputs writes its records in their order. */
  lemma {:induction false} LeafOutputsWrite(rs: seq<Record>)
    ensures Puts(LocalOutput(rs)) == rs && Puts(ForwardedOutput(rs)) == rs && Puts(HitOutput(rs)) == rs
  {
    hide Puts;
    if rs == [] {
      NothingPut();
      PutsLast([], NoAuthority);
      assert [] + [NoAuthority] == HitOutput([]) && LocalOutput([]) == [];
    } else {
      var n := |rs| - 1;
      var r, front := rs[n], ForwardedOutput(rs[..n]);
      LeafOutputsWrite(rs[..n]);
      assert rs == rs[..n] + [r];
      assert LocalOutput(rs) == LocalOutput(rs[..n]) + [Put(r, false)];
      PutsLast(LocalOutput(rs[..n]), Put(r, false));
      assert HitOutput(rs) == HitOutput(rs[..n]) + [Put(r, true)];
      PutsLast(HitOutput(rs[..n]), Put(r, true));
      assert ForwardedOutput(rs) == front + [NoAuthority] + [Put(r, true)];
      PutsLast(front, NoAuthority);
      PutsLast(front + [NoAuthority], Put(r, true));
    }
  }

  lemma NothingPut()
    ensures Puts([]) == []
  {
  }

  ghost predicate CandidLeaves(env: Environment) {
    forall id, n :: IsCandid(env(id, n).events)
  }

  lemma CandidAppend(a: seq<Event>, b: seq<Event>)
    requires IsCandid(a) && IsCandid(b)
    ensures IsCandid(a + b)
  {
    WritesAppend(a, b);
  }

  /** However resolvers are nested and however they end, the reply loses its authority exactly when a record from
      a cache hit or from the forwarder was written. */
  lemma {:induction false} TreesAreCandid(t: Tree, env: Environment, n: nat)
    requires CandidLeaves(env)
    ensures IsCandid(Outcome(t, env, n).events)
    decreases t, 1
  {
    match t {
      case Leaf(id) =>
      case All(children) => ListsAreCandid(children, env, n);
      case First(children) => ListsAreCandid(children, env, n);
    }
  }

  lemma {:induction false} ListsAreCandid(children: seq<Tree>, env: Environment, n: nat)
    requires CandidLeaves(env)
    ensures IsCandid(OutcomeAll(children, env, n).events) && IsCandid(OutcomeFirst(children, env, n).events)
    decreases children, 0
  {
    if children != [] {
      var a := Outcome(children[0], env, n);
      TreesAreCandid(children[0], env, n);
      ListsAreCandid(children[1..], env, n + |a.calls|);
      CandidAppend(a.events, OutcomeAll(children[1..], env, n + |a.calls|).events);
      CandidAppend(a.events, OutcomeFirst(children[1..], env, n + |a.calls|).events);
    }
  }

  /** A question answered through any tree: the records of the reply, and whether it is authoritative. */
  method Answer(t: Tree, env: Environment) returns (records: seq<Record>, authoritative: bool, ok: bool)
    requires CandidLeaves(env)
    ensures records == Puts(Outcome(t, env, 0).events) && ok == !Outcome(t, env, 0).failed
    ensures authoritative <==> !WritesForeign(Outcome(t, env, 0).events)
  {
    var builder := new MessageBuilder();
    var log := new Log();
    ok := Resolve(t, Builder(builder), env, log);
    TreesAreCandid(t, env, 0);
    return builder.records, builder.authoritative, ok;
  }
}
