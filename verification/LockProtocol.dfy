/** The lock and the wake-up channel of LocalCache, before Close: any number of resolving goroutines and the
    manager goroutine share one mutex, and every record added to the cache is announced on a channel that holds
    at most 100 announcements. */
module LockProtocol {
  import opened Strings

  const CAPACITY: nat := 100

  /** Where a resolving goroutine is; `left` counts the records its upstream answer still has to add. */
  datatype Resolver =
    | Idle
    | Waiting(left: nat)     // in Resolve, before mutex.Lock
    | Deciding(left: nat)    // holds the mutex, looks for the entry
    | Working(left: nat)     // holds the mutex, the upstream resolver runs
    | Sending(left: nat)     // holds the mutex, inside add, before the send

  /** Where the manager is; each round sweeps twice before it waits. */
  datatype Manager =
    | Wanting(again: bool)   // in manageTask, before mutex.Lock
    | Holding(again: bool)   // holds the mutex, before the sweep
    | Leaving(again: bool)   // holds the mutex, after the sweep
    | Selecting              // in select

  datatype Actor = TheManager | Goroutine(i: nat)

  /** `version` counts the changes to the entries. */
  datatype State = State(
    mutex: Option<Actor>, pending: nat, version: nat, manager: Manager, resolvers: seq<Resolver>)

  datatype Action =
    | Start(i: nat, records: nat)    // a question that will add this many records (none on a hit)
    | Lock(i: nat)
    | Decide(i: nat, stale: bool)    // a stale entry is deleted
    | AddEntry(i: nat)
    | Send(i: nat)
    | Unlock(i: nat)
    | ManagerLock
    | Sweep(changed: bool)
    | ManagerUnlock
    | Timer
    | Receive

  function ActorOf(a: Action): Actor {
    match a
    case Start(i, _) => Goroutine(i)
    case Lock(i) => Goroutine(i)
    case Decide(i, _) => Goroutine(i)
    case AddEntry(i) => Goroutine(i)
    case Send(i) => Goroutine(i)
    case Unlock(i) => Goroutine(i)
    case _ => TheManager
  }

  /** What each goroutine can do is decided by where it is, by the mutex when it locks, and by the channel when it
      sends or receives; nobody looks at who holds the mutex otherwise. */
  predicate Enabled(s: State, a: Action) {
    match a
    case Start(i, _) => i < |s.resolvers| && s.resolvers[i].Idle?
    case Lock(i) => i < |s.resolvers| && s.resolvers[i].Waiting? && s.mutex.None?
    case Decide(i, _) => i < |s.resolvers| && s.resolvers[i].Deciding?
    case AddEntry(i) => i < |s.resolvers| && s.resolvers[i].Working? && s.resolvers[i].left > 0
    case Send(i) => i < |s.resolvers| && s.resolvers[i].Sending? && s.pending < CAPACITY
    case Unlock(i) => i < |s.resolvers| && s.resolvers[i].Working? && s.resolvers[i].left == 0
    case ManagerLock => s.manager.Wanting? && s.mutex.None?
    case Sweep(_) => s.manager.Holding?
    case ManagerUnlock => s.manager.Leaving?
    case Timer => s.manager.Selecting?
    case Receive => s.manager.Selecting? && s.pending > 0
  }

  function Apply(s: State, a: Action): State
    requires Enabled(s, a)
  {
    match a
    case Start(i, records) => s.(resolvers := s.resolvers[i := Waiting(records)])
    case Lock(i) => s.(mutex := Some(Goroutine(i)), resolvers := s.resolvers[i := Deciding(s.resolvers[i].left)])
    case Decide(i, stale) =>
      s.(version := if stale then s.version + 1 else s.version,
         resolvers := s.resolvers[i := Working(s.resolvers[i].left)])
    case AddEntry(i) =>
      s.(version := s.version + 1, resolvers := s.resolvers[i := Sending(s.resolvers[i].left - 1)])
    case Send(i) => s.(pending := s.pending + 1, resolvers := s.resolvers[i := Working(s.resolvers[i].left)])
    case Unlock(i) => s.(mutex := None, resolvers := s.resolvers[i := Idle])
    case ManagerLock => s.(mutex := Some(TheManager), manager := Holding(s.manager.again))
    case Sweep(changed) =>
      s.(version := if changed then s.version + 1 else s.version, manager := Leaving(s.manager.again))
    case ManagerUnlock => s.(mutex := None, manager := if s.manager.again then Selecting else Wanting(true))
    case Timer => s.(manager := Wanting(false))
    case Receive => s.(pending := s.pending - 1, manager := Wanting(false))
  }

  function Initial(n: nat): State {
    State(None, 0, 0, Wanting(false), seq(n, _ => Idle))
  }

  // -------------------------------------------------------------------- runs

  predicate IsRun(s: State, actions: seq<Action>)
    decreases |actions|
  {
    actions == [] || (Enabled(s, actions[0]) && IsRun(Apply(s, actions[0]), actions[1..]))
  }

  function Exec(s: State, actions: seq<Action>): State
    requires IsRun(s, actions)
    decreases |actions|
  {
    if actions == [] then s else Exec(Apply(s, actions[0]), actions[1..])
  }

  lemma {:induction false} ExecAppend(s: State, x: seq<Action>, y: seq<Action>)
    requires IsRun(s, x) && IsRun(Exec(s, x), y)
    ensures IsRun(s, x + y) && Exec(s, x + y) == Exec(Exec(s, x), y)
    decreases |x|
  {
    if x == [] {
      assert x + y == y;
    } else {
      ExecAppend(Apply(s, x[0]), x[1..], y);
      assert (x + y)[0] == x[0] && (x + y)[1..] == x[1..] + y;
    }
  }

  // --------------------------------------------------------------- invariant

  predicate Inside(r: Resolver) {
    r.Deciding? || r.Working? || r.Sending?
  }

  predicate ManagerInside(m: Manager) {
    m.Holding? || m.Leaving?
  }

  /** Whoever is between Lock and Unlock is the one the mutex names, and the channel is within its bound. */
  predicate Inv(s: State) {
    s.pending <= CAPACITY &&
    (forall i :: 0 <= i < |s.resolvers| ==> (Inside(s.resolvers[i]) <==> s.mutex == Some(Goroutine(i)))) &&
    (ManagerInside(s.manager) <==> s.mutex == Some(TheManager)) &&
    (s.mutex.Some? && s.mutex.value.Goroutine? ==> s.mutex.value.i < |s.resolvers|)
  }

  lemma InvStep(s: State, a: Action)
    requires Inv(s) && Enabled(s, a)
    ensures Inv(Apply(s, a))
  {
  }

  lemma {:induction false} InvRun(s: State, actions: seq<Action>)
    requires Inv(s) && IsRun(s, actions)
    ensures Inv(Exec(s, actions))
    decreases |actions|
  {
    if actions != [] {
      InvStep(s, actions[0]);
      InvRun(Apply(s, actions[0]), actions[1..]);
    }
  }

  /** Over all interleavings: the channel never holds more than 100 announcements, at most one goroutine is
      inside the mutex, and a step that changes the entries is a step of the goroutine that holds it. */
  lemma EntriesChangeUnderMutex(n: nat, actions: seq<Action>, a: Action)
    requires IsRun(Initial(n), actions) && Enabled(Exec(Initial(n), actions), a)
    ensures var s := Exec(Initial(n), actions);
            s.pending <= 100 &&
            (forall i, j :: 0 <= i < j < |s.resolvers| ==> !(Inside(s.resolvers[i]) && Inside(s.resolvers[j]))) &&
            (forall i :: 0 <= i < |s.resolvers| ==> !(Inside(s.resolvers[i]) && ManagerInside(s.manager))) &&
            (Apply(s, a).version != s.version ==>
               s.mutex == Some(ActorOf(a)) && Apply(s, a).mutex == Some(ActorOf(a)))
  {
    InvRun(Initial(n), actions);
  }

  // ---------------------------------------------------------------- deadlock

  /** No goroutine in the middle of something can take a step; only new questions can arrive. */
  ghost predicate Stuck(s: State) {
    forall a :: Enabled(s, a) ==> a.Start?
  }

  /** The channel is full, a resolver holds the mutex inside add, and the manager waits for the mutex. */
  predicate Deadlocked(s: State) {
    s.pending == CAPACITY && s.manager.Wanting? && s.mutex.Some? && s.mutex.value.Goroutine? &&
    s.mutex.value.i < |s.resolvers| && s.resolvers[s.mutex.value.i].Sending?
  }

  /** A step that is possible whenever the state is not deadlocked. */
  function SomeStep(s: State): Action {
    match s.manager
    case Selecting => Timer
    case Holding(_) => Sweep(false)
    case Leaving(_) => ManagerUnlock
    case Wanting(_) =>
      if s.mutex.None? || s.mutex.value.TheManager? || s.mutex.value.i >= |s.resolvers| then ManagerLock
      else
        var i := s.mutex.value.i;
        match s.resolvers[i]
        case Deciding(_) => Decide(i, false)
        case Working(left) => if left > 0 then AddEntry(i) else Unlock(i)
        case _ => Send(i)
  }

  /** A reachable state is stuck exactly when it is deadlocked in that one way. */
  lemma StuckIffDeadlocked(n: nat, actions: seq<Action>)
    requires IsRun(Initial(n), actions)
    ensures Stuck(Exec(Initial(n), actions)) <==> Deadlocked(Exec(Initial(n), actions))
  {
    InvRun(Initial(n), actions);
    var s := Exec(Initial(n), actions);
    if !Deadlocked(s) {
      assert Enabled(s, SomeStep(s)) && !SomeStep(s).Start?;
    }
  }

  /** Below the bound somebody can always go on. */
  lemma RoomMeansProgress(n: nat, actions: seq<Action>)
    requires IsRun(Initial(n), actions) && Exec(Initial(n), actions).pending < 100
    ensures var s := Exec(Initial(n), actions); Enabled(s, SomeStep(s)) && !SomeStep(s).Start?
  {
    InvRun(Initial(n), actions);
  }

  /** Once stuck, always stuck: new questions only queue up behind the mutex. */
  lemma {:induction false} StuckForever(s: State, actions: seq<Action>)
    requires Inv(s) && Deadlocked(s) && IsRun(s, actions)
    ensures Deadlocked(Exec(s, actions)) && Exec(s, actions).mutex == s.mutex
    ensures forall a :: a in actions ==> a.Start?
    decreases |actions|
  {
    if actions != [] {
      assert actions[0].Start?;
      InvStep(s, actions[0]);
      StuckForever(Apply(s, actions[0]), actions[1..]);
      assert actions == [actions[0]] + actions[1..];
    }
  }

  // ------------------------------------------------- how many records it takes

  /** The records that a run's questions ask to add. */
  function Demand(actions: seq<Action>): nat {
    if actions == [] then 0
    else (if actions[0].Start? then actions[0].records else 0) + Demand(actions[1..])
  }

  function Remaining(r: Resolver): nat {
    match r
    case Idle => 0
    case Sending(left) => left + 1
    case Waiting(left) => left
    case Deciding(left) => left
    case Working(left) => left
  }

  function RemainingAll(rs: seq<Resolver>): nat {
    if rs == [] then 0 else Remaining(rs[0]) + RemainingAll(rs[1..])
  }

  lemma {:induction false} RemainingUpdate(rs: seq<Resolver>, i: nat, r: Resolver)
    requires i < |rs|
    ensures RemainingAll(rs[i := r]) == RemainingAll(rs) - Remaining(rs[i]) + Remaining(r)
    ensures Remaining(rs[i]) <= RemainingAll(rs)
  {
    if i == 0 {
      assert rs[0 := r][1..] == rs[1..];
    } else {
      RemainingUpdate(rs[1..], i - 1, r);
      assert rs[i := r][1..] == rs[1..][i - 1 := r];
    }
  }

  /** Announcements and records still to be added; only a new question makes it grow. */
  function Outstanding(s: State): nat {
    s.pending + RemainingAll(s.resolvers)
  }

  lemma OutstandingStep(s: State, a: Action)
    requires Enabled(s, a)
    ensures Outstanding(Apply(s, a)) <= Outstanding(s) + Demand([a])
  {
    assert [a][1..] == [];
    assert Demand([a]) == if a.Start? then a.records else 0;
    match a {
      case Start(i, records) => RemainingUpdate(s.resolvers, i, Waiting(records));
      case Lock(i) => RemainingUpdate(s.resolvers, i, Deciding(s.resolvers[i].left));
      case Decide(i, _) => RemainingUpdate(s.resolvers, i, Working(s.resolvers[i].left));
      case AddEntry(i) => RemainingUpdate(s.resolvers, i, Sending(s.resolvers[i].left - 1));
      case Send(i) => RemainingUpdate(s.resolvers, i, Working(s.resolvers[i].left));
      case Unlock(i) => RemainingUpdate(s.resolvers, i, Idle);
      case _ =>
    }
  }

  lemma {:induction false} OutstandingRun(s: State, actions: seq<Action>)
    requires IsRun(s, actions)
    ensures Outstanding(Exec(s, actions)) <= Outstanding(s) + Demand(actions)
    decreases |actions|
  {
    if actions != [] {
      OutstandingStep(s, actions[0]);
      assert [actions[0]][1..] == [];
      OutstandingRun(Apply(s, actions[0]), actions[1..]);
    }
  }

  lemma {:induction false} NothingRemaining(n: nat)
    ensures RemainingAll(seq(n, _ => Idle)) == 0
  {
    if n > 0 {
      var rs: seq<Resolver> := seq(n, _ => Idle);
      NothingRemaining(n - 1);
      assert rs[1..] == seq(n - 1, _ => Idle);
    }
  }

  /** As long as all questions together ask to add no more than 100 records, no interleaving gets stuck. */
  lemma NoDeadlockWithinCapacity(n: nat, actions: seq<Action>)
    requires IsRun(Initial(n), actions) && Demand(actions) <= 100
    ensures !Stuck(Exec(Initial(n), actions))
  {
    StuckIffDeadlocked(n, actions);
    OutstandingRun(Initial(n), actions);
    NothingRemaining(n);
    var s := Exec(Initial(n), actions);
    if Deadlocked(s) {
      RemainingUpdate(s.resolvers, s.mutex.value.i, Idle);
    }
  }

  /** The questions of a run, each by the records it asks to add. */
  function Asked(actions: seq<Action>): seq<nat> {
    if actions == [] then []
    else (if actions[0].Start? then [actions[0].records] else []) + Asked(actions[1..])
  }

  function Sum(sizes: seq<nat>): nat {
    if sizes == [] then 0 else sizes[0] + Sum(sizes[1..])
  }

  lemma {:induction false} DemandIsSum(actions: seq<Action>)
    ensures Demand(actions) == Sum(Asked(actions))
  {
    if actions != [] {
      DemandIsSum(actions[1..]);
      if actions[0].Start? {
        assert Asked(actions)[1..] == Asked(actions[1..]);
      } else {
        assert Asked(actions) == Asked(actions[1..]);
      }
    }
  }

  lemma {:induction false} AskedAppend(x: seq<Action>, y: seq<Action>)
    ensures Asked(x + y) == Asked(x) + Asked(y)
  {
    if x == [] {
      assert x + y == y;
    } else {
      var head := if x[0].Start? then [x[0].records] else [];
      var rest := x[1..] + y;
      assert (x + y)[1..] == rest && (x + y)[0] == x[0];
      assert Asked(x + y) == head + Asked(rest) && Asked(x) == head + Asked(x[1..]);
      hide Asked;
      AskedAppend(x[1..], y);
    }
  }

  /** A step and what follows it. */
  lemma RunFrom(s: State, a: Action, rest: seq<Action>)
    requires Enabled(s, a) && IsRun(Apply(s, a), rest)
    ensures IsRun(s, [a] + rest) && Exec(s, [a] + rest) == Exec(Apply(s, a), rest)
    ensures Asked([a] + rest) == (if a.Start? then [a.records] else []) + Asked(rest)
  {
    assert ([a] + rest)[1..] == rest;
  }

  /** A resolver that adds records while the manager waits for the mutex fills the channel. */
  lemma {:induction false} AddingFills(s: State, i: nat, k: nat, left: nat) returns (actions: seq<Action>)
    requires i < |s.resolvers| && s.resolvers[i] == Working(left) && k <= left && s.pending + k <= CAPACITY
    ensures IsRun(s, actions) && Asked(actions) == []
    ensures Exec(s, actions) ==
      s.(pending := s.pending + k, version := s.version + k, resolvers := s.resolvers[i := Working(left - k)])
    decreases k
  {
    if k == 0 {
      actions := [];
      assert s.resolvers[i := Working(left)] == s.resolvers;
    } else {
      var t := Apply(s, AddEntry(i));
      var u := Apply(t, Send(i));
      assert u.resolvers == s.resolvers[i := Working(left - 1)];
      var rest := AddingFills(u, i, k - 1, left - 1);
      RunFrom(t, Send(i), rest);
      RunFrom(s, AddEntry(i), [Send(i)] + rest);
      actions := [AddEntry(i)] + ([Send(i)] + rest);
      assert u.resolvers[i := Working(left - k)] == s.resolvers[i := Working(left - k)];
    }
  }

  /** The first questions are answered, the others wait, and so does the manager. */
  predicate Served(s: State, sizes: seq<nat>, n: nat) {
    n <= |sizes| && s.mutex.None? && s.manager.Wanting? && s.pending <= CAPACITY && |s.resolvers| == |sizes| &&
    (forall i :: 0 <= i < n ==> s.resolvers[i] == Idle) &&
    (forall i :: n <= i < |sizes| ==> s.resolvers[i] == Waiting(sizes[i]))
  }

  /** A question that finds the mutex free takes it and goes to its upstream. */
  lemma Opening(s: State, i: nat, left: nat) returns (t: State)
    requires i < |s.resolvers| && s.resolvers[i] == Waiting(left) && s.mutex.None?
    ensures t == s.(mutex := Some(Goroutine(i)), resolvers := s.resolvers[i := Working(left)])
    ensures forall rest :: IsRun(t, rest) ==>
              var actions := [Lock(i)] + ([Decide(i, false)] + rest);
              IsRun(s, actions) && Exec(s, actions) == Exec(t, rest) && Asked(actions) == Asked(rest)
  {
    var u := Apply(s, Lock(i));
    t := Apply(u, Decide(i, false));
    assert t.resolvers == s.resolvers[i := Working(left)];
    forall rest | IsRun(t, rest)
      ensures var actions := [Lock(i)] + ([Decide(i, false)] + rest);
              IsRun(s, actions) && Exec(s, actions) == Exec(t, rest) && Asked(actions) == Asked(rest)
    {
      RunFrom(u, Decide(i, false), rest);
      RunFrom(s, Lock(i), [Decide(i, false)] + rest);
    }
  }

  /** Waiting questions that ask for more than the channel has room for can fill it and stop. */
  lemma {:induction false} WaitingStop(s: State, sizes: seq<nat>, n: nat) returns (actions: seq<Action>)
    requires Served(s, sizes, n) && s.pending + Sum(sizes[n..]) > CAPACITY
    ensures IsRun(s, actions) && Asked(actions) == [] && Deadlocked(Exec(s, actions))
    decreases |sizes| - n
  {
    assert n < |sizes| && sizes[n..][1..] == sizes[n + 1..];
    var size := sizes[n];
    var t := Opening(s, n, size);
    var room := CAPACITY - s.pending;
    var k := if size <= room then size else room;
    var adding := AddingFills(t, n, k, size);
    var u := Exec(t, adding);
    var rest: seq<Action>;
    if size <= room {
      var v := Apply(u, Unlock(n));
      var later := WaitingStop(v, sizes, n + 1);
      RunFrom(u, Unlock(n), later);
      rest := [Unlock(n)] + later;
    } else {
      RunFrom(u, AddEntry(n), []);
      rest := [AddEntry(n)] + [];
    }
    ExecAppend(t, adding, rest);
    AskedAppend(adding, rest);
    actions := [Lock(n)] + ([Decide(n, false)] + (adding + rest));
  }

  /** All questions arrive before the first is answered. */
  lemma {:induction false} AllArrive(s: State, sizes: seq<nat>, n: nat) returns (actions: seq<Action>)
    requires n <= |sizes| == |s.resolvers| && s.mutex.None? && s.manager.Wanting? && s.pending <= CAPACITY
    requires forall i :: 0 <= i < n ==> s.resolvers[i] == Waiting(sizes[i])
    requires forall i :: n <= i < |sizes| ==> s.resolvers[i] == Idle
    ensures IsRun(s, actions) && Asked(actions) == sizes[n..]
    ensures Served(Exec(s, actions), sizes, 0) && Exec(s, actions).pending == s.pending
    decreases |sizes| - n
  {
    if n == |sizes| {
      actions := [];
    } else {
      var t := Apply(s, Start(n, sizes[n]));
      var rest := AllArrive(t, sizes, n + 1);
      RunFrom(s, Start(n, sizes[n]), rest);
      actions := [Start(n, sizes[n])] + rest;
    }
  }

  ghost predicate CanStop(sizes: seq<nat>) {
    exists actions :: IsRun(Initial(|sizes|), actions) && Asked(actions) == sizes &&
                      Stuck(Exec(Initial(|sizes|), actions))
  }

  /** Which questions can stop the cache for good, however many they are and however little each asks to add: exactly
      those that ask for more than 100 records together. */
  lemma DeadlockThreshold(sizes: seq<nat>)
    ensures CanStop(sizes) <==> Sum(sizes) > 100
  {
    var s := Initial(|sizes|);
    if Sum(sizes) > CAPACITY {
      var arriving := AllArrive(s, sizes, 0);
      assert sizes[0..] == sizes;
      var stopping := WaitingStop(Exec(s, arriving), sizes, 0);
      ExecAppend(s, arriving, stopping);
      AskedAppend(arriving, stopping);
      StuckIffDeadlocked(|sizes|, arriving + stopping);
    }
    forall actions | IsRun(s, actions) && Asked(actions) == sizes && Stuck(Exec(s, actions))
      ensures Sum(sizes) > CAPACITY
    {
      DemandIsSum(actions);
      if Demand(actions) <= CAPACITY {
        NoDeadlockWithinCapacity(|sizes|, actions);
      }
    }
  }
}
