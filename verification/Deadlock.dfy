/** Any number of server instances, each with its FIFO queue of units of work, over one table of
    advisory locks that a transaction holds until it commits or rolls back. */
module Deadlock {
  import opened LockOrder

  datatype Phase = Queued | Active(held: nat) | Finished

  /** A unit of work: its instance, and the locks it asks for, in order, over all its `lockTargets` calls. */
  datatype Tx = Tx(instance: nat, plan: seq<Key>, phase: Phase)

  type State = seq<Tx>

  /** Each newly requested lock comes after every lock asked for before it, or is held already. */
  predicate Ordered(plan: seq<Key>) {
    forall j :: 0 <= j < |plan| ==> plan[j] in plan[..j] || forall i :: 0 <= i < j ==> Less(plan[i], plan[j])
  }

  /** Transaction t holds lock k. */
  predicate Holds(s: State, t: nat, k: Key)
    requires t < |s|
  {
    s[t].phase.Active? && s[t].phase.held <= |s[t].plan| && k in s[t].plan[..s[t].phase.held]
  }

  predicate Asking(s: State, t: nat)
    requires t < |s|
  {
    s[t].phase.Active? && s[t].phase.held < |s[t].plan|
  }

  function Wanted(s: State, t: nat): Key
    requires t < |s| && Asking(s, t)
  {
    s[t].plan[s[t].phase.held]
  }

  /** Some other transaction of the instance is ahead in the queue and not finished. */
  predicate Behind(s: State, t: nat, u: nat)
    requires t < |s| && u < |s|
  {
    u < t && s[u].instance == s[t].instance && !s[u].phase.Finished?
  }

  /** The wait-for graph: a queued unit waits for those ahead of it, an active one for a lock's holder. */
  predicate WaitsFor(s: State, t: nat, u: nat)
    requires t < |s| && u < |s|
  {
    || (s[t].phase.Queued? && Behind(s, t, u))
    || (Asking(s, t) && u != t && Holds(s, u, Wanted(s, t)))
  }

  datatype Event = Submit(tx: Tx) | Start(t: nat) | Acquire(t: nat) | Release(t: nat) | Abort(t: nat)

  ghost predicate Enabled(s: State, e: Event) {
    match e
    case Submit(tx) => tx.phase.Queued?
    case Start(t) => t < |s| && s[t].phase.Queued? && forall u :: 0 <= u < |s| ==> !WaitsFor(s, t, u)
    case Acquire(t) => t < |s| && Asking(s, t) && forall u :: 0 <= u < |s| ==> !WaitsFor(s, t, u)
    case Release(t) => t < |s| && s[t].phase.Active? && s[t].phase.held == |s[t].plan|
    case Abort(t) => t < |s| && s[t].phase.Active?
  }

  ghost function Apply(s: State, e: Event): State
    requires Enabled(s, e)
  {
    match e
    case Submit(tx) => s + [tx]
    case Start(t) => s[t := s[t].(phase := Active(0))]
    case Acquire(t) => s[t := s[t].(phase := Active(s[t].phase.held + 1))]
    case Release(t) => s[t := s[t].(phase := Finished)]
    case Abort(t) => s[t := s[t].(phase := Finished)]
  }

  /** The state after `events`; an event that is not enabled does nothing. */
  ghost function Run(events: seq<Event>): State
    decreases |events|
  {
    if events == [] then []
    else
      var s := Run(events[..|events| - 1]);
      if Enabled(s, events[|events| - 1]) then Apply(s, events[|events| - 1]) else s
  }

  /** Nobody holds more than its plan, and no lock has two holders. */
  ghost predicate Inv(s: State) {
    && (forall t :: 0 <= t < |s| && s[t].phase.Active? ==> s[t].phase.held <= |s[t].plan|)
    && (forall t, u, k :: 0 <= t < |s| && 0 <= u < |s| && Holds(s, t, k) && Holds(s, u, k) ==> t == u)
  }

  lemma InvStep(s: State, e: Event)
    requires Inv(s) && Enabled(s, e)
    ensures Inv(Apply(s, e))
  {
    var s' := Apply(s, e);
    if e.Acquire? {
      forall v | 0 <= v < |s| && v != e.t
        ensures !Holds(s, v, Wanted(s, e.t))
      {
        assert !WaitsFor(s, e.t, v);
      }
    }
    forall t, u, k | 0 <= t < |s'| && 0 <= u < |s'| && Holds(s', t, k) && Holds(s', u, k)
      ensures t == u
    {
      if e.Acquire? {
        AcquireHolds(s, e.t, t, k);
        AcquireHolds(s, e.t, u, k);
      } else {
        assert t < |s| && u < |s| && Holds(s, t, k) && Holds(s, u, k);
      }
    }
  }

  lemma AcquireHolds(s: State, a: nat, t: nat, k: Key)
    requires a < |s| && t < |s| && Asking(s, a)
    requires Holds(s[a := s[a].(phase := Active(s[a].phase.held + 1))], t, k)
    ensures Holds(s, t, k) || (t == a && k == Wanted(s, a))
  {
    var h := s[a].phase.held;
    assert s[a].plan[..h + 1] == s[a].plan[..h] + [s[a].plan[h]];
  }

  lemma {:induction false} Invariant(events: seq<Event>)
    ensures Inv(Run(events))
    decreases |events|
  {
    if events != [] {
      Invariant(events[..|events| - 1]);
      var s := Run(events[..|events| - 1]);
      if Enabled(s, events[|events| - 1]) {
        InvStep(s, events[|events| - 1]);
      }
    }
  }

  /** At no time do two transactions hold one lock: requests that share a lock are served one by one. */
  lemma MutualExclusion(events: seq<Event>, t: nat, u: nat, k: Key)
    requires t < |Run(events)| && u < |Run(events)|
    requires Holds(Run(events), t, k) && Holds(Run(events), u, k)
    ensures t == u
  {
    Invariant(events);
  }

  // ── Acyclic waiting ──

  ghost predicate AllOrdered(s: State) {
    forall t :: 0 <= t < |s| ==> Ordered(s[t].plan)
  }

  /** A strict order that contains the wait-for graph: queued before active, a queue by position, active
      transactions by the lock they ask for, those that ask for none last. */
  predicate Before(s: State, t: nat, u: nat)
    requires t < |s| && u < |s|
  {
    || (s[t].phase.Queued? && s[u].phase.Queued? && u < t)
    || (s[t].phase.Queued? && s[u].phase.Active?)
    || (Asking(s, t) && s[u].phase.Active? && (Asking(s, u) ==> Less(Wanted(s, t), Wanted(s, u))))
  }

  /** What a transaction asks for lies beyond all it holds, unless nobody else can hold it. */
  lemma WantedIsBeyondHeld(s: State, u: nat, k: Key)
    requires Inv(s) && AllOrdered(s) && u < |s| && Asking(s, u) && Holds(s, u, k)
    ensures Less(k, Wanted(s, u)) || Holds(s, u, Wanted(s, u))
  {
    var h := s[u].phase.held;
    var i :| 0 <= i < h && s[u].plan[i] == k;
    assert Ordered(s[u].plan);
  }

  /** Nobody waits for a lock while holding it. */
  ghost predicate Blocked(s: State, t: nat)
    requires t < |s|
  {
    exists u :: 0 <= u < |s| && WaitsFor(s, t, u)
  }

  lemma WaitingIsBefore(s: State, t: nat, u: nat)
    requires Inv(s) && AllOrdered(s) && t < |s| && u < |s|
    requires WaitsFor(s, t, u) && (Asking(s, u) ==> Blocked(s, u))
    ensures Before(s, t, u)
  {
    if Asking(s, t) && Asking(s, u) {
      WantedIsBeyondHeld(s, u, Wanted(s, t));
      var v :| 0 <= v < |s| && WaitsFor(s, u, v);
      assert Holds(s, v, Wanted(s, u)) && v != u;
    }
  }

  ghost predicate IsPath(s: State, path: seq<nat>) {
    && |path| >= 2
    && (forall i :: 0 <= i < |path| ==> path[i] < |s|)
    && (forall i :: 0 <= i < |path| - 1 ==> WaitsFor(s, path[i], path[i + 1]))
  }

  lemma {:induction false} PathIsBefore(s: State, path: seq<nat>)
    requires Inv(s) && AllOrdered(s) && IsPath(s, path)
    requires Asking(s, path[|path| - 1]) ==> Blocked(s, path[|path| - 1])
    ensures Before(s, path[0], path[|path| - 1])
    decreases |path|
  {
    if |path| == 2 {
      WaitingIsBefore(s, path[0], path[1]);
    } else {
      assert Blocked(s, path[1]) by {
        assert WaitsFor(s, path[1], path[2]);
      }
      WaitingIsBefore(s, path[0], path[1]);
      assert IsPath(s, path[1..]);
      PathIsBefore(s, path[1..]);
    }
  }

  /** In every reachable state the wait-for graph has no cycle. */
  lemma Acyclic(events: seq<Event>, path: seq<nat>)
    requires AllOrdered(Run(events)) && IsPath(Run(events), path)
    ensures path[0] != path[|path| - 1]
  {
    var s := Run(events);
    Invariant(events);
    if path[0] == path[|path| - 1] {
      assert WaitsFor(s, path[0], path[1]);
      assert Blocked(s, path[|path| - 1]);
      PathIsBefore(s, path);
    }
  }

  // ── Progress ──

  /** Some event other than an abort can happen to t. */
  ghost predicate CanStep(s: State, t: nat) {
    Enabled(s, Start(t)) || Enabled(s, Acquire(t)) || Enabled(s, Release(t))
  }

  /** The locks of all plans that lie beyond what an asking transaction wants; a bound on how far the
      waiting can still reach. */
  ghost function Beyond(s: State, t: nat): set<Key>
    requires t < |s|
  {
    set u, k | 0 <= u < |s| && k in s[u].plan && Asking(s, t) && Less(Wanted(s, t), k) :: k
  }

  lemma BeyondShrinks(s: State, t: nat, u: nat)
    requires t < |s| && u < |s| && Asking(s, t) && Asking(s, u) && Less(Wanted(s, t), Wanted(s, u))
    ensures |Beyond(s, u)| < |Beyond(s, t)|
  {
    assert Wanted(s, u) in s[u].plan;
    assert Wanted(s, u) in Beyond(s, t) && Wanted(s, u) !in Beyond(s, u);
    forall k | k in Beyond(s, u)
      ensures k in Beyond(s, t)
    {
      assert Less(Wanted(s, t), k);
    }
    Smaller(Beyond(s, u), Beyond(s, t));
  }

  lemma {:induction false} FindStep(s: State, t: nat) returns (k: nat)
    requires Inv(s) && AllOrdered(s) && t < |s| && !s[t].phase.Finished?
    ensures k < |s| && CanStep(s, k)
    decreases if s[t].phase.Queued? then t + 1 else 0, |Beyond(s, t)|
  {
    if !Blocked(s, t) {
      assert CanStep(s, t);
      return t;
    }
    var u: nat :| u < |s| && WaitsFor(s, t, u);
    if s[t].phase.Queued? {
      k := FindStep(s, u);
    } else if !Asking(s, u) || !Blocked(s, u) {
      assert CanStep(s, u);
      k := u;
    } else {
      WaitingIsBefore(s, t, u);
      BeyondShrinks(s, t, u);
      k := FindStep(s, u);
    }
  }

  lemma Smaller<T>(a: set<T>, b: set<T>)
    requires a < b
    ensures |a| < |b|
  {
    var rest := b - a;
    assert b == a + rest;
    assert |b| == |a| + |rest|;
    assert rest != {};
  }

  /** As long as a transaction is unfinished, some transaction can start, take its next lock or commit,
      without anyone having to abort. */
  lemma DeadlockFree(events: seq<Event>, t: nat)
    requires AllOrdered(Run(events)) && t < |Run(events)| && !Run(events)[t].phase.Finished?
    ensures exists k: nat :: k < |Run(events)| && CanStep(Run(events), k)
  {
    Invariant(events);
    var k := FindStep(Run(events), t);
  }

  /** The steps a transaction still has before it. */
  function Left(tx: Tx): nat {
    match tx.phase
    case Queued => |tx.plan| + 2
    case Active(held) => if held <= |tx.plan| then |tx.plan| - held + 1 else 1
    case Finished => 0
  }

  function Work(s: State): nat {
    if s == [] then 0 else Left(s[0]) + Work(s[1..])
  }

  lemma {:induction false} WorkOf(s: State, t: nat, tx: Tx)
    requires t < |s|
    ensures Work(s[t := tx]) + Left(s[t]) == Work(s) + Left(tx)
  {
    if t == 0 {
      assert s[t := tx][1..] == s[1..];
    } else {
      assert s[t := tx][1..] == s[1..][t - 1 := tx];
      WorkOf(s[1..], t - 1, tx);
    }
  }

  /** Every step but a new submission uses up work, so with `DeadlockFree` every unit of work ends. */
  lemma WorkDecreases(events: seq<Event>, e: Event)
    requires Enabled(Run(events), e) && !e.Submit?
    ensures Work(Apply(Run(events), e)) < Work(Run(events))
  {
    var s := Run(events);
    Invariant(events);
    WorkOf(s, e.t, Apply(s, e)[e.t]);
  }

  /** Nothing is left to do exactly when every transaction has finished. */
  lemma {:induction false} NoWorkLeft(s: State)
    ensures Work(s) == 0 <==> forall t :: 0 <= t < |s| ==> s[t].phase.Finished?
  {
    if s != [] {
      NoWorkLeft(s[1..]);
      assert forall t :: 0 < t < |s| ==> s[t] == s[1..][t - 1];
    }
  }

  // ── Which acquisition orders are safe ──

  /** A second call keeps the plan ordered exactly when each lock it adds comes after all of the first call's. */
  lemma SecondCall(first: seq<Key>, second: seq<Key>)
    requires StrictlyAscending(first) && StrictlyAscending(second)
    ensures Ordered(first + second) <==>
      forall i, j :: 0 <= i < |first| && 0 <= j < |second| && second[j] !in first ==> Less(first[i], second[j])
  {
    var plan := first + second;
    if Ordered(plan) {
      forall i, j | 0 <= i < |first| && 0 <= j < |second| && second[j] !in first
        ensures Less(first[i], second[j])
      {
        var n := |first| + j;
        assert plan[n] == second[j] && plan[i] == first[i];
        assert plan[..n] == first + second[..j];
        assert second[j] !in second[..j];
      }
    } else {
      var j :| 0 <= j < |plan| && plan[j] !in plan[..j] && !(forall i :: 0 <= i < j ==> Less(plan[i], plan[j]));
      var i :| 0 <= i < j && !Less(plan[i], plan[j]);
      assert plan[..j] == if j <= |first| then first[..j] else first + second[..j - |first|];
      assert second[j - |first|] !in first;
    }
  }

  /** Nobody can ever step again although somebody is unfinished. */
  ghost predicate Stuck(s: State) {
    (exists t :: 0 <= t < |s| && !s[t].phase.Finished?) && forall k: nat :: !CanStep(s, k)
  }

  /** `plan` is safe: whatever single-call units of work run beside it on other instances, no run gets stuck. */
  ghost predicate Safe(plan: seq<Key>) {
    forall events: seq<Event> ::
      (forall t :: 0 <= t < |Run(events)| ==> Run(events)[t].plan == plan || StrictlyAscending(Run(events)[t].plan))
      ==> !Stuck(Run(events))
  }

  /** An acquisition order is safe beside single-call units of work if and only if it is ordered. */
  lemma SafeIffOrdered(plan: seq<Key>)
    ensures Safe(plan) <==> Ordered(plan)
  {
    if Ordered(plan) {
      forall events: seq<Event> |
        forall t :: 0 <= t < |Run(events)| ==> Run(events)[t].plan == plan || StrictlyAscending(Run(events)[t].plan)
        ensures !Stuck(Run(events))
      {
        if t :| 0 <= t < |Run(events)| && !Run(events)[t].phase.Finished? {
          DeadlockFree(events, t);
        }
      }
    } else {
      var j :| 0 <= j < |plan| && plan[j] !in plan[..j] && !(forall i :: 0 <= i < j ==> Less(plan[i], plan[j]));
      var i :| 0 <= i < j && !Less(plan[i], plan[j]);
      assert plan[i] in plan[..j];
      var events := Embrace(plan, i, j);
      assert Stuck(Run(events));
    }
  }

  /** One `lockTargets` call for everything is an ordered plan, so the call is safe beside others of its kind. */
  lemma OneCallIsOrdered(plan: seq<Key>)
    requires StrictlyAscending(plan)
    ensures Ordered(plan) && Safe(plan)
  {
    SafeIffOrdered(plan);
  }

  lemma RunNext(events: seq<Event>, e: Event)
    ensures Run(events + [e]) == if Enabled(Run(events), e) then Apply(Run(events), e) else Run(events)
  {
    assert (events + [e])[..|events|] == events;
  }

  /** Alone in the system, a unit of work takes its first n locks. */
  lemma {:induction false} TakeAlone(plan: seq<Key>, n: nat) returns (events: seq<Event>)
    requires n <= |plan|
    ensures Run(events) == [Tx(0, plan, Active(n))]
  {
    if n == 0 {
      RunNext([], Submit(Tx(0, plan, Queued)));
      events := [Submit(Tx(0, plan, Queued))];
      assert [] + events == events;
      RunNext(events, Start(0));
      events := events + [Start(0)];
    } else {
      var before := TakeAlone(plan, n - 1);
      RunNext(before, Acquire(0));
      events := before + [Acquire(0)];
    }
  }

  lemma Entangled(plan: seq<Key>, i: nat, j: nat)
    requires i < j < |plan| && plan[j] !in plan[..j] && plan[i] in plan[..j]
    ensures Stuck([Tx(0, plan, Active(j)), Tx(1, [plan[j], plan[i]], Active(1))])
  {
    var partner := [plan[j], plan[i]];
    var s := [Tx(0, plan, Active(j)), Tx(1, partner, Active(1))];
    assert partner[..1] == [plan[j]];
    assert Holds(s, 1, plan[j]) && Holds(s, 0, plan[i]);
    assert WaitsFor(s, 0, 1) && WaitsFor(s, 1, 0);
    assert !s[0].phase.Finished?;
  }

  /** The partner that takes the two locks in order meets the plan that takes them the other way round. */
  lemma Embrace(plan: seq<Key>, i: nat, j: nat) returns (events: seq<Event>)
    requires i < j < |plan| && plan[j] !in plan[..j] && !Less(plan[i], plan[j])
    ensures Stuck(Run(events))
    ensures forall t :: 0 <= t < |Run(events)| ==> Run(events)[t].plan == plan || StrictlyAscending(Run(events)[t].plan)
  {
    assert plan[i] in plan[..j] && plan[i] != plan[j];
    var partner := [plan[j], plan[i]];
    assert StrictlyAscending(partner);
    events := TakeAlone(plan, j);
    RunNext(events, Submit(Tx(1, partner, Queued)));
    events := events + [Submit(Tx(1, partner, Queued))];
    RunNext(events, Start(1));
    events := events + [Start(1)];
    assert Run(events) == [Tx(0, plan, Active(j)), Tx(1, partner, Active(0))];
    TakesFirst(Run(events), plan, partner, j);
    RunNext(events, Acquire(1));
    events := events + [Acquire(1)];
    Entangled(plan, i, j);
  }

  lemma TakesFirst(s: State, plan: seq<Key>, partner: seq<Key>, j: nat)
    requires s == [Tx(0, plan, Active(j)), Tx(1, partner, Active(0))]
    requires |partner| == 2 && j < |plan| && partner[0] !in plan[..j]
    ensures Enabled(s, Acquire(1))
    ensures Apply(s, Acquire(1)) == [Tx(0, plan, Active(j)), Tx(1, partner, Active(1))]
  {
    assert !Holds(s, 0, partner[0]);
  }

  /** Deleting a lesson of a series locks the series (9) and then, in a second call, the sessions (4). */
  lemma SeriesThenSessionsIsUnsafe(series: int, session: int)
    ensures !Safe([Key(ClassId(Series), series)] + [Key(ClassId(Session), session)])
  {
    var first, second := [Key(ClassId(Series), series)], [Key(ClassId(Session), session)];
    SecondCall(first, second);
    assert second[0] !in first && !Less(first[0], second[0]);
    SafeIffOrdered(first + second);
  }
}
