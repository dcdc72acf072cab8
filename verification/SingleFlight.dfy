/** `ensureInitialized`: callers that share one initialization of the data source, over all interleavings
    of its awaits. The URL is set and the policies hold; otherwise the call ends before any of this. */
module SingleFlight {

  /** Where the shared promise stands: none, waiting for the driver, for the readback of the runtime role,
      or for the teardown after a failure. */
  datatype Stage = Idle | Opening | Checking | Closing

  /** A caller returned at once on an initialized data source, or was given the promise of a flight. */
  datatype Caller =
    | Through(inFlight: bool)
    | Waiting(flight: nat)
    | Settled(flight: nat, resolved: bool)

  /** `up` is `isInitialized`; `verified` says that the role of the present data source was read back. */
  datatype State = State(stage: Stage, flights: nat, up: bool, verified: bool, callers: seq<Caller>)

  const INITIAL := State(Idle, 0, false, false, [])

  datatype Event = Ensure | Opened(ok: bool) | Checked(ok: bool) | Closed | Shutdown

  predicate Enabled(s: State, e: Event) {
    match e
    case Ensure => true
    case Opened(_) => s.stage.Opening?
    case Checked(_) => s.stage.Checking?
    case Closed => s.stage.Closing?
    case Shutdown => s.stage.Idle?
  }

  /** The promise of the present flight settles for all who hold it. */
  function Settle(callers: seq<Caller>, flight: nat, resolved: bool): (after: seq<Caller>)
    ensures |after| == |callers|
    ensures forall i :: 0 <= i < |callers| ==>
              after[i] == if callers[i] == Waiting(flight) then Settled(flight, resolved) else callers[i]
  {
    seq(|callers|, i requires 0 <= i < |callers| =>
      if callers[i] == Waiting(flight) then Settled(flight, resolved) else callers[i])
  }

  function Apply(s: State, e: Event): State
    requires Enabled(s, e)
  {
    match e
    case Ensure =>
      if s.up then s.(callers := s.callers + [Through(!s.stage.Idle?)])
      else if !s.stage.Idle? then s.(callers := s.callers + [Waiting(s.flights)])
      else State(Opening, s.flights + 1, false, false, s.callers + [Waiting(s.flights + 1)])
    case Opened(ok) => if ok then s.(stage := Checking, up := true) else s.(stage := Closing)
    case Checked(ok) =>
      if ok then s.(stage := Idle, verified := true, callers := Settle(s.callers, s.flights, true))
      else s.(stage := Closing)
    case Closed => s.(stage := Idle, up := false, callers := Settle(s.callers, s.flights, false))
    case Shutdown => s.(up := false, verified := false)
  }

  /** The state after `events`; an event that is not enabled does nothing. */
  function Run(events: seq<Event>): State
    decreases |events|
  {
    if events == [] then INITIAL
    else
      var s := Run(events[..|events| - 1]);
      if Enabled(s, events[|events| - 1]) then Apply(s, events[|events| - 1]) else s
  }

  /** Callers of one flight that have been told were told the same. */
  predicate Agree(a: Caller, b: Caller) {
    a.Settled? && b.Settled? && a.flight == b.flight ==> a.resolved == b.resolved
  }

  predicate Inv(s: State) {
    && (s.stage.Idle? ==> (s.up <==> s.verified))
    && (s.stage.Opening? ==> !s.up)
    && (s.stage.Checking? ==> s.up)
    && (!s.stage.Idle? ==> !s.verified)
    && (forall i :: 0 <= i < |s.callers| && s.callers[i].Waiting? ==>
          !s.stage.Idle? && s.callers[i].flight == s.flights)
    && (forall i :: 0 <= i < |s.callers| && s.callers[i].Settled? ==>
          s.callers[i].flight <= s.flights && (s.callers[i].flight == s.flights ==> s.stage.Idle?))
    && (forall i, j :: 0 <= i < |s.callers| && 0 <= j < |s.callers| ==> Agree(s.callers[i], s.callers[j]))
  }

  lemma {:induction false} Invariant(events: seq<Event>)
    ensures Inv(Run(events))
    decreases |events|
  {
    if events != [] {
      Invariant(events[..|events| - 1]);
    }
  }

  /** However the calls fall, no caller waits without a flight, none holds the promise of any flight but
      the present one, and callers of one flight are told the same. */
  lemma OneFlightOneOutcome(events: seq<Event>, i: nat, j: nat)
    requires i < |Run(events).callers| && j < |Run(events).callers|
    ensures var s := Run(events);
      && (s.callers[i].Waiting? ==> !s.stage.Idle? && s.callers[i].flight == s.flights)
      && Agree(s.callers[i], s.callers[j])
  {
    Invariant(events);
  }

  /** The event takes a data source away: a failed flight's teardown, or a shutdown of one that is up. */
  predicate Loses(s: State, e: Event) {
    Enabled(s, e) && (e.Closed? || (e.Shutdown? && s.up))
  }

  function Losses(events: seq<Event>): nat
    decreases |events|
  {
    if events == [] then 0
    else
      var before := events[..|events| - 1];
      Losses(before) + if Loses(Run(before), events[|events| - 1]) then 1 else 0
  }

  /** However many calls there are and however they fall, every data source but the present one has been
      torn down: there are as many flights as losses, and one more while one is opening, up or closing. */
  lemma {:induction false} OneDataSourceAtATime(events: seq<Event>)
    ensures var s := Run(events);
      s.flights == Losses(events) + if s.stage.Idle? && !s.up then 0 else 1
    decreases |events|
  {
    if events != [] {
      var before := events[..|events| - 1];
      OneDataSourceAtATime(before);
      Invariant(before);
    }
  }

  /** When the last flight has settled, the data source is up exactly if its role was read back; so a call
      that returns at once outside a flight returns on a verified data source. */
  lemma QuietIsVerified(events: seq<Event>)
    requires Run(events).stage.Idle?
    ensures Run(events).up <==> Run(events).verified
  {
    Invariant(events);
  }

  /** A call returns at once on a data source nobody has verified if and only if it is made after the
      driver came up and before its flight has settled. */
  lemma ReturnsUnverifiedIff(events: seq<Event>)
    ensures var s := Run(events);
      var caller := Apply(s, Ensure).callers[|s.callers|];
      && (caller.Through? && !s.verified <==> s.up && !s.stage.Idle?)
      && (caller.Through? ==> (caller.inFlight <==> !s.verified))
  {
    Invariant(events);
  }

  /** Such a call can return on a data source that is then found to have the wrong role: the caller who
      opened it is told, the other is not. */
  lemma EarlyReturnMissesTheVerdict()
    ensures Run([Ensure, Opened(true), Ensure, Checked(false), Closed]) ==
            State(Idle, 1, false, false, [Settled(1, false), Through(true)])
  {
    var events := [Ensure, Opened(true), Ensure, Checked(false), Closed];
    assert events[..1] == [Ensure] && [Ensure][..0] == [];
    assert events[..2][..1] == events[..1];
    assert events[..3][..2] == events[..2];
    assert events[..4][..3] == events[..3];
    assert Run(events[..1]) == State(Opening, 1, false, false, [Waiting(1)]);
    assert Run(events[..2]) == State(Checking, 1, true, false, [Waiting(1)]);
    assert Run(events[..3]) == State(Checking, 1, true, false, [Waiting(1), Through(true)]);
    assert Run(events[..4]) == State(Closing, 1, true, false, [Waiting(1), Through(true)]);
    assert Settle([Waiting(1), Through(true)], 1, false) == [Settled(1, false), Through(true)];
    assert events[..4] == events[..|events| - 1];
  }
}
