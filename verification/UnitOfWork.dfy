/** The two-store unit of work as a step system: a FIFO queue of memory transactions, each of which
    wraps one PostgreSQL transaction. An event is whatever the event loop does between two awaits. */
module UnitOfWork {
  import opened Rows

  /** What one stretch of a body between two awaits does to the memory `m` and to the body's own variables
      `l`, and, when it sends SQL, reads included, to the open database transaction `d`. Nested `run` calls
      are passthrough, so they are stretches of the same body. `Swallows` is a body that catches an SQL
      error and goes on. */
  datatype Effect<M, D, L> = Next(m: M, l: L) | Sql(m: M, d: D, l: L) | Throws | Swallows(m: M, l: L)

  type Segment<!M, !D, !L> = (M, D, L) -> Effect<M, D, L>

  datatype Phase<M, D, L> =
    | Waiting
    | Running(before: M, work: D, aborted: bool, pc: nat, local: L)
    | Settled(resolved: bool)

  datatype Call<!M, !D, !L> = Call(body: seq<Segment<M, D, L>>, start: L, phase: Phase<M, D, L>)

  datatype World<!M, !D, !L> = World(mem: M, db: D, calls: seq<Call<M, D, L>>)

  datatype Event<!M, !D, !L> =
    | Submit(body: seq<Segment<M, D, L>>, start: L)
    | Begin(i: nat, connected: bool)
    | Advance(i: nat, fault: bool)
    | Finish(i: nat, commits: bool)

  /** `txTail.then(...)`: a call hangs on the one submitted just before it, and starts once that has
      settled, well or badly. */
  ghost predicate Enabled<M, D, L>(w: World<M, D, L>, e: Event<M, D, L>) {
    match e
    case Submit(_, _) => true
    case Begin(i, _) =>
      i < |w.calls| && w.calls[i].phase.Waiting? && (i == 0 || w.calls[i - 1].phase.Settled?)
    case Advance(i, _) => i < |w.calls| && w.calls[i].phase.Running? && w.calls[i].phase.pc < |w.calls[i].body|
    case Finish(i, _) => i < |w.calls| && w.calls[i].phase.Running? && w.calls[i].phase.pc == |w.calls[i].body|
  }

  ghost function Set<M, D, L>(w: World<M, D, L>, i: nat, phase: Phase<M, D, L>): World<M, D, L>
    requires i < |w.calls|
  {
    w.(calls := w.calls[i := w.calls[i].(phase := phase)])
  }

  /** The exception path: the database transaction rolls back, the memory snapshot comes back. */
  ghost function Reject<M, D, L>(w: World<M, D, L>, i: nat, before: M): World<M, D, L>
    requires i < |w.calls|
  {
    Set(w, i, Settled(false)).(mem := before)
  }

  /** In an aborted database transaction every further statement fails. */
  ghost predicate Fails<M, D, L>(run: Phase<M, D, L>, to: Effect<M, D, L>)
    requires run.Running?
  {
    to.Throws? || (to.Sql? && run.aborted)
  }

  ghost function After<M, D, L>(run: Phase<M, D, L>, to: Effect<M, D, L>): Phase<M, D, L>
    requires run.Running? && !Fails(run, to)
  {
    var next := run.(pc := run.pc + 1, local := to.l);
    if to.Swallows? then next.(aborted := true) else if to.Sql? then next.(work := to.d) else next
  }

  /** One stretch of a running body. */
  ghost function Stretch<M, D, L>(w: World<M, D, L>, i: nat, run: Phase<M, D, L>): World<M, D, L>
    requires i < |w.calls| && run.Running? && run.pc < |w.calls[i].body|
  {
    var to := w.calls[i].body[run.pc](w.mem, run.work, run.local);
    if Fails(run, to) then Reject(w, i, run.before) else Set(w, i, After(run, to)).(mem := to.m)
  }

  ghost function Apply<M, D, L>(w: World<M, D, L>, e: Event<M, D, L>): World<M, D, L>
    requires Enabled(w, e)
  {
    match e
    case Submit(body, start) => w.(calls := w.calls + [Call(body, start, Waiting)])
    case Begin(i, connected) =>
      if connected then Set(w, i, Running(w.mem, w.db, false, 0, w.calls[i].start)) else Reject(w, i, w.mem)
    case Advance(i, fault) =>
      if fault then Reject(w, i, w.calls[i].phase.before) else Stretch(w, i, w.calls[i].phase)
    case Finish(i, commits) =>
      var run := w.calls[i].phase;
      // COMMIT of an aborted transaction rolls back and reports no error.
      if commits then Set(w, i, Settled(true)).(db := if run.aborted then w.db else run.work)
      else Reject(w, i, run.before)
  }

  /** The world after `events`, the queue being empty at first. An event that is not enabled does nothing,
      so the worlds of all event lists are exactly the reachable ones. */
  ghost function Run<M, D, L>(m: M, d: D, events: seq<Event<M, D, L>>): World<M, D, L>
    decreases |events|
  {
    if events == [] then World(m, d, [])
    else
      var w := Run(m, d, events[..|events| - 1]);
      var e := events[|events| - 1];
      if Enabled(w, e) then Apply(w, e) else w
  }

  // ── The sequential meaning ──

  /** The rest of a body, run alone and without faults: the two contents it leaves, and whether the
      database transaction was aborted on the way; `None` when it throws. */
  ghost function Rest<M, D, L>(body: seq<Segment<M, D, L>>, pc: nat, m: M, d: D, aborted: bool, l: L)
    : Option<(M, D, bool)>
    requires pc <= |body|
    decreases |body| - pc
  {
    if pc == |body| then Some((m, d, aborted))
    else
      match body[pc](m, d, l)
      case Throws => None
      case Swallows(m', l') => Rest(body, pc + 1, m', d, true, l')
      case Next(m', l') => Rest(body, pc + 1, m', d, aborted, l')
      case Sql(m', d', l') => if aborted then None else Rest(body, pc + 1, m', d', false, l')
  }

  ghost function Alone<M, D, L>(c: Call<M, D, L>, m: M, d: D): Option<(M, D, bool)> {
    Rest(c.body, 0, m, d, false, c.start)
  }

  /** The stores after the resolved calls among the first n ran one after the other, each alone. */
  ghost function Serial<M, D, L>(calls: seq<Call<M, D, L>>, n: nat, m: M, d: D): (M, D)
    requires n <= |calls|
  {
    if n == 0 then (m, d)
    else
      var (m', d') := Serial(calls, n - 1, m, d);
      match Alone(calls[n - 1], m', d')
      case Some((m'', d'', aborted)) =>
        if calls[n - 1].phase == Settled(true) then (m'', if aborted then d' else d'') else (m', d')
      case None => (m', d')
  }

  ghost predicate Fifo<M, D, L>(calls: seq<Call<M, D, L>>) {
    forall i, j :: 0 <= i < j < |calls| && !calls[i].phase.Settled? ==> calls[j].phase.Waiting?
  }

  /** The body of call i runs through alone from what the resolved calls before it left. */
  ghost predicate RunsThrough<M, D, L>(calls: seq<Call<M, D, L>>, i: nat, m: M, d: D)
    requires i < |calls|
  {
    var (m', d') := Serial(calls, i, m, d);
    Alone(calls[i], m', d').Some?
  }

  ghost predicate HonestAt<M, D, L>(calls: seq<Call<M, D, L>>, i: nat, m: M, d: D)
    requires i < |calls|
  {
    calls[i].phase == Settled(true) ==> RunsThrough(calls, i, m, d)
  }

  /** A resolved call is one that runs through alone. */
  ghost predicate Honest<M, D, L>(calls: seq<Call<M, D, L>>, m: M, d: D) {
    forall i :: 0 <= i < |calls| ==> HonestAt(calls, i, m, d)
  }

  /** What is left of a running body leads where the whole body leads alone. */
  ghost predicate Underway<M, D, L>(c: Call<M, D, L>, mem: M, db: D)
    requires c.phase.Running?
  {
    var run := c.phase;
    && run.pc <= |c.body|
    && Alone(c, run.before, db) == Rest(c.body, run.pc, mem, run.work, run.aborted, run.local)
  }

  /** A running call began on the contents it will fall back to, those of the last settled call. */
  ghost predicate RunningAt<M, D, L>(w: World<M, D, L>, i: nat, m: M, d: D)
    requires i < |w.calls|
  {
    w.calls[i].phase.Running? ==>
      (w.calls[i].phase.before, w.db) == Serial(w.calls, i, m, d) && Underway(w.calls[i], w.mem, w.db)
  }

  ghost predicate AtRest<M, D, L>(w: World<M, D, L>) {
    forall i :: 0 <= i < |w.calls| ==> !w.calls[i].phase.Running?
  }

  ghost predicate Inv<M, D, L>(w: World<M, D, L>, m: M, d: D) {
    && Fifo(w.calls) && Honest(w.calls, m, d)
    && (forall i :: 0 <= i < |w.calls| ==> RunningAt(w, i, m, d))
    && (AtRest(w) ==> (w.mem, w.db) == Serial(w.calls, |w.calls|, m, d))
  }

  lemma {:induction false} SerialPrefix<M, D, L>(a: seq<Call<M, D, L>>, b: seq<Call<M, D, L>>, n: nat, m: M, d: D)
    requires n <= |a| && n <= |b| && a[..n] == b[..n]
    ensures Serial(a, n, m, d) == Serial(b, n, m, d)
  {
    if n > 0 {
      assert a[..n - 1] == a[..n][..n - 1] == b[..n][..n - 1] == b[..n - 1];
      assert a[n - 1] == a[..n][n - 1] == b[..n][n - 1] == b[n - 1];
      SerialPrefix(a, b, n - 1, m, d);
    }
  }

  /** Calls that have not resolved leave the serial contents alone. */
  lemma {:induction false} SerialIdle<M, D, L>(calls: seq<Call<M, D, L>>, from: nat, to: nat, m: M, d: D)
    requires from <= to <= |calls|
    requires forall i :: from <= i < to ==> calls[i].phase != Settled(true)
    ensures Serial(calls, to, m, d) == Serial(calls, from, m, d)
  {
    if from < to {
      SerialIdle(calls, from, to - 1, m, d);
    }
  }

  lemma SameBefore<M, D, L>(a: seq<Call<M, D, L>>, b: seq<Call<M, D, L>>, i: nat, j: nat, m: M, d: D)
    requires j < i <= |a| && i <= |b| && a[..i] == b[..i]
    ensures a[j] == b[j] && Serial(b, j, m, d) == Serial(a, j, m, d)
  {
    assert a[..j] == a[..i][..j] == b[..i][..j] == b[..j];
    assert a[j] == a[..i][j] == b[..i][j] == b[j];
    SerialPrefix(a, b, j, m, d);
  }

  lemma HonestBefore<M, D, L>(a: seq<Call<M, D, L>>, b: seq<Call<M, D, L>>, i: nat, j: nat, m: M, d: D)
    requires j < i <= |a| && i <= |b| && a[..i] == b[..i] && HonestAt(a, j, m, d)
    ensures HonestAt(b, j, m, d)
  {
    SameBefore(a, b, i, j, m, d);
  }

  /** Changing the phase of call i leaves the calls before it as they were. */
  lemma HonestPrefix<M, D, L>(a: seq<Call<M, D, L>>, b: seq<Call<M, D, L>>, i: nat, m: M, d: D)
    requires Honest(a, m, d) && i <= |a| && i <= |b| && a[..i] == b[..i]
    requires i < |b| ==> HonestAt(b, i, m, d)
    requires forall j :: i < j < |b| ==> b[j].phase != Settled(true)
    ensures Honest(b, m, d)
    ensures Serial(b, i, m, d) == Serial(a, i, m, d)
  {
    SerialPrefix(a, b, i, m, d);
    forall j | 0 <= j < |b|
      ensures HonestAt(b, j, m, d)
    {
      if j < i {
        assert HonestAt(a, j, m, d);
        HonestBefore(a, b, i, j, m, d);
      }
    }
  }

  /** What the invariant says of a running call. */
  lemma Runs<M, D, L>(w: World<M, D, L>, i: nat, m: M, d: D)
    requires Inv(w, m, d) && i < |w.calls| && w.calls[i].phase.Running?
    ensures (w.calls[i].phase.before, w.db) == Serial(w.calls, i, m, d) && Underway(w.calls[i], w.mem, w.db)
    ensures forall j :: 0 <= j < i ==> w.calls[j].phase.Settled?
    ensures forall j :: i < j < |w.calls| ==> w.calls[j].phase.Waiting?
  {
    assert RunningAt(w, i, m, d);
  }

  /** The invariant of a world nobody runs in. */
  lemma InvOfQuiet<M, D, L>(w: World<M, D, L>, m: M, d: D)
    requires Fifo(w.calls) && Honest(w.calls, m, d)
    requires forall i :: 0 <= i < |w.calls| ==> !w.calls[i].phase.Running?
    requires (w.mem, w.db) == Serial(w.calls, |w.calls|, m, d)
    ensures Inv(w, m, d)
  {
  }

  lemma Settling<M, D, L>(w: World<M, D, L>, i: nat, m: M, d: D, before: M)
    requires Inv(w, m, d) && i < |w.calls| && !w.calls[i].phase.Settled?
    requires forall j :: 0 <= j < i ==> w.calls[j].phase.Settled?
    requires (before, w.db) == Serial(w.calls, i, m, d)
    ensures Inv(Reject(w, i, before), m, d)
    ensures Serial(Reject(w, i, before).calls, |w.calls|, m, d) == (before, w.db)
  {
    var w' := Reject(w, i, before);
    assert w'.calls[..i] == w.calls[..i];
    HonestPrefix(w.calls, w'.calls, i, m, d);
    SerialIdle(w'.calls, i, |w.calls|, m, d);
    InvOfQuiet(w', m, d);
  }

  lemma Moving<M, D, L>(w: World<M, D, L>, i: nat, m: M, d: D, mem: M, run: Phase<M, D, L>)
    requires Inv(w, m, d) && i < |w.calls| && !w.calls[i].phase.Settled?
    requires forall j :: 0 <= j < i ==> w.calls[j].phase.Settled?
    requires run.Running? && (run.before, w.db) == Serial(w.calls, i, m, d)
    requires Underway(w.calls[i].(phase := run), mem, w.db)
    ensures Inv(Set(w, i, run).(mem := mem), m, d)
  {
    var w' := Set(w, i, run).(mem := mem);
    assert w'.calls[..i] == w.calls[..i];
    HonestPrefix(w.calls, w'.calls, i, m, d);
    assert w'.calls[i].phase.Running?;
  }

  /** A call about to commit is one that ran through alone. */
  lemma RanThrough<M, D, L>(w: World<M, D, L>, i: nat, m: M, d: D)
    requires Inv(w, m, d) && Enabled(w, Event<M, D, L>.Finish(i, true))
    ensures var run := w.calls[i].phase;
      && Serial(w.calls, i, m, d) == (run.before, w.db)
      && Alone(w.calls[i], run.before, w.db) == Some((w.mem, run.work, run.aborted))
    ensures forall j :: i < j < |w.calls| ==> w.calls[j].phase.Waiting?
  {
    Runs(w, i, m, d);
  }

  /** The serial contents behind a call that resolved. */
  lemma SerialResolved<M, D, L>(calls: seq<Call<M, D, L>>, i: nat, m: M, d: D, from: (M, D), to: (M, D, bool))
    requires i < |calls| && calls[i].phase == Settled(true)
    requires Serial(calls, i, m, d) == from && Alone(calls[i], from.0, from.1) == Some(to)
    ensures Serial(calls, i + 1, m, d) == (to.0, if to.2 then from.1 else to.1)
  {
  }

  lemma Committing<M, D, L>(w: World<M, D, L>, i: nat, m: M, d: D)
    requires Inv(w, m, d) && Enabled(w, Event<M, D, L>.Finish(i, true))
    ensures Inv(Apply(w, Event<M, D, L>.Finish(i, true)), m, d)
  {
    var run, w' := w.calls[i].phase, Apply(w, Event<M, D, L>.Finish(i, true));
    RanThrough(w, i, m, d);
    assert w'.calls[..i] == w.calls[..i];
    Resolved(w.calls, w'.calls, i, m, d, (run.before, w.db), (w.mem, run.work, run.aborted));
    InvOfQuiet(w', m, d);
  }

  lemma ResolvedSerial<M, D, L>(b: seq<Call<M, D, L>>, i: nat, m: M, d: D, from: (M, D), to: (M, D, bool))
    requires i < |b| && b[i].phase == Settled(true)
    requires forall j :: i < j < |b| ==> b[j].phase.Waiting?
    requires Serial(b, i, m, d) == from && Alone(b[i], from.0, from.1) == Some(to)
    ensures Serial(b, |b|, m, d) == (to.0, if to.2 then from.1 else to.1)
  {
    SerialResolved(b, i, m, d, from, to);
    SerialIdle(b, i + 1, |b|, m, d);
  }

  /** The calls behind a call that resolves, the others waiting. */
  lemma Resolved<M, D, L>(a: seq<Call<M, D, L>>, b: seq<Call<M, D, L>>, i: nat, m: M, d: D,
                          from: (M, D), to: (M, D, bool))
    requires Honest(a, m, d) && i < |a| && b == a[i := a[i].(phase := Settled(true))]
    requires forall j :: i < j < |a| ==> a[j].phase.Waiting?
    requires Serial(a, i, m, d) == from && Alone(a[i], from.0, from.1) == Some(to)
    ensures Honest(b, m, d)
    ensures Serial(b, |b|, m, d) == (to.0, if to.2 then from.1 else to.1)
  {
    assert b[..i] == a[..i];
    assert Alone(b[i], from.0, from.1) == Alone(a[i], from.0, from.1);
    SerialPrefix(a, b, i, m, d);
    ResolvedSerial(b, i, m, d, from, to);
    HonestPrefix(a, b, i, m, d);
  }

  lemma SerialNext<M, D, L>(calls: seq<Call<M, D, L>>, n: nat, m: M, d: D)
    requires n < |calls| && calls[n].phase != Settled(true)
    ensures Serial(calls, n + 1, m, d) == Serial(calls, n, m, d)
  {
  }

  /** Submitting leaves the calls before it and what they did. */
  lemma Submitted<M, D, L>(a: seq<Call<M, D, L>>, b: seq<Call<M, D, L>>, m: M, d: D)
    requires Honest(a, m, d) && |b| == |a| + 1 && b[..|a|] == a[..|a|] && b[|a|].phase.Waiting?
    ensures Honest(b, m, d) && Serial(b, |b|, m, d) == Serial(a, |a|, m, d)
  {
    var n := |a|;
    assert HonestAt(b, n, m, d);
    HonestPrefix(a, b, n, m, d);
    SerialNext(b, n, m, d);
  }

  lemma FifoAppended<M, D, L>(a: seq<Call<M, D, L>>, c: Call<M, D, L>)
    requires Fifo(a) && c.phase.Waiting?
    ensures Fifo(a + [c])
  {
  }

  lemma Submitting<M, D, L>(w: World<M, D, L>, e: Event<M, D, L>, m: M, d: D)
    requires Inv(w, m, d) && e.Submit?
    ensures Inv(Apply(w, e), m, d)
  {
    var a, b := w.calls, Apply(w, e).calls;
    assert b[..|a|] == a[..|a|];
    Submitted(a, b, m, d);
    FifoAppended(a, b[|a|]);
    forall i | 0 <= i < |b|
      ensures RunningAt(Apply(w, e), i, m, d)
    {
      if b[i].phase.Running? {
        SameBefore(a, b, |a|, i, m, d);
        Runs(w, i, m, d);
      }
    }
    if AtRest(Apply(w, e)) {
      assert forall i :: 0 <= i < |a| ==> a[i] == b[i];
    }
  }

  /** A stretch moves the body on just as it would alone. */
  lemma RestUnfolds<M, D, L>(body: seq<Segment<M, D, L>>, run: Phase<M, D, L>, m: M, to: Effect<M, D, L>)
    requires run.Running? && run.pc < |body| && body[run.pc](m, run.work, run.local) == to && !Fails(run, to)
    ensures var run' := After(run, to);
      Rest(body, run.pc, m, run.work, run.aborted, run.local)
        == Rest(body, run'.pc, to.m, run'.work, run'.aborted, run'.local)
  {
  }

  lemma Advancing<M, D, L>(w: World<M, D, L>, i: nat, m: M, d: D)
    requires Inv(w, m, d) && Enabled(w, Event<M, D, L>.Advance(i, false))
    ensures Inv(Stretch(w, i, w.calls[i].phase), m, d)
  {
    var run := w.calls[i].phase;
    var to := w.calls[i].body[run.pc](w.mem, run.work, run.local);
    Runs(w, i, m, d);
    if Fails(run, to) {
      Settling(w, i, m, d, run.before);
    } else {
      RestUnfolds(w.calls[i].body, run, w.mem, to);
      Moving(w, i, m, d, to.m, After(run, to));
    }
  }

  lemma InvStep<M, D, L>(w: World<M, D, L>, e: Event<M, D, L>, m: M, d: D)
    requires Inv(w, m, d) && Enabled(w, e)
    ensures Inv(Apply(w, e), m, d)
  {
    match e
    case Submit(_, _) => Submitting(w, e, m, d);
    case Begin(i, connected) =>
      Quiet(w, i, m, d);
      if connected {
        Moving(w, i, m, d, w.mem, Running(w.mem, w.db, false, 0, w.calls[i].start));
      } else {
        Settling(w, i, m, d, w.mem);
      }
    case Advance(i, fault) =>
      Runs(w, i, m, d);
      if fault {
        Settling(w, i, m, d, w.calls[i].phase.before);
      } else {
        Advancing(w, i, m, d);
      }
    case Finish(i, commits) =>
      Runs(w, i, m, d);
      if commits {
        Committing(w, i, m, d);
      } else {
        Settling(w, i, m, d, w.calls[i].phase.before);
      }
  }

  /** Where the call before has settled, all before have. */
  lemma AllBefore<M, D, L>(calls: seq<Call<M, D, L>>, i: nat)
    requires Fifo(calls) && i < |calls| && (i == 0 || calls[i - 1].phase.Settled?)
    ensures forall j :: 0 <= j < i ==> calls[j].phase.Settled?
  {
  }

  lemma QuietSerial<M, D, L>(calls: seq<Call<M, D, L>>, i: nat, m: M, d: D, stores: (M, D))
    requires Fifo(calls) && i < |calls| && calls[i].phase.Waiting? && (i == 0 || calls[i - 1].phase.Settled?)
    requires (forall j :: 0 <= j < |calls| ==> !calls[j].phase.Running?) ==> stores == Serial(calls, |calls|, m, d)
    ensures stores == Serial(calls, i, m, d)
    ensures forall j :: 0 <= j < i ==> calls[j].phase.Settled?
  {
    AllBefore(calls, i);
    assert forall j :: i < j < |calls| ==> calls[j].phase.Waiting?;
    SerialIdle(calls, i, |calls|, m, d);
  }

  /** When call i may begin, nobody is running and the stores hold what the earlier calls left. */
  lemma Quiet<M, D, L>(w: World<M, D, L>, i: nat, m: M, d: D)
    requires Inv(w, m, d) && Enabled(w, Event<M, D, L>.Begin(i, true))
    ensures (w.mem, w.db) == Serial(w.calls, i, m, d)
    ensures forall j :: 0 <= j < i ==> w.calls[j].phase.Settled?
  {
    QuietSerial(w.calls, i, m, d, (w.mem, w.db));
  }

  lemma {:induction false} Invariant<M, D, L>(m: M, d: D, events: seq<Event<M, D, L>>)
    ensures Inv(Run(m, d, events), m, d)
    decreases |events|
  {
    if events != [] {
      Invariant(m, d, events[..|events| - 1]);
      var w := Run(m, d, events[..|events| - 1]);
      if Enabled(w, events[|events| - 1]) {
        InvStep(w, events[|events| - 1], m, d);
      }
    }
  }

  // ── What every run keeps ──

  /** At most one outermost transaction is active, and transactions start in call order. */
  lemma {:induction false} OneAtATimeInCallOrder<M, D, L>(m: M, d: D, events: seq<Event<M, D, L>>, i: nat, j: nat)
    requires i < j < |Run(m, d, events).calls|
    requires !Run(m, d, events).calls[j].phase.Waiting?
    ensures Run(m, d, events).calls[i].phase.Settled?
  {
    Invariant(m, d, events);
  }

  /** Whatever the interleaving and the failures, once nobody runs the two stores hold exactly what the
      resolved calls make of them one after the other in call order; and each resolved call is one whose
      body runs through alone at its turn. */
  lemma Serializable<M, D, L>(m: M, d: D, events: seq<Event<M, D, L>>)
    ensures var w := Run(m, d, events);
      && ((forall i :: 0 <= i < |w.calls| ==> !w.calls[i].phase.Running?) ==>
            (w.mem, w.db) == Serial(w.calls, |w.calls|, m, d))
      && Honest(w.calls, m, d)
  {
    Invariant(m, d, events);
  }

  /** Only the call an event names settles by it. */
  lemma SettlesItsCall<M, D, L>(w: World<M, D, L>, e: Event<M, D, L>, i: nat)
    requires Enabled(w, e) && i < |w.calls| && !w.calls[i].phase.Settled? && Apply(w, e).calls[i].phase.Settled?
    ensures !e.Submit? && e.i == i
  {
  }

  lemma FallsBack<M, D, L>(w: World<M, D, L>, e: Event<M, D, L>, i: nat, m: M, d: D)
    requires Inv(w, m, d) && Enabled(w, e) && i < |w.calls| && !w.calls[i].phase.Settled?
    requires Apply(w, e).calls[i].phase == Settled(false)
    ensures (Apply(w, e).mem, Apply(w, e).db) == Serial(w.calls, i, m, d)
  {
    SettlesItsCall(w, e, i);
    if e.Begin? {
      Quiet(w, i, m, d);
    } else {
      Runs(w, i, m, d);
    }
  }

  /** Whichever step throws, connection, body, query or commit, both stores are back to what they held
      when the call began. */
  lemma RejectedChangesNothing<M, D, L>(m: M, d: D, events: seq<Event<M, D, L>>, e: Event<M, D, L>, i: nat)
    requires Enabled(Run(m, d, events), e) && i < |Run(m, d, events).calls|
    requires !Run(m, d, events).calls[i].phase.Settled?
    requires Apply(Run(m, d, events), e).calls[i].phase == Settled(false)
    ensures var w := Apply(Run(m, d, events), e);
      (w.mem, w.db) == Serial(Run(m, d, events).calls, i, m, d)
  {
    Invariant(m, d, events);
    FallsBack(Run(m, d, events), e, i, m, d);
  }

  // ── Every caller's own outcome ──

  /** The event takes call i the connection, a statement or the commit. */
  predicate Strikes<M, D, L>(e: Event<M, D, L>, i: nat) {
    e == Begin(i, false) || e == Advance(i, true) || e == Finish(i, false)
  }

  /** Such an event came to pass. */
  ghost predicate Struck<M, D, L>(m: M, d: D, events: seq<Event<M, D, L>>, i: nat)
    decreases |events|
  {
    && events != []
    && var before, e := events[..|events| - 1], events[|events| - 1];
       Struck(m, d, before, i) || (Enabled(Run(m, d, before), e) && Strikes(e, i))
  }

  lemma SettledStay<M, D, L>(w: World<M, D, L>, e: Event<M, D, L>, i: nat)
    requires Fifo(w.calls) && Enabled(w, e) && i < |w.calls|
    requires w.calls[i].phase.Settled? || (!e.Submit? && e.i == i)
    ensures i < |Apply(w, e).calls| && Apply(w, e).calls[..i] == w.calls[..i]
    ensures Apply(w, e).calls[i].body == w.calls[i].body && Apply(w, e).calls[i].start == w.calls[i].start
    ensures w.calls[i].phase.Settled? ==> Apply(w, e).calls[i] == w.calls[i] && !Strikes(e, i)
  {
  }

  /** The step that settles a call tells it the truth. */
  lemma SettlingTells<M, D, L>(w: World<M, D, L>, e: Event<M, D, L>, i: nat, m: M, d: D)
    requires Inv(w, m, d) && Enabled(w, e) && i < |w.calls| && !w.calls[i].phase.Settled?
    requires Apply(w, e).calls[i].phase.Settled?
    ensures Apply(w, e).calls[i].phase.resolved <==> !Strikes(e, i) && RunsThrough(w.calls, i, m, d)
  {
    SettlesItsCall(w, e, i);
    if e.Finish? {
      RanThrough(w, i, m, d);
    } else if e.Advance? && !e.fault {
      var run := w.calls[i].phase;
      Runs(w, i, m, d);
      FailsAlone(w.calls[i].body, run, w.mem, w.calls[i].body[run.pc](w.mem, run.work, run.local));
    }
  }

  lemma FailsAlone<M, D, L>(body: seq<Segment<M, D, L>>, run: Phase<M, D, L>, m: M, to: Effect<M, D, L>)
    requires run.Running? && run.pc < |body| && body[run.pc](m, run.work, run.local) == to
    ensures Fails(run, to) ==> Rest(body, run.pc, m, run.work, run.aborted, run.local).None?
  {
  }

  lemma SameRunsThrough<M, D, L>(a: seq<Call<M, D, L>>, b: seq<Call<M, D, L>>, i: nat, m: M, d: D)
    requires i < |a| && i < |b| && a[..i] == b[..i] && a[i].body == b[i].body && a[i].start == b[i].start
    ensures RunsThrough(a, i, m, d) <==> RunsThrough(b, i, m, d)
  {
    SerialPrefix(a, b, i, m, d);
  }

  ghost predicate Told<M, D, L>(m: M, d: D, events: seq<Event<M, D, L>>, i: nat)
    requires i < |Run(m, d, events).calls|
  {
    var calls := Run(m, d, events).calls;
    if calls[i].phase.Settled?
    then calls[i].phase.resolved <==> !Struck(m, d, events, i) && RunsThrough(calls, i, m, d)
    else !Struck(m, d, events, i)
  }

  lemma {:induction false} NotStruckYet<M, D, L>(m: M, d: D, events: seq<Event<M, D, L>>, i: nat)
    requires i >= |Run(m, d, events).calls|
    ensures !Struck(m, d, events, i)
    decreases |events|
  {
    if events != [] {
      var before := events[..|events| - 1];
      assert |Run(m, d, before).calls| <= |Run(m, d, events).calls|;
      NotStruckYet(m, d, before, i);
    }
  }

  lemma ToldNext<M, D, L>(m: M, d: D, before: seq<Event<M, D, L>>, e: Event<M, D, L>, i: nat)
    requires Inv(Run(m, d, before), m, d) && i < |Run(m, d, before).calls| && Told(m, d, before, i)
    requires i < |Run(m, d, before + [e]).calls|
    ensures Told(m, d, before + [e], i)
  {
    var w, events := Run(m, d, before), before + [e];
    assert events[..|events| - 1] == before;
    if Enabled(w, e) {
      var v := Apply(w, e);
      if w.calls[i].phase.Settled? || v.calls[i].phase.Settled? {
        if !w.calls[i].phase.Settled? {
          SettlesItsCall(w, e, i);
          SettlingTells(w, e, i, m, d);
        }
        SettledStay(w, e, i);
        SameRunsThrough(w.calls, v.calls, i, m, d);
      }
    }
  }

  /** A settled call resolved if and only if nothing struck it and its body runs through alone at its turn:
      every caller gets its own outcome, and nobody else's. */
  lemma {:induction false} OwnOutcome<M, D, L>(m: M, d: D, events: seq<Event<M, D, L>>, i: nat)
    requires i < |Run(m, d, events).calls|
    ensures var calls := Run(m, d, events).calls;
      if calls[i].phase.Settled?
      then calls[i].phase.resolved <==> !Struck(m, d, events, i) && RunsThrough(calls, i, m, d)
      else !Struck(m, d, events, i)
    decreases |events|
  {
    var before, e := events[..|events| - 1], events[|events| - 1];
    assert events == before + [e];
    Invariant(m, d, before);
    if i < |Run(m, d, before).calls| {
      OwnOutcome(m, d, before, i);
      ToldNext(m, d, before, e, i);
    } else {
      NotStruckYet(m, d, before, i);
    }
  }

  /** Call k can take a step. */
  ghost predicate CanStep<M, D, L>(w: World<M, D, L>, k: nat) {
    || Enabled(w, Event<M, D, L>.Begin(k, true))
    || Enabled(w, Event<M, D, L>.Advance(k, false))
    || Enabled(w, Event<M, D, L>.Finish(k, true))
  }

  lemma {:induction false} FirstUnsettled<M, D, L>(calls: seq<Call<M, D, L>>, i: nat) returns (k: nat)
    requires i < |calls| && !calls[i].phase.Settled?
    ensures k <= i && !calls[k].phase.Settled? && forall j :: 0 <= j < k ==> calls[j].phase.Settled?
  {
    if j :| 0 <= j < i && !calls[j].phase.Settled? {
      k := FirstUnsettled(calls, j);
    } else {
      k := i;
    }
  }

  /** A settled caller, however it settled, never keeps the next one from starting, and a started call
      can always move on: as long as call i is unsettled, it or a call before it can step. */
  lemma NeverStuck<M, D, L>(m: M, d: D, events: seq<Event<M, D, L>>, i: nat)
    requires i < |Run(m, d, events).calls| && !Run(m, d, events).calls[i].phase.Settled?
    ensures exists k: nat :: k <= i && CanStep(Run(m, d, events), k)
  {
    Invariant(m, d, events);
    var k := FirstUnsettled(Run(m, d, events).calls, i);
    if Run(m, d, events).calls[k].phase.Running? {
      Runs(Run(m, d, events), k, m, d);
    }
    assert CanStep(Run(m, d, events), k);
  }

  // ── The mirror over all runs ──

  /** What a resolved call leaves: a swallowed SQL error has aborted the database transaction, whose
      COMMIT then rolls back and reports no error. */
  ghost function Leaves<M, D, L>(c: Call<M, D, L>, m: M, d: D): (M, D)
    requires Alone(c, m, d).Some?
  {
    var (m', d', aborted) := Alone(c, m, d).value;
    (m', if aborted then d else d')
  }

  /** Run alone from stores that agree, the body leaves stores that agree, or throws. */
  ghost predicate Keeps<M(!new), D(!new), L>(c: Call<M, D, L>, agree: (M, D) -> bool) {
    forall m, d :: agree(m, d) && Alone(c, m, d).Some? ==> agree(Leaves(c, m, d).0, Leaves(c, m, d).1)
  }

  lemma {:induction false} SerialAgrees<M(!new), D(!new), L>(
    calls: seq<Call<M, D, L>>, n: nat, m: M, d: D, agree: (M, D) -> bool)
    requires n <= |calls| && agree(m, d)
    requires forall i :: 0 <= i < |calls| ==> Keeps(calls[i], agree)
    ensures agree(Serial(calls, n, m, d).0, Serial(calls, n, m, d).1)
  {
    if n > 0 {
      SerialAgrees(calls, n - 1, m, d, agree);
      assert Keeps(calls[n - 1], agree);
    }
  }

  /** The memory mirrors the database in every quiet state of every run, and what a running call would
      fall back to mirrors it too. */
  lemma MirrorSurvives<M(!new), D(!new), L>(m: M, d: D, events: seq<Event<M, D, L>>, agree: (M, D) -> bool)
    requires agree(m, d)
    requires forall i :: 0 <= i < |Run(m, d, events).calls| ==> Keeps(Run(m, d, events).calls[i], agree)
    ensures var w := Run(m, d, events);
      && ((forall i :: 0 <= i < |w.calls| ==> !w.calls[i].phase.Running?) ==> agree(w.mem, w.db))
      && (forall i :: 0 <= i < |w.calls| && w.calls[i].phase.Running? ==> agree(w.calls[i].phase.before, w.db))
  {
    var w := Run(m, d, events);
    Invariant(m, d, events);
    forall n | 0 <= n <= |w.calls|
      ensures agree(Serial(w.calls, n, m, d).0, Serial(w.calls, n, m, d).1)
    {
      SerialAgrees(w.calls, n, m, d, agree);
    }
    forall i | 0 <= i < |w.calls| && w.calls[i].phase.Running?
      ensures agree(w.calls[i].phase.before, w.db)
    {
      Runs(w, i, m, d);
    }
  }

  /** Submit, begin, and `k` stretches. */
  ghost function Opening<M, D, L>(c: Call<M, D, L>, k: nat): seq<Event<M, D, L>> {
    if k == 0 then [Submit(c.body, c.start), Begin(0, true)] else Opening(c, k - 1) + [Advance(0, false)]
  }

  lemma RunNext<M, D, L>(m: M, d: D, events: seq<Event<M, D, L>>, e: Event<M, D, L>)
    ensures Run(m, d, events + [e]) == if Enabled(Run(m, d, events), e) then Apply(Run(m, d, events), e) else Run(m, d, events)
  {
    assert (events + [e])[..|events|] == events;
  }

  lemma FirstBegins<M, D, L>(c: Call<M, D, L>, m: M, d: D)
    ensures var w := World(m, d, [Call(c.body, c.start, Waiting)]);
      && Enabled(w, Event<M, D, L>.Begin(0, true))
      && Apply(w, Event<M, D, L>.Begin(0, true)) == World(m, d, [Call(c.body, c.start, Running(m, d, false, 0, c.start))])
  {
  }

  lemma FirstSubmitted<M, D, L>(c: Call<M, D, L>, m: M, d: D)
    ensures Run(m, d, [Event<M, D, L>.Submit(c.body, c.start)]) == World(m, d, [Call(c.body, c.start, Waiting)])
  {
    var submit := Event<M, D, L>.Submit(c.body, c.start);
    RunNext(m, d, [], submit);
    assert [] + [submit] == [submit];
  }

  lemma RunOpening<M, D, L>(c: Call<M, D, L>, m: M, d: D)
    ensures Run(m, d, Opening(c, 0)) ==
            World(m, d, [Call(c.body, c.start, Running(m, d, false, 0, c.start))])
  {
    var first := [Event<M, D, L>.Submit(c.body, c.start)];
    FirstSubmitted(c, m, d);
    FirstBegins(c, m, d);
    RunNext(m, d, first, Begin(0, true));
    assert first + [Event<M, D, L>.Begin(0, true)] == Opening(c, 0);
  }

  /** The queue holds this call alone, which has come to stretch k. */
  ghost predicate AtStretch<M, D, L>(w: World<M, D, L>, c: Call<M, D, L>, m: M, d: D, k: nat) {
    && |w.calls| == 1 && w.db == d && w.calls[0].body == c.body && w.calls[0].start == c.start
    && w.calls[0].phase.Running? && w.calls[0].phase.pc == k && w.calls[0].phase.before == m
  }

  lemma NextStretch<M, D, L>(w: World<M, D, L>, c: Call<M, D, L>, m: M, d: D, k: nat)
    requires Inv(w, m, d) && AtStretch(w, c, m, d, k) && k < |c.body| && Alone(c, m, d).Some?
    ensures Enabled(w, Event<M, D, L>.Advance(0, false))
    ensures AtStretch(Apply(w, Event<M, D, L>.Advance(0, false)), c, m, d, k + 1)
  {
    var run := w.calls[0].phase;
    Runs(w, 0, m, d);
    assert Alone(w.calls[0], m, d) == Alone(c, m, d);
    FailsAlone(c.body, run, w.mem, c.body[k](w.mem, run.work, run.local));
  }

  /** Alone in the queue a body that runs through alone gets through every stretch. */
  lemma {:induction false} GetsOn<M, D, L>(c: Call<M, D, L>, m: M, d: D, k: nat)
    requires k <= |c.body| && Alone(c, m, d).Some?
    ensures AtStretch(Run(m, d, Opening(c, k)), c, m, d, k)
  {
    if k == 0 {
      RunOpening(c, m, d);
    } else {
      GetsOn(c, m, d, k - 1);
      Invariant(m, d, Opening(c, k - 1));
      NextStretch(Run(m, d, Opening(c, k - 1)), c, m, d, k - 1);
      RunNext(m, d, Opening(c, k - 1), Advance(0, false));
    }
  }

  lemma RunWhole<M, D, L>(c: Call<M, D, L>, m: M, d: D) returns (events: seq<Event<M, D, L>>)
    requires Alone(c, m, d).Some?
    ensures var w := Run(m, d, events);
      && |w.calls| == 1 && w.calls[0].body == c.body && w.calls[0].start == c.start
      && w.calls[0].phase == Settled(true) && (w.mem, w.db) == Leaves(c, m, d)
  {
    var opening := Opening(c, |c.body|);
    GetsOn(c, m, d, |c.body|);
    Invariant(m, d, opening);
    RanThrough(Run(m, d, opening), 0, m, d);
    assert Alone(Run(m, d, opening).calls[0], m, d) == Alone(c, m, d);
    RunNext(m, d, opening, Finish(0, true));
    events := opening + [Finish(0, true)];
  }

  /** Every call of the run has this body. */
  ghost predicate AllAre<M, D, L>(w: World<M, D, L>, c: Call<M, D, L>) {
    forall i :: 0 <= i < |w.calls| ==> w.calls[i].body == c.body && w.calls[i].start == c.start
  }

  lemma KeepsAlike<M(!new), D(!new), L>(a: Call<M, D, L>, b: Call<M, D, L>, agree: (M, D) -> bool)
    requires Keeps(a, agree) && a.body == b.body && a.start == b.start
    ensures Keeps(b, agree)
  {
    forall m, d | agree(m, d) && Alone(b, m, d).Some?
      ensures agree(Leaves(b, m, d).0, Leaves(b, m, d).1)
    {
      assert Alone(a, m, d) == Alone(b, m, d);
    }
  }

  /** Every run of units of work with this body, from stores that agree, comes to rest on stores that agree. */
  ghost predicate Survives<M(!new), D(!new), L(!new)>(c: Call<M, D, L>, agree: (M, D) -> bool) {
    forall m, d, events: seq<Event<M, D, L>> ::
      agree(m, d) && AllAre(Run(m, d, events), c) && AtRest(Run(m, d, events)) ==>
        agree(Run(m, d, events).mem, Run(m, d, events).db)
  }

  /** Which bodies are safe: all runs of units of work with this body, from all stores that agree, come to
      rest on stores that agree if and only if the body keeps them in agreement alone, a swallowed SQL
      error counting as a database left as it was. */
  lemma MirrorSurvivesIff<M(!new), D(!new), L(!new)>(c: Call<M, D, L>, agree: (M, D) -> bool)
    ensures Keeps(c, agree) <==> Survives(c, agree)
  {
    if Keeps(c, agree) {
      forall m, d, events: seq<Event<M, D, L>> |
        agree(m, d) && AllAre(Run(m, d, events), c) && AtRest(Run(m, d, events))
        ensures agree(Run(m, d, events).mem, Run(m, d, events).db)
      {
        var calls := Run(m, d, events).calls;
        forall i | 0 <= i < |calls|
          ensures Keeps(calls[i], agree)
        {
          KeepsAlike(c, calls[i], agree);
        }
        MirrorSurvives(m, d, events, agree);
      }
    } else {
      var m, d :| agree(m, d) && Alone(c, m, d).Some? && !agree(Leaves(c, m, d).0, Leaves(c, m, d).1);
      var events := RunWhole(c, m, d);
      assert AllAre(Run(m, d, events), c) && AtRest(Run(m, d, events));
    }
  }

  /** Rethrowing is needed: a body that swallows an SQL error resolves with its memory writes kept and
      its database writes gone. */
  lemma SwallowedErrorSplitsTheStores()
    ensures exists events: seq<Event<int, int, ()>> ::
      var w := Run(0, 0, events);
      |w.calls| == 1 && w.calls[0].phase == Settled(true) && w.mem == 1 && w.db == 0
  {
    var write: Segment<int, int, ()> := (m: int, d: int, l: ()) => Swallows(m + 1, l);
    var events: seq<Event<int, int, ()>> := [Submit([write], ()), Begin(0, true), Advance(0, false), Finish(0, true)];
    var w0: World<int, int, ()> := World(0, 0, []);
    var w1, w2 := Apply(w0, events[0]), Apply(Apply(w0, events[0]), events[1]);
    var w3 := Apply(w2, events[2]);
    assert events[..1][..0] == [] && Run(0, 0, events[..1]) == w1;
    assert events[..2][..1] == events[..1] && Run(0, 0, events[..2]) == w2;
    assert events[..3][..2] == events[..2] && Run(0, 0, events[..3]) == w3;
    assert events[..3] == events[..|events| - 1] && Run(0, 0, events) == Apply(w3, events[3]);
  }

  // ── The DDL chain ──

  datatype Ddl<D> = Ran(d: D) | Failed(code: string)

  /** "Already exists": the codes two booting modules can provoke in one another. */
  predicate Harmless(code: string) {
    code == "42P07" || code == "42710" || code == "23505"
  }

  /** A DDL task is a queue entry whose body is one statement. */
  ghost function DdlCall<D>(statement: D -> Ddl<D>): Call<(), D, ()> {
    var stretch: Segment<(), D, ()> := (m: (), d: D, l: ()) =>
      match statement(d)
      case Ran(d') => Sql(m, d', l)
      case Failed(code) => if Harmless(code) then Next(m, l) else Throws;
    Call([stretch], (), Waiting)
  }

  ghost function Answer<D>(statement: D -> Ddl<D>, d: D): Option<((), D, bool)> {
    match statement(d)
    case Ran(d') => Some(((), d', false))
    case Failed(code) => if Harmless(code) then Some(((), d, false)) else None
  }

  lemma DdlAlone<D>(statement: D -> Ddl<D>, c: Call<(), D, ()>, d: D)
    requires c.body == DdlCall(statement).body && c.start == ()
    ensures Alone(c, (), d) == Answer(statement, d)
  {
    var to := c.body[0]((), d, ());
    assert to == match statement(d)
                 case Ran(d') => Sql((), d', ())
                 case Failed(code) => if Harmless(code) then Next((), ()) else Throws;
  }

  ghost predicate ChainAt<D>(calls: seq<Call<(), D, ()>>, statements: seq<D -> Ddl<D>>, i: nat)
    requires i < |calls| && i < |statements|
  {
    calls[i].body == DdlCall(statements[i]).body
  }

  /** The queue holds the tasks of these statements. */
  ghost predicate Chain<D>(calls: seq<Call<(), D, ()>>, statements: seq<D -> Ddl<D>>) {
    |calls| == |statements| && forall i :: 0 <= i < |calls| ==> ChainAt(calls, statements, i)
  }

  /** The schema after the first n statements in call order: one that ran applies; one that failed, or whose
      connection did, changes nothing. */
  ghost function Schema<D>(events: seq<Event<(), D, ()>>, statements: seq<D -> Ddl<D>>, n: nat, d: D): D
    requires n <= |statements|
  {
    if n == 0 then d
    else
      var before := Schema(events, statements, n - 1, d);
      if !Struck((), d, events, n - 1) && statements[n - 1](before).Ran? then statements[n - 1](before).d else before
  }

  lemma NextIsSchema<D>(events: seq<Event<(), D, ()>>, statements: seq<D -> Ddl<D>>, n: nat, d: D, before: D)
    requires Chain(Run((), d, events).calls, statements) && n < |statements|
    requires Run((), d, events).calls[n].phase.Settled?
    requires Serial(Run((), d, events).calls, n, (), d) == ((), before)
    ensures Serial(Run((), d, events).calls, n + 1, (), d) ==
            ((), if !Struck((), d, events, n) && statements[n](before).Ran? then statements[n](before).d else before)
  {
    OwnOutcome((), d, events, n);
    assert ChainAt(Run((), d, events).calls, statements, n);
    DdlAlone(statements[n], Run((), d, events).calls[n], before);
  }

  lemma {:induction false} SerialIsSchema<D>(events: seq<Event<(), D, ()>>, statements: seq<D -> Ddl<D>>, n: nat, d: D)
    requires Chain(Run((), d, events).calls, statements) && n <= |statements|
    requires forall i :: 0 <= i < n ==> Run((), d, events).calls[i].phase.Settled?
    ensures Serial(Run((), d, events).calls, n, (), d) == ((), Schema(events, statements, n, d))
  {
    if n > 0 {
      SerialIsSchema(events, statements, n - 1, d);
      NextIsSchema(events, statements, n - 1, d, Schema(events, statements, n - 1, d));
    }
  }

  /** In every run of the chain, whatever faults hit it: a settled task resolved if and only if no fault hit
      it and its statement ran or failed harmlessly on the schema of its turn; and once all have settled,
      the schema is what the statements make of it in call order. */
  lemma DdlChain<D>(events: seq<Event<(), D, ()>>, statements: seq<D -> Ddl<D>>, d: D)
    requires Chain(Run((), d, events).calls, statements)
    ensures var w := Run((), d, events);
      && (forall i :: 0 <= i < |w.calls| && w.calls[i].phase.Settled? ==>
            var answer := statements[i](Schema(events, statements, i, d));
            w.calls[i].phase.resolved <==>
              !Struck((), d, events, i) && (answer.Ran? || Harmless(answer.code)))
      && ((forall i :: 0 <= i < |w.calls| ==> w.calls[i].phase.Settled?) ==>
            w.db == Schema(events, statements, |statements|, d))
  {
    var w := Run((), d, events);
    Invariant((), d, events);
    forall i | 0 <= i < |w.calls| && w.calls[i].phase.Settled?
      ensures var answer := statements[i](Schema(events, statements, i, d));
        w.calls[i].phase.resolved <==> !Struck((), d, events, i) && (answer.Ran? || Harmless(answer.code))
    {
      SerialIsSchema(events, statements, i, d);
      OwnOutcome((), d, events, i);
      assert ChainAt(w.calls, statements, i);
      DdlAlone(statements[i], w.calls[i], Schema(events, statements, i, d));
    }
    if forall i :: 0 <= i < |w.calls| ==> w.calls[i].phase.Settled? {
      SerialIsSchema(events, statements, |statements|, d);
    }
  }
}
