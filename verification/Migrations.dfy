/** Crash-resumable schema migrations: runners that take a session lock, work in short transactions,
    read the catalog back, and only then write the ledger row. */
module Migrations {

  datatype Id = ScheduleRequestV2 | AuthRefreshToken | EnrollmentPayout

  /** How a runner cuts its work into transactions. */
  datatype Style = PerConstraint | ThreeTransactions | OneTransactionThenIndexes

  datatype Migration = Migration(
    id: Id, style: Style, lock: (int, int), constraints: seq<string>, indexes: seq<string>)

  const SCHEDULE_REQUEST_V2 := Migration(ScheduleRequestV2, PerConstraint, (77, 31),
    ["c_schedule_requests_kind_required_v2", "c_schedule_requests_decision_complete_v2",
     "c_schedule_requests_time_semantics_v2", "c_schedule_requests_domain_semantics_v2"], [])

  const AUTH_REFRESH_TOKEN := Migration(AuthRefreshToken, ThreeTransactions, (76, 8),
    ["fk_auth_refresh_user", "fk_auth_refresh_replaced_by",
     "c_auth_refresh_not_self_replaced", "c_auth_refresh_expiry_after_create"],
    ["idx_auth_refresh_tokens_replaced_by"])

  const ENROLLMENT_PAYOUT := Migration(EnrollmentPayout, OneTransactionThenIndexes, (77, 31),
    ["fk_enrollments_student", "fk_enrollments_course", "fk_enrollments_counsel", "fk_enrollments_instructor",
     "fk_enrollments_deleted_by", "fk_payouts_instructor", "fk_payouts_deleted_by", "fk_class_sessions_enrollment",
     "fk_class_sessions_payout", "fk_class_sessions_paid_payout", "c_enrollments_status_enum",
     "c_enrollments_dates", "c_enrollments_session_counts", "c_payouts_status_enum", "c_payouts_period",
     "c_payouts_nonnegative", "c_payouts_effective_amount", "c_payouts_lines_shape",
     "c_payouts_decision_timestamps"],
    ["idx_enrollments_counsel_card_all", "idx_enrollments_instructor_all", "idx_enrollments_deleted_by_all",
     "idx_payouts_instructor_all", "idx_payouts_deleted_by_all", "idx_sessions_enrollment_all",
     "idx_sessions_payout_all", "idx_sessions_paid_payout_all"])

  function MigrationOf(id: Id): Migration {
    match id
    case ScheduleRequestV2 => SCHEDULE_REQUEST_V2
    case AuthRefreshToken => AUTH_REFRESH_TOKEN
    case EnrollmentPayout => ENROLLMENT_PAYOUT
  }

  /** What survives a crash: constraints with `convalidated`, indexes with `indisvalid`, the ledger and
      whether it has a table at all. The names in `foreign` belong to constraints of another definition than the
      migration's. */
  datatype Db = Db(
    catalog: map<string, bool>, indexes: map<string, bool>, ledger: set<Id>, ledgerTable: bool, foreign: set<string>)

  datatype Instr =
    | Gate(andLedger: bool)       // the preflight over the data, and a look into the ledger
    | Lock
    | AddMissing(names: seq<string>)
    | AddUnlessApplied            // ledger table and test, gate, constraints and plain index in one transaction
    | Validate(names: seq<string>)
    | GateAddValidate             // gate, constraints and their validation in one transaction
    | BeginIndex(name: string)    // CREATE INDEX CONCURRENTLY IF NOT EXISTS: the invalid entry ...
    | EndIndex(name: string)      // ... and the moment it turns valid
    | Readback(ownConnection: bool)
    | WriteLedger
    | Unlock
    | FinalReadback

  /** The steps before the closing four. */
  function WorkLength(m: Migration): nat {
    match m.style
    case PerConstraint => 2 * |m.constraints| + 2
    case ThreeTransactions => 3
    case OneTransactionThenIndexes => 2 * |m.indexes| + 3
  }

  function Length(m: Migration): nat {
    WorkLength(m) + 4
  }

  function WorkAt(m: Migration, pc: nat): Instr
    requires pc < WorkLength(m)
  {
    match m.style
    case PerConstraint =>
      if pc == 0 then Gate(true)
      else if pc == 1 then Lock
      else if pc % 2 == 0 then AddMissing([m.constraints[pc / 2 - 1]])
      else Validate([m.constraints[pc / 2 - 1]])
    case ThreeTransactions =>
      if pc == 0 then Lock else if pc == 1 then AddUnlessApplied else Validate(m.constraints)
    case OneTransactionThenIndexes =>
      if pc == 0 then Gate(false)
      else if pc == 1 then Lock
      else if pc == 2 then GateAddValidate
      else if pc % 2 == 1 then BeginIndex(m.indexes[pc / 2 - 1])
      else EndIndex(m.indexes[pc / 2 - 2])
  }

  /** All three close alike; only the refresh-token runner reads back over a second connection. */
  function InstrAt(m: Migration, pc: nat): Instr
    requires pc < Length(m)
  {
    if pc < WorkLength(m) then WorkAt(m, pc)
    else if pc == WorkLength(m) then Readback(!m.style.ThreeTransactions?)
    else if pc == WorkLength(m) + 1 then WriteLedger
    else if pc == WorkLength(m) + 2 then Unlock
    else FinalReadback
  }

  /** What the data and the connection make of a step: whether the gate passes, which constraints some
      row breaks, and whether the statement fails for a reason of its own. */
  datatype Env = Env(gate: bool, broken: set<string>, fault: bool)

  /** Every listed constraint is there and validated, every listed index is there, and valid where it
      was built concurrently. */
  ghost predicate Complete(m: Migration, db: Db) {
    && (forall c :: c in m.constraints ==> c in db.catalog && db.catalog[c])
    && (forall x :: x in m.indexes ==> x in db.indexes && (m.style.OneTransactionThenIndexes? ==> db.indexes[x]))
  }

  /** Every listed constraint has the migration's own definition; only the refresh-token runner looks. */
  predicate OwnDefinitions(m: Migration, db: Db) {
    forall c :: c in m.constraints ==> c !in db.foreign
  }

  function Add(catalog: map<string, bool>, names: seq<string>): map<string, bool> {
    map c | c in catalog.Keys + (set n | n in names) :: if c in catalog then catalog[c] else false
  }

  /** VALIDATE CONSTRAINT for the named constraints the catalog has. */
  function Validated(catalog: map<string, bool>, names: seq<string>): map<string, bool> {
    map c | c in catalog :: catalog[c] || c in names
  }

  /** Some named constraint still has to be validated and a row breaks it. */
  predicate Breaks(catalog: map<string, bool>, names: seq<string>, broken: set<string>) {
    exists c :: c in names && c in catalog && !catalog[c] && c in broken
  }

  datatype Effect = Next(db: Db, building: bool) | SkipToUnlock | Throw

  /** One instruction. Only AddUnlessApplied creates the ledger's table; reading or writing a missing one is an
      error, but for the refresh-token runner, who asks before it reads. `poolMax` is the pool size, of which the
      runner itself holds one connection. */
  ghost function Exec(m: Migration, instr: Instr, db: Db, building: bool, poolMax: nat, env: Env): Effect {
    if env.fault then Throw
    else match instr
      case Gate(andLedger) => if env.gate && (andLedger ==> db.ledgerTable) then Next(db, building) else Throw
      case Lock => Next(db, building)
      case AddMissing(names) => Next(db.(catalog := Add(db.catalog, names)), building)
      case AddUnlessApplied =>
        if m.id in db.ledger then SkipToUnlock
        else if !env.gate then Throw
        else Next(db.(catalog := Add(db.catalog, m.constraints),
                      indexes := db.indexes + (map x | x in m.indexes && x !in db.indexes :: true),
                      ledgerTable := true), building)
      case Validate(names) =>
        if Breaks(db.catalog, names, env.broken) then Throw
        else Next(db.(catalog := Validated(db.catalog, names)), building)
      case GateAddValidate =>
        var added := Add(db.catalog, m.constraints);
        if !env.gate || Breaks(added, m.constraints, env.broken) then Throw
        else Next(db.(catalog := Validated(added, m.constraints)), building)
      case BeginIndex(name) =>
        if name in db.indexes then Next(db, false) else Next(db.(indexes := db.indexes[name := false]), true)
      case EndIndex(name) =>
        if building then Next(db.(indexes := db.indexes[name := true]), false) else Next(db, false)
      case Readback(own) =>
        if (if own then db.ledgerTable else 2 <= poolMax) && Complete(m, db) then Next(db, building) else Throw
      case WriteLedger =>
        if !db.ledgerTable || (m.style.ThreeTransactions? && m.id in db.ledger) then Throw
        else Next(db.(ledger := db.ledger + {m.id}), building)
      case Unlock => Next(db, building)
      case FinalReadback =>
        if m.id in db.ledger && Complete(m, db) && (m.style.ThreeTransactions? ==> OwnDefinitions(m, db))
        then Next(db, building) else Throw
  }

  datatype Status = Live | Done | Failed | Crashed

  datatype Runner = Runner(id: Id, poolMax: nat, pc: nat, building: bool, status: Status)

  datatype World = World(db: Db, owner: map<(int, int), nat>, runners: seq<Runner>)

  datatype Event = Launch(id: Id, poolMax: nat) | Step(r: nat, env: Env) | Crash(r: nat)

  /** Runner `r` of migration `m` is not waiting for its lock. */
  ghost predicate CanStep(m: Migration, w: World, r: nat) {
    && r < |w.runners| && w.runners[r].status.Live?
    && w.runners[r].pc < Length(m)
    && (InstrAt(m, w.runners[r].pc).Lock? ==> m.lock !in w.owner)
  }

  ghost predicate Enabled(w: World, e: Event) {
    match e
    case Launch(_, _) => true
    case Crash(r) => r < |w.runners| && w.runners[r].status.Live?
    case Step(r, _) => r < |w.runners| && CanStep(MigrationOf(w.runners[r].id), w, r)
  }

  /** The session lock falls with its connection. */
  ghost function Unlocked(w: World, r: nat): map<(int, int), nat> {
    map k | k in w.owner && w.owner[k] != r :: w.owner[k]
  }

  ghost function Ended(w: World, r: nat, status: Status): World
    requires r < |w.runners|
  {
    World(w.db, Unlocked(w, r), w.runners[r := w.runners[r].(status := status)])
  }

  /** The runner after instruction `instr` went well. */
  ghost function Advanced(m: Migration, w: World, r: nat, instr: Instr, db: Db, building: bool): World
    requires r < |w.runners|
  {
    var runner := w.runners[r];
    var owner := if instr.Lock? then w.owner[m.lock := r] else if instr.Unlock? then Unlocked(w, r) else w.owner;
    var status := if runner.pc + 1 == Length(m) then Done else Live;
    World(db, owner, w.runners[r := runner.(pc := runner.pc + 1, building := building, status := status)])
  }

  ghost function Stepped(m: Migration, w: World, r: nat, env: Env): World
    requires CanStep(m, w, r)
  {
    var runner := w.runners[r];
    var instr := InstrAt(m, runner.pc);
    match Exec(m, instr, w.db, runner.building, runner.poolMax, env)
    case Next(db, building) => Advanced(m, w, r, instr, db, building)
    case SkipToUnlock => w.(runners := w.runners[r := runner.(pc := Length(m) - 2)])
    case Throw => Ended(w, r, Failed)
  }

  ghost function Apply(w: World, e: Event): World
    requires Enabled(w, e)
  {
    match e
    case Launch(id, poolMax) => w.(runners := w.runners + [Runner(id, poolMax, 0, false, Live)])
    case Crash(r) => Ended(w, r, Crashed)
    case Step(r, env) => Stepped(MigrationOf(w.runners[r].id), w, r, env)
  }

  ghost function Run(w: World, events: seq<Event>): World
    decreases |events|
  {
    if events == [] then w
    else
      var v := Run(w, events[..|events| - 1]);
      if Enabled(v, events[|events| - 1]) then Apply(v, events[|events| - 1]) else v
  }

  // ── Safety ──

  /** A ledger row is only ever written over, and stays written over, a complete schema. */
  ghost predicate LedgerIsTrue(db: Db) {
    forall id: Id :: id in db.ledger ==> db.ledgerTable && Complete(MigrationOf(id), db)
  }

  ghost predicate Inv(w: World) {
    && LedgerIsTrue(w.db)
    && (forall r :: 0 <= r < |w.runners| ==> RunnerOk(MigrationOf(w.runners[r].id), w.runners[r], w.db))
  }

  /** The ledger write is behind a runner that has come to its unlock or beyond. */
  predicate LedgerBehind(m: Migration, pc: nat)
    requires pc < Length(m)
  {
    Length(m) - 2 <= pc
  }

  /** Nothing is ever dropped or invalidated. */
  predicate Grows(a: Db, b: Db) {
    && a.ledger <= b.ledger && (a.ledgerTable ==> b.ledgerTable) && a.foreign == b.foreign
    && (forall c :: c in a.catalog ==> c in b.catalog && (a.catalog[c] ==> b.catalog[c]))
    && (forall x :: x in a.indexes ==> x in b.indexes && (a.indexes[x] ==> b.indexes[x]))
  }

  lemma ExecGrows(m: Migration, instr: Instr, db: Db, building: bool, poolMax: nat, env: Env)
    ensures var to := Exec(m, instr, db, building, poolMax, env);
      to.Next? ==> Grows(db, to.db)
  {
  }

  lemma CompleteGrows(m: Migration, a: Db, b: Db)
    requires Complete(m, a) && Grows(a, b)
    ensures Complete(m, b)
  {
  }

  lemma LedgerStaysTrue(a: Db, b: Db)
    requires LedgerIsTrue(a) && Grows(a, b)
    requires forall id: Id :: id in b.ledger && id !in a.ledger ==> a.ledgerTable && Complete(MigrationOf(id), a)
    ensures LedgerIsTrue(b)
  {
    forall id: Id | id in b.ledger
      ensures b.ledgerTable && Complete(MigrationOf(id), b)
    {
      CompleteGrows(MigrationOf(id), a, b);
    }
  }

  /** What the invariant says of one runner of migration `m`. */
  ghost predicate RunnerOk(m: Migration, runner: Runner, db: Db) {
    && (runner.status.Live? ==>
          && runner.pc < Length(m)
          && (InstrAt(m, runner.pc).WriteLedger? ==> Complete(m, db))
          && (LedgerBehind(m, runner.pc) ==> m.id in db.ledger))
    && (runner.status.Done? ==> m.id in db.ledger)
  }

  lemma RunnerStaysOk(m: Migration, runner: Runner, a: Db, b: Db)
    requires RunnerOk(m, runner, a) && Grows(a, b)
    ensures RunnerOk(m, runner, b)
  {
    if Complete(m, a) {
      CompleteGrows(m, a, b);
    }
  }

  lemma SteppedRunnerOk(m: Migration, runner: Runner, db: Db, env: Env)
    requires RunnerOk(m, runner, db) && runner.status.Live?
    ensures var to := Exec(m, InstrAt(m, runner.pc), db, runner.building, runner.poolMax, env);
      && (to.Next? ==>
            && Grows(db, to.db)
            && (forall id: Id :: id in to.db.ledger && id !in db.ledger ==> id == m.id && db.ledgerTable && Complete(m, db))
            && RunnerOk(m, runner.(pc := runner.pc + 1, building := to.building,
                                   status := if runner.pc + 1 == Length(m) then Done else Live), to.db))
      && (to.SkipToUnlock? ==> RunnerOk(m, runner.(pc := Length(m) - 2), db))
  {
    ExecGrows(m, InstrAt(m, runner.pc), db, runner.building, runner.poolMax, env);
  }

  lemma IdOfMigrationOf(id: Id)
    ensures MigrationOf(id).id == id
  {
  }

  lemma InvStep(w: World, e: Event)
    requires Inv(w) && Enabled(w, e)
    ensures Inv(Apply(w, e)) && Grows(w.db, Apply(w, e).db)
  {
    if e.Step? {
      var runner := w.runners[e.r];
      IdOfMigrationOf(runner.id);
      SteppedRunnerOk(MigrationOf(runner.id), runner, w.db, e.env);
    }
    var v := Apply(w, e);
    LedgerStaysTrue(w.db, v.db);
    forall r | 0 <= r < |w.runners|
      ensures RunnerOk(MigrationOf(w.runners[r].id), w.runners[r], v.db)
    {
      RunnerStaysOk(MigrationOf(w.runners[r].id), w.runners[r], w.db, v.db);
    }
  }

  lemma {:induction false} Invariant(w: World, events: seq<Event>)
    requires Inv(w)
    ensures Inv(Run(w, events)) && Grows(w.db, Run(w, events).db)
    decreases |events|
  {
    if events != [] {
      var before := events[..|events| - 1];
      Invariant(w, before);
      if Enabled(Run(w, before), events[|events| - 1]) {
        InvStep(Run(w, before), events[|events| - 1]);
      }
    }
  }

  lemma DoneMeansLedger(m: Migration, w: World, r: nat)
    requires Inv(w) && r < |w.runners| && w.runners[r].status.Done? && m == MigrationOf(w.runners[r].id)
    ensures w.runners[r].id in w.db.ledger && Complete(m, w.db)
  {
    IdOfMigrationOf(w.runners[r].id);
    assert RunnerOk(m, w.runners[r], w.db);
  }

  /** Safety over crashes and concurrent runners: from any database whose ledger is true, a ledger row is
      only ever seen over complete constraints and indexes, and a runner that ended well left one. */
  lemma LedgerMeansComplete(db: Db, events: seq<Event>, id: Id)
    requires LedgerIsTrue(db)
    ensures var w := Run(World(db, map[], []), events);
      && (id in w.db.ledger ==> Complete(MigrationOf(id), w.db))
      && (forall r :: 0 <= r < |w.runners| && w.runners[r].status.Done? ==>
            w.runners[r].id in w.db.ledger && Complete(MigrationOf(w.runners[r].id), w.db))
  {
    Invariant(World(db, map[], []), events);
    var w := Run(World(db, map[], []), events);
    forall r | 0 <= r < |w.runners| && w.runners[r].status.Done?
      ensures w.runners[r].id in w.db.ledger && Complete(MigrationOf(w.runners[r].id), w.db)
    {
      DoneMeansLedger(MigrationOf(w.runners[r].id), w, r);
    }
  }

  // ── Mutual exclusion under the session lock ──

  function LockPc(m: Migration): nat {
    if m.style.ThreeTransactions? then 0 else 1
  }

  /** The runner has taken its lock and not yet given it back. */
  predicate Inside(runner: Runner) {
    var m := MigrationOf(runner.id);
    runner.status.Live? && LockPc(m) < runner.pc <= WorkLength(m) + 2
  }

  predicate Exclusive(w: World) {
    forall r :: 0 <= r < |w.runners| && Inside(w.runners[r]) ==>
      var lock := MigrationOf(w.runners[r].id).lock;
      lock in w.owner && w.owner[lock] == r
  }

  lemma LockAndUnlockAt(m: Migration, pc: nat)
    requires pc < Length(m)
    ensures InstrAt(m, pc).Lock? <==> pc == LockPc(m)
    ensures InstrAt(m, pc).Unlock? <==> pc == WorkLength(m) + 2
    ensures InstrAt(m, pc).AddUnlessApplied? ==> pc > LockPc(m)
  {
  }

  lemma ExclusiveStep(w: World, e: Event)
    requires Exclusive(w) && Enabled(w, e)
    ensures Exclusive(Apply(w, e))
  {
    if e.Step? {
      LockAndUnlockAt(MigrationOf(w.runners[e.r].id), w.runners[e.r].pc);
    }
    var v := Apply(w, e);
    forall r | 0 <= r < |v.runners| && Inside(v.runners[r])
      ensures var lock := MigrationOf(v.runners[r].id).lock; lock in v.owner && v.owner[lock] == r
    {
      if r < |w.runners| && !(e.Step? && e.r == r) {
        assert Inside(w.runners[r]);
      }
    }
  }

  lemma {:induction false} ExclusiveRun(w: World, events: seq<Event>)
    requires Exclusive(w)
    ensures Exclusive(Run(w, events))
    decreases |events|
  {
    if events != [] {
      ExclusiveRun(w, events[..|events| - 1]);
      if Enabled(Run(w, events[..|events| - 1]), events[|events| - 1]) {
        ExclusiveStep(Run(w, events[..|events| - 1]), events[|events| - 1]);
      }
    }
  }

  /** No two runners are ever at work under one lock, not even one of each of the two migrations that
      share the key (77, 31). */
  lemma OneRunnerPerLock(db: Db, events: seq<Event>, r: nat, q: nat)
    requires var w := Run(World(db, map[], []), events);
      && r < |w.runners| && q < |w.runners|
      && Inside(w.runners[r]) && Inside(w.runners[q])
      && MigrationOf(w.runners[r].id).lock == MigrationOf(w.runners[q].id).lock
    ensures r == q
  {
    ExclusiveRun(World(db, map[], []), events);
  }

  // ── Convergence of a rerun that nothing interrupts ──

  /** The runner alone, from `pc` to the end: the database it leaves and whether it ended well. */
  ghost function Solo(m: Migration, pc: nat, building: bool, db: Db, poolMax: nat, env: Env): (Db, bool)
    requires pc <= Length(m)
    decreases Length(m) - pc
  {
    if pc == Length(m) then (db, true)
    else match Exec(m, InstrAt(m, pc), db, building, poolMax, env)
      case Next(to, building') => Solo(m, pc + 1, building', to, poolMax, env)
      case SkipToUnlock => if pc < Length(m) - 2 then Solo(m, Length(m) - 2, building, db, poolMax, env) else (db, false)
      case Throw => (db, false)
  }

  /** Every listed constraint is already validated or no row breaks it. */
  ghost predicate DataAllows(m: Migration, db: Db, broken: set<string>) {
    forall c :: c in m.constraints ==> (c in db.catalog && db.catalog[c]) || c !in broken
  }

  /** No listed index is the invalid remainder of an interrupted concurrent build. */
  ghost predicate NoInvalidIndex(m: Migration, db: Db) {
    forall x :: x in m.indexes && x in db.indexes ==> db.indexes[x]
  }

  /** Who ends well has read back its ledger row over a complete schema. */
  lemma {:induction false} SoloEndsWell(m: Migration, pc: nat, building: bool, db: Db, poolMax: nat, env: Env)
    requires pc < Length(m)
    ensures var end := Solo(m, pc, building, db, poolMax, env);
      end.1 ==> m.id in end.0.ledger && Complete(m, end.0)
    decreases Length(m) - pc
  {
    match Exec(m, InstrAt(m, pc), db, building, poolMax, env)
    case Next(to, building') =>
      if pc + 1 < Length(m) {
        SoloEndsWell(m, pc + 1, building', to, poolMax, env);
      }
    case SkipToUnlock =>
      if pc < Length(m) - 2 {
        SoloEndsWell(m, Length(m) - 2, building, db, poolMax, env);
      }
    case Throw =>
  }

  lemma UnlockAndReadback(m: Migration, building: bool, db: Db, poolMax: nat, env: Env)
    requires !env.fault && m.id in db.ledger
    ensures Solo(m, WorkLength(m) + 2, building, db, poolMax, env)
         == (db, Complete(m, db) && (m.style.ThreeTransactions? ==> OwnDefinitions(m, db)))
  {
    var n, ends := WorkLength(m), Complete(m, db) && (m.style.ThreeTransactions? ==> OwnDefinitions(m, db));
    assert Solo(m, n + 3, building, db, poolMax, env) == (db, ends);
    assert Solo(m, n + 2, building, db, poolMax, env) == Solo(m, n + 3, building, db, poolMax, env);
  }

  /** The closing four: readback, ledger, unlock, readback. */
  lemma Closing(m: Migration, building: bool, db: Db, poolMax: nat, env: Env)
    requires !env.fault
    ensures var end := Solo(m, WorkLength(m), building, db, poolMax, env);
      && (end.1 <==>
            && Complete(m, db) && db.ledgerTable
            && (m.style.ThreeTransactions? ==> 2 <= poolMax && m.id !in db.ledger && OwnDefinitions(m, db)))
      && (m.id in end.0.ledger <==>
            m.id in db.ledger || (Complete(m, db) && db.ledgerTable && (m.style.ThreeTransactions? ==> 2 <= poolMax)))
  {
    var n := WorkLength(m);
    var after := db.(ledger := db.ledger + {m.id});
    assert Complete(m, db) ==> Complete(m, after);
    UnlockAndReadback(m, building, after, poolMax, env);
    if Complete(m, db) && db.ledgerTable && (m.style.ThreeTransactions? ==> m.id !in db.ledger) {
      assert Solo(m, n + 1, building, db, poolMax, env) == Solo(m, n + 2, building, after, poolMax, env);
    }
  }

  /** What adding and validating one constraint does to the catalog. */
  lemma OneConstraint(m: Migration, db: Db, c: string, broken: set<string>)
    requires c in m.constraints
    ensures var added := Add(db.catalog, [c]);
      && (Breaks(added, [c], broken) <==> !(c in db.catalog && db.catalog[c]) && c in broken)
      && (!Breaks(added, [c], broken) ==>
            var next := db.(catalog := Validated(added, [c]));
            && c in next.catalog && next.catalog[c]
            && (forall d :: d in db.catalog && db.catalog[d] ==> d in next.catalog && next.catalog[d])
            && (DataAllows(m, next, broken) <==> DataAllows(m, db, broken)))
  {
    assert c in [c];
    var added := Add(db.catalog, [c]);
    var next := db.(catalog := Validated(added, [c]));
    assert forall d :: d != c ==> (d in next.catalog <==> d in db.catalog);
    assert forall d :: d != c && d in db.catalog ==> next.catalog[d] == db.catalog[d];
  }

  /** One turn of the schedule-request loop. */
  lemma SoloConstraint(m: Migration, k: nat, building: bool, db: Db, poolMax: nat, env: Env)
    requires m.style.PerConstraint? && k < |m.constraints| && !env.fault
    ensures var c := [m.constraints[k]];
      var added := Add(db.catalog, c);
      && (Breaks(added, c, env.broken) ==> !Solo(m, 2 * k + 2, building, db, poolMax, env).1)
      && (!Breaks(added, c, env.broken) ==>
            Solo(m, 2 * k + 2, building, db, poolMax, env) ==
            Solo(m, 2 * (k + 1) + 2, building, db.(catalog := Validated(added, c)), poolMax, env))
  {
    AtConstraint(m, k);
    assert 2 * k + 3 + 1 == 2 * (k + 1) + 2;
    var added := db.(catalog := Add(db.catalog, [m.constraints[k]]));
    assert Solo(m, 2 * k + 2, building, db, poolMax, env) == Solo(m, 2 * k + 3, building, added, poolMax, env);
  }

  ghost predicate ValidatedUpTo(m: Migration, k: nat, db: Db)
    requires k <= |m.constraints|
  {
    forall j :: 0 <= j < k ==> m.constraints[j] in db.catalog && db.catalog[m.constraints[j]]
  }

  /** The same turn by what it leaves: `next` has the constraint validated and lost nothing. */
  lemma ConstraintTurn(m: Migration, k: nat, building: bool, db: Db, poolMax: nat, env: Env) returns (next: Db)
    requires m.style.PerConstraint? && k < |m.constraints| && !env.fault
    ensures next.ledgerTable == db.ledgerTable
    ensures ValidatedUpTo(m, k, db) ==> ValidatedUpTo(m, k + 1, next)
    ensures ((Solo(m, 2 * k + 2, building, db, poolMax, env) == Solo(m, 2 * (k + 1) + 2, building, next, poolMax, env)
              && (DataAllows(m, next, env.broken) <==> DataAllows(m, db, env.broken)))
             || (!Solo(m, 2 * k + 2, building, db, poolMax, env).1 && !DataAllows(m, db, env.broken)))
  {
    var c := m.constraints[k];
    OneConstraint(m, db, c, env.broken);
    SoloConstraint(m, k, building, db, poolMax, env);
    next := db.(catalog := Validated(Add(db.catalog, [c]), [c]));
  }

  lemma AllConstraintsTurned(m: Migration, building: bool, db: Db, poolMax: nat, env: Env)
    requires m.style.PerConstraint? && m.indexes == [] && !env.fault
    requires ValidatedUpTo(m, |m.constraints|, db) && db.ledgerTable
    ensures Solo(m, 2 * |m.constraints| + 2, building, db, poolMax, env).1
    ensures DataAllows(m, db, env.broken)
  {
    Closing(m, building, db, poolMax, env);
  }

  /** The schedule-request loop from its `k`-th constraint on. */
  lemma {:induction false} PerConstraintLoop(m: Migration, k: nat, building: bool, db: Db, poolMax: nat, env: Env)
    requires m.style.PerConstraint? && m.indexes == [] && k <= |m.constraints| && !env.fault
    requires ValidatedUpTo(m, k, db) && db.ledgerTable
    ensures Solo(m, 2 * k + 2, building, db, poolMax, env).1 <==> DataAllows(m, db, env.broken)
    decreases |m.constraints| - k
  {
    if k == |m.constraints| {
      AllConstraintsTurned(m, building, db, poolMax, env);
    } else {
      var next := ConstraintTurn(m, k, building, db, poolMax, env);
      PerConstraintLoop(m, k + 1, building, next, poolMax, env);
    }
  }

  lemma AtConstraint(m: Migration, k: nat)
    requires m.style.PerConstraint? && k < |m.constraints|
    ensures InstrAt(m, 2 * k + 2) == AddMissing([m.constraints[k]])
    ensures InstrAt(m, 2 * k + 3) == Validate([m.constraints[k]])
  {
  }

  lemma AtIndex(m: Migration, k: nat)
    requires m.style.OneTransactionThenIndexes? && k < |m.indexes|
    ensures InstrAt(m, 2 * k + 3) == BeginIndex(m.indexes[k])
    ensures InstrAt(m, 2 * k + 4) == EndIndex(m.indexes[k])
  {
  }

  /** One turn of the payout runner's loop over its index statements. */
  lemma SoloIndex(m: Migration, k: nat, building: bool, db: Db, poolMax: nat, env: Env)
    requires m.style.OneTransactionThenIndexes? && k < |m.indexes| && !env.fault
    ensures var x := m.indexes[k];
      var built := if x in db.indexes then db else db.(indexes := db.indexes[x := true]);
      Solo(m, 2 * k + 3, building, db, poolMax, env) == Solo(m, 2 * (k + 1) + 3, false, built, poolMax, env)
  {
    var x := m.indexes[k];
    AtIndex(m, k);
    var begun := if x in db.indexes then db else db.(indexes := db.indexes[x := false]);
    assert Solo(m, 2 * k + 3, building, db, poolMax, env) ==
           Solo(m, 2 * k + 4, x !in db.indexes, begun, poolMax, env);
    if x !in db.indexes {
      assert begun.(indexes := begun.indexes[x := true]) == db.(indexes := db.indexes[x := true]);
    }
  }

  /** The payout runner's index statements from the `k`-th on. */
  lemma {:induction false} IndexLoop(m: Migration, k: nat, building: bool, db: Db, poolMax: nat, env: Env)
    requires m.style.OneTransactionThenIndexes? && k <= |m.indexes| && !env.fault
    requires forall c :: c in m.constraints ==> c in db.catalog && db.catalog[c]
    requires forall j :: 0 <= j < k ==> m.indexes[j] in db.indexes
    ensures Solo(m, 2 * k + 3, building, db, poolMax, env).1 <==> NoInvalidIndex(m, db) && db.ledgerTable
    decreases |m.indexes| - k
  {
    if k == |m.indexes| {
      Closing(m, building, db, poolMax, env);
    } else {
      var x := m.indexes[k];
      var built := if x in db.indexes then db else db.(indexes := db.indexes[x := true]);
      SoloIndex(m, k, building, db, poolMax, env);
      IndexLoop(m, k + 1, false, built, poolMax, env);
      assert NoInvalidIndex(m, built) <==> NoInvalidIndex(m, db);
    }
  }

  /** When the work of a runner that has it to do comes to the ledger row, if nothing goes wrong that is not
      the data's fault. */
  ghost predicate CanWork(m: Migration, db: Db, poolMax: nat, env: Env) {
    match m.style
    case PerConstraint => env.gate && DataAllows(m, db, env.broken) && db.ledgerTable
    case ThreeTransactions => env.gate && DataAllows(m, db, env.broken) && 2 <= poolMax
    case OneTransactionThenIndexes =>
      env.gate && DataAllows(m, db, env.broken) && NoInvalidIndex(m, db) && db.ledgerTable
  }

  /** When a runner of `m` ends well: the refresh-token runner has nothing to do once its ledger row is
      there, and in the end compares the definitions. */
  ghost predicate CanFinish(m: Migration, db: Db, poolMax: nat, env: Env) {
    if m.style.ThreeTransactions? then (m.id in db.ledger || CanWork(m, db, poolMax, env)) && OwnDefinitions(m, db)
    else CanWork(m, db, poolMax, env)
  }

  lemma SoloPerConstraint(m: Migration, db: Db, poolMax: nat, env: Env)
    requires m.style.PerConstraint? && m.indexes == [] && !env.fault
    ensures Solo(m, 0, false, db, poolMax, env).1 <==> CanFinish(m, db, poolMax, env)
  {
    if env.gate && db.ledgerTable {
      assert Solo(m, 0, false, db, poolMax, env) == Solo(m, 1, false, db, poolMax, env)
          == Solo(m, 2, false, db, poolMax, env);
      PerConstraintLoop(m, 0, false, db, poolMax, env);
    }
  }

  lemma SoloThreeTransactions(m: Migration, db: Db, poolMax: nat, env: Env)
    requires m.style.ThreeTransactions? && !env.fault
    requires m.id in db.ledger ==> Complete(m, db)
    ensures Solo(m, 0, false, db, poolMax, env).1 <==> CanFinish(m, db, poolMax, env)
    ensures m.id in Solo(m, 0, false, db, poolMax, env).0.ledger <==> m.id in db.ledger || CanWork(m, db, poolMax, env)
  {
    assert Solo(m, 0, false, db, poolMax, env) == Solo(m, 1, false, db, poolMax, env);
    if m.id in db.ledger {
      assert Solo(m, 1, false, db, poolMax, env) == Solo(m, 5, false, db, poolMax, env)
          == Solo(m, 6, false, db, poolMax, env) == (db, OwnDefinitions(m, db));
    } else if env.gate {
      var added := db.(catalog := Add(db.catalog, m.constraints),
                       indexes := db.indexes + (map x | x in m.indexes && x !in db.indexes :: true),
                       ledgerTable := true);
      assert Solo(m, 1, false, db, poolMax, env) == Solo(m, 2, false, added, poolMax, env);
      AddThenValidate(m, db, added, env.broken);
      if !Breaks(added.catalog, m.constraints, env.broken) {
        var validated := added.(catalog := Validated(added.catalog, m.constraints));
        assert Solo(m, 2, false, added, poolMax, env) == Solo(m, 3, false, validated, poolMax, env);
        Closing(m, false, validated, poolMax, env);
        assert Complete(m, validated);
      }
    }
  }

  /** The other two write their ledger row and end well, or do neither. */
  lemma {:induction false} WritesOrFails(m: Migration, pc: nat, building: bool, db: Db, poolMax: nat, env: Env)
    requires !m.style.ThreeTransactions? && pc <= WorkLength(m) && !env.fault
    ensures var end := Solo(m, pc, building, db, poolMax, env);
      m.id in end.0.ledger <==> m.id in db.ledger || end.1
    decreases WorkLength(m) - pc
  {
    if pc == WorkLength(m) {
      Closing(m, building, db, poolMax, env);
    } else {
      match Exec(m, InstrAt(m, pc), db, building, poolMax, env)
      case Next(to, building') => WritesOrFails(m, pc + 1, building', to, poolMax, env);
      case _ =>
    }
  }

  lemma AddThenValidate(m: Migration, db: Db, added: Db, broken: set<string>)
    requires added.catalog == Add(db.catalog, m.constraints)
    ensures Breaks(added.catalog, m.constraints, broken) <==> !DataAllows(m, db, broken)
    ensures forall c :: c in m.constraints ==> c in added.catalog && Validated(added.catalog, m.constraints)[c]
  {
  }

  lemma SoloPayout(m: Migration, db: Db, poolMax: nat, env: Env)
    requires m.style.OneTransactionThenIndexes? && !env.fault
    ensures Solo(m, 0, false, db, poolMax, env).1 <==> CanFinish(m, db, poolMax, env)
  {
    if env.gate {
      assert Solo(m, 0, false, db, poolMax, env) == Solo(m, 1, false, db, poolMax, env)
          == Solo(m, 2, false, db, poolMax, env);
      var added := db.(catalog := Add(db.catalog, m.constraints));
      AddThenValidate(m, db, added, env.broken);
      if !Breaks(added.catalog, m.constraints, env.broken) {
        var validated := db.(catalog := Validated(added.catalog, m.constraints));
        assert Solo(m, 2, false, db, poolMax, env) == Solo(m, 3, false, validated, poolMax, env);
        IndexLoop(m, 0, false, validated, poolMax, env);
        assert NoInvalidIndex(m, validated) <==> NoInvalidIndex(m, db);
      }
    }
  }

  lemma SoloConverges(id: Id, db: Db, poolMax: nat, env: Env)
    requires LedgerIsTrue(db) && !env.fault
    ensures var m := MigrationOf(id);
      var end := Solo(m, 0, false, db, poolMax, env);
      && (end.1 <==> CanFinish(m, db, poolMax, env))
      && (end.1 ==> id in end.0.ledger && Complete(m, end.0))
      && (id in end.0.ledger <==> id in db.ledger || CanWork(m, db, poolMax, env))
  {
    var m := MigrationOf(id);
    IdOfMigrationOf(id);
    SoloEndsWell(m, 0, false, db, poolMax, env);
    if !m.style.ThreeTransactions? {
      WritesOrFails(m, 0, false, db, poolMax, env);
    }
    match id
    case ScheduleRequestV2 => SoloPerConstraint(m, db, poolMax, env);
    case AuthRefreshToken => SoloThreeTransactions(m, db, poolMax, env);
    case EnrollmentPayout => SoloPayout(m, db, poolMax, env);
  }

  function Steps(r: nat, env: Env, n: nat): (events: seq<Event>)
    ensures |events| == n
  {
    seq(n, _ => Step(r, env))
  }

  lemma {:induction false} RunConcat(w: World, a: seq<Event>, b: seq<Event>)
    ensures Run(w, a + b) == Run(Run(w, a), b)
    decreases |b|
  {
    if b == [] {
      assert a + b == a;
    } else {
      assert (a + b)[..|a + b| - 1] == a + b[..|b| - 1];
      RunConcat(w, a, b[..|b| - 1]);
    }
  }

  /** A runner that has ended takes no further step. */
  lemma {:induction false} Idle(w: World, r: nat, env: Env, n: nat)
    requires r < |w.runners| && !w.runners[r].status.Live?
    ensures Run(w, Steps(r, env, n)) == w
    decreases n
  {
    if n != 0 {
      assert Steps(r, env, n)[..n - 1] == Steps(r, env, n - 1);
      Idle(w, r, env, n - 1);
    }
  }

  lemma FirstStep(w: World, r: nat, env: Env, n: nat)
    requires 0 < n && Enabled(w, Step(r, env))
    ensures Run(w, Steps(r, env, n)) == Run(Apply(w, Step(r, env)), Steps(r, env, n - 1))
  {
    assert Run(w, [Step(r, env)]) == Apply(w, Step(r, env)) by {
      assert [Step(r, env)][..0] == [];
    }
    assert Steps(r, env, n) == [Step(r, env)] + Steps(r, env, n - 1);
    RunConcat(w, [Step(r, env)], Steps(r, env, n - 1));
  }

  /** One step of the world is one step of `Solo`. */
  lemma SoloStep(m: Migration, w: World, r: nat, env: Env)
    requires CanStep(m, w, r)
    ensures var runner, v := w.runners[r], Stepped(m, w, r, env);
      var end := Solo(m, runner.pc, runner.building, w.db, runner.poolMax, env);
      && |v.runners| == |w.runners| && v.runners[r].id == runner.id && v.runners[r].poolMax == runner.poolMax
      && (v.runners[r].status.Live? ==>
            && runner.pc < v.runners[r].pc < Length(m)
            && (LockPc(m) < v.runners[r].pc || v.owner == w.owner)
            && end == Solo(m, v.runners[r].pc, v.runners[r].building, v.db, runner.poolMax, env))
      && (!v.runners[r].status.Live? ==> v.db == end.0 && (v.runners[r].status.Done? <==> end.1))
  {
    LockAndUnlockAt(m, w.runners[r].pc);
  }

  /** `Solo` is what the world does when only runner `r` steps. */
  lemma {:induction false} SoloIsRun(m: Migration, w: World, r: nat, env: Env, n: nat)
    requires r < |w.runners| && m == MigrationOf(w.runners[r].id)
    requires w.runners[r].status.Live? && w.runners[r].pc < Length(m)
    requires w.runners[r].pc <= LockPc(m) ==> m.lock !in w.owner
    requires n >= Length(m) - w.runners[r].pc
    ensures var v, runner := Run(w, Steps(r, env, n)), w.runners[r];
      var end := Solo(m, runner.pc, runner.building, w.db, runner.poolMax, env);
      && r < |v.runners| && v.db == end.0 && (v.runners[r].status.Done? <==> end.1)
    decreases n
  {
    LockAndUnlockAt(m, w.runners[r].pc);
    var v := Apply(w, Step(r, env));
    FirstStep(w, r, env, n);
    SoloStep(m, w, r, env);
    if v.runners[r].status.Live? {
      SoloIsRun(m, v, r, env, n - 1);
    } else {
      Idle(v, r, env, n - 1);
    }
  }

  /** Convergence: in any state that crashes and other runners can leave, once the lock is free, a rerun
      that nothing interrupts ends well, with its ledger row over a complete schema, exactly when
      `CanFinish` holds of that state; and the row is there afterwards exactly when it was before or the
      work could be done, even where the refresh-token runner then objects to a definition. */
  lemma RerunConverges(w: World, id: Id, poolMax: nat, env: Env)
    requires Inv(w) && MigrationOf(id).lock !in w.owner && !env.fault
    ensures var m, r := MigrationOf(id), |w.runners|;
      var v := Run(w, [Launch(id, poolMax)] + Steps(r, env, Length(m)));
      && r < |v.runners|
      && (v.runners[r].status.Done? <==> CanFinish(m, w.db, poolMax, env))
      && (v.runners[r].status.Done? ==> id in v.db.ledger && Complete(m, v.db))
      && (id in v.db.ledger <==> id in w.db.ledger || CanWork(m, w.db, poolMax, env))
  {
    var m, r := MigrationOf(id), |w.runners|;
    var v := Apply(w, Launch(id, poolMax));
    assert Run(w, [Launch(id, poolMax)]) == v by {
      assert [Launch(id, poolMax)][..0] == [];
    }
    RunConcat(w, [Launch(id, poolMax)], Steps(r, env, Length(m)));
    SoloIsRun(m, v, r, env, Length(m));
    SoloConverges(id, w.db, poolMax, env);
  }

  // ── What no rerun repairs ──

  /** The runner has started a concurrent build and not ended it. */
  predicate BuildingOf(m: Migration, runner: Runner, x: string) {
    runner.status.Live? && runner.pc < Length(m) && InstrAt(m, runner.pc) == EndIndex(x) && runner.building
  }

  predicate Building(runner: Runner, x: string) {
    BuildingOf(MigrationOf(runner.id), runner, x)
  }

  /** `x` is the invalid remainder of an interrupted build and nobody is still building it. */
  predicate Stuck(w: World, x: string) {
    && x in w.db.indexes && !w.db.indexes[x]
    && (forall r :: 0 <= r < |w.runners| ==> !Building(w.runners[r], x))
  }

  lemma StuckExec(m: Migration, pc: nat, db: Db, building: bool, poolMax: nat, env: Env, x: string)
    requires pc < Length(m) && x in db.indexes && !db.indexes[x]
    requires !(InstrAt(m, pc) == EndIndex(x) && building)
    ensures var to := Exec(m, InstrAt(m, pc), db, building, poolMax, env);
      (to.Next? ==>
         && x in to.db.indexes && !to.db.indexes[x]
         && !(pc + 1 < Length(m) && InstrAt(m, pc + 1) == EndIndex(x) && to.building))
  {
    if pc + 1 < Length(m) && InstrAt(m, pc + 1) == EndIndex(x) {
      assert InstrAt(m, pc) == BeginIndex(x);
    }
  }

  lemma StuckStepped(m: Migration, w: World, r: nat, env: Env, x: string)
    requires CanStep(m, w, r) && x in w.db.indexes && !w.db.indexes[x] && !BuildingOf(m, w.runners[r], x)
    ensures var v := Stepped(m, w, r, env);
      && x in v.db.indexes && !v.db.indexes[x] && !BuildingOf(m, v.runners[r], x)
      && v.runners[r].id == w.runners[r].id
  {
    var runner := w.runners[r];
    StuckExec(m, runner.pc, w.db, runner.building, runner.poolMax, env, x);
    assert InstrAt(m, Length(m) - 2) == Unlock;
  }

  lemma StuckStep(w: World, e: Event, x: string)
    requires Stuck(w, x) && Enabled(w, e)
    ensures Stuck(Apply(w, e), x)
  {
    if e.Step? {
      StuckStepped(MigrationOf(w.runners[e.r].id), w, e.r, e.env, x);
    }
  }

  lemma {:induction false} StuckRun(w: World, events: seq<Event>, x: string)
    requires Stuck(w, x)
    ensures Stuck(Run(w, events), x)
    decreases |events|
  {
    if events != [] {
      StuckRun(w, events[..|events| - 1], x);
      if Enabled(Run(w, events[..|events| - 1]), events[|events| - 1]) {
        StuckStep(Run(w, events[..|events| - 1]), events[|events| - 1], x);
      }
    }
  }

  /** Once a concurrent index build of the payout migration was interrupted, IF NOT EXISTS skips the
      invalid remainder for ever: no number of reruns writes the ledger row. */
  lemma InterruptedIndexIsForever(w: World, events: seq<Event>, x: string)
    requires Inv(w) && Stuck(w, x) && x in ENROLLMENT_PAYOUT.indexes
    ensures EnrollmentPayout !in Run(w, events).db.ledger
    ensures forall r :: 0 <= r < |Run(w, events).runners| && Run(w, events).runners[r].status.Done? ==>
              Run(w, events).runners[r].id != EnrollmentPayout
  {
    Invariant(w, events);
    StuckRun(w, events, x);
  }

  ghost predicate BuildsAreInvalid(w: World) {
    forall r, x :: 0 <= r < |w.runners| && Building(w.runners[r], x) ==> x in w.db.indexes && !w.db.indexes[x]
  }

  lemma BuildingIsInside(runner: Runner, x: string)
    requires Building(runner, x)
    ensures Inside(runner) && MigrationOf(runner.id) == ENROLLMENT_PAYOUT
  {
  }

  lemma BuildExec(m: Migration, pc: nat, db: Db, building: bool, poolMax: nat, env: Env, x: string)
    requires pc < Length(m)
    ensures var to := Exec(m, InstrAt(m, pc), db, building, poolMax, env);
      && (to.Next? && x in db.indexes && InstrAt(m, pc) != EndIndex(x) ==>
            x in to.db.indexes && to.db.indexes[x] == db.indexes[x])
      && (to.Next? && to.building && pc + 1 < Length(m) && InstrAt(m, pc + 1) == EndIndex(x) ==>
            x in to.db.indexes && !to.db.indexes[x])
  {
    if pc + 1 < Length(m) && InstrAt(m, pc + 1) == EndIndex(x) {
      assert InstrAt(m, pc) == BeginIndex(x);
    }
  }

  lemma EndIndexIsInside(runner: Runner, x: string)
    requires var m := MigrationOf(runner.id);
      runner.status.Live? && runner.pc < Length(m) && InstrAt(m, runner.pc) == EndIndex(x)
    ensures Inside(runner) && MigrationOf(runner.id) == ENROLLMENT_PAYOUT
  {
  }

  /** Another runner's step leaves a build alone: the lock keeps it off the same index. */
  lemma OthersBuild(m: Migration, w: World, e: Event, r: nat, x: string)
    requires Exclusive(w) && BuildsAreInvalid(w) && Enabled(w, e)
    requires e.Step? && e.r != r < |w.runners| && Building(w.runners[r], x)
    requires m == MigrationOf(w.runners[e.r].id)
    ensures x in Apply(w, e).db.indexes && !Apply(w, e).db.indexes[x]
  {
    var s := w.runners[e.r];
    BuildExec(m, s.pc, w.db, s.building, s.poolMax, e.env, x);
    BuildingIsInside(w.runners[r], x);
    if InstrAt(m, s.pc) == EndIndex(x) {
      EndIndexIsInside(s, x);
    }
  }

  lemma OwnBuild(m: Migration, w: World, e: Event, x: string)
    requires e.Step? && Enabled(w, e) && m == MigrationOf(w.runners[e.r].id)
    requires Building(Apply(w, e).runners[e.r], x)
    ensures x in Apply(w, e).db.indexes && !Apply(w, e).db.indexes[x]
  {
    var s := w.runners[e.r];
    BuildExec(m, s.pc, w.db, s.building, s.poolMax, e.env, x);
  }

  lemma OldBuild(w: World, e: Event, r: nat, x: string)
    requires !e.Step? && Enabled(w, e) && r < |Apply(w, e).runners| && Building(Apply(w, e).runners[r], x)
    ensures Apply(w, e).db == w.db && r < |w.runners| && Building(w.runners[r], x)
  {
  }

  lemma BuildAfter(w: World, e: Event, r: nat, x: string)
    requires Exclusive(w) && BuildsAreInvalid(w) && Enabled(w, e)
    requires r < |Apply(w, e).runners| && Building(Apply(w, e).runners[r], x)
    ensures x in Apply(w, e).db.indexes && !Apply(w, e).db.indexes[x]
  {
    if !e.Step? {
      OldBuild(w, e, r, x);
    } else if e.r == r {
      OwnBuild(MigrationOf(w.runners[r].id), w, e, x);
    } else {
      OthersBuild(MigrationOf(w.runners[e.r].id), w, e, r, x);
    }
  }

  lemma BuildsStep(w: World, e: Event)
    requires Exclusive(w) && BuildsAreInvalid(w) && Enabled(w, e)
    ensures BuildsAreInvalid(Apply(w, e))
  {
    var v := Apply(w, e);
    forall r, x | 0 <= r < |v.runners| && Building(v.runners[r], x)
      ensures x in v.db.indexes && !v.db.indexes[x]
    {
      BuildAfter(w, e, r, x);
    }
  }

  lemma {:induction false} BuildsRun(w: World, events: seq<Event>)
    requires Exclusive(w) && BuildsAreInvalid(w)
    ensures BuildsAreInvalid(Run(w, events))
    decreases |events|
  {
    if events != [] {
      var before := events[..|events| - 1];
      BuildsRun(w, before);
      ExclusiveRun(w, before);
      if Enabled(Run(w, before), events[|events| - 1]) {
        BuildsStep(Run(w, before), events[|events| - 1]);
      }
    }
  }

  /** A crash between the two halves of a concurrent build leaves exactly such a remainder. */
  lemma CrashMidBuildSticks(db: Db, events: seq<Event>, r: nat, x: string)
    requires LedgerIsTrue(db)
    requires var w := Run(World(db, map[], []), events); r < |w.runners| && Building(w.runners[r], x)
    ensures var w := Run(World(db, map[], []), events);
      Enabled(w, Crash(r)) && Inv(Apply(w, Crash(r))) && Stuck(Apply(w, Crash(r)), x)
      && x in ENROLLMENT_PAYOUT.indexes
  {
    var start, w := World(db, map[], []), Run(World(db, map[], []), events);
    BuildsRun(start, events);
    ExclusiveRun(start, events);
    Invariant(start, events);
    InvStep(w, Crash(r));
    CrashedBuild(w, r, x);
    BuildingIsInside(w.runners[r], x);
    BuiltIndexIsListed(ENROLLMENT_PAYOUT, w.runners[r].pc, x);
  }

  /** The payout runner's first four steps, from a database without its indexes: the first build is under
      way. */
  lemma BuildUnderWay(db: Db, env: Env) returns (events: seq<Event>, x: string)
    requires env.gate && !env.fault && env.broken == {} && ENROLLMENT_PAYOUT.indexes[0] !in db.indexes
    ensures x == ENROLLMENT_PAYOUT.indexes[0]
    ensures var w := Run(World(db, map[], []), events); |w.runners| == 1 && Building(w.runners[0], x)
  {
    x := ENROLLMENT_PAYOUT.indexes[0];
    var m, s0 := ENROLLMENT_PAYOUT, World(db, map[], []);
    var s1 := Apply(s0, Launch(EnrollmentPayout, 1));
    var s2 := Stepped(m, s1, 0, env);
    var s3 := Stepped(m, s2, 0, env);
    var s4 := Stepped(m, s3, 0, env);
    AtIndex(m, 0);
    assert s4.db.indexes == db.indexes && s4.runners[0].pc == 3;
    var s5 := Stepped(m, s4, 0, env);
    assert s5.runners[0].building && s5.runners[0].pc == 4;
    events := [Launch(EnrollmentPayout, 1)] + Steps(0, env, 4);
    FourSteps(s1, env, s2, s3, s4, s5);
    assert Run(s0, [Launch(EnrollmentPayout, 1)]) == s1 by {
      assert [Launch(EnrollmentPayout, 1)][..0] == [];
    }
    RunConcat(s0, [Launch(EnrollmentPayout, 1)], Steps(0, env, 4));
  }

  lemma FourSteps(s1: World, env: Env, s2: World, s3: World, s4: World, s5: World)
    requires Enabled(s1, Step(0, env)) && s2 == Apply(s1, Step(0, env))
    requires Enabled(s2, Step(0, env)) && s3 == Apply(s2, Step(0, env))
    requires Enabled(s3, Step(0, env)) && s4 == Apply(s3, Step(0, env))
    requires Enabled(s4, Step(0, env)) && s5 == Apply(s4, Step(0, env))
    ensures Run(s1, Steps(0, env, 4)) == s5
  {
    FirstStep(s1, 0, env, 4);
    FirstStep(s2, 0, env, 3);
    FirstStep(s3, 0, env, 2);
    FirstStep(s4, 0, env, 1);
    assert Steps(0, env, 0) == [];
  }

  /** So one crash is enough: from every database with a true ledger and without the first index there is one
      run, interrupted once, after which no continuation whatever writes the payout migration's ledger row. */
  lemma OneCrashIsEnough(db: Db, env: Env) returns (events: seq<Event>)
    requires LedgerIsTrue(db)
    requires env.gate && !env.fault && env.broken == {} && ENROLLMENT_PAYOUT.indexes[0] !in db.indexes
    ensures forall after: seq<Event> ::
      EnrollmentPayout !in Run(Run(World(db, map[], []), events + [Crash(0)]), after).db.ledger
  {
    var x: string;
    events, x := BuildUnderWay(db, env);
    var w := Run(World(db, map[], []), events);
    CrashMidBuildSticks(db, events, 0, x);
    assert (events + [Crash(0)])[..|events|] == events;
    assert Run(World(db, map[], []), events + [Crash(0)]) == Apply(w, Crash(0));
    forall after: seq<Event>
      ensures EnrollmentPayout !in Run(Apply(w, Crash(0)), after).db.ledger
    {
      InterruptedIndexIsForever(Apply(w, Crash(0)), after, x);
    }
  }

  lemma CrashedBuild(w: World, r: nat, x: string)
    requires Exclusive(w) && BuildsAreInvalid(w) && r < |w.runners| && Building(w.runners[r], x)
    ensures Stuck(Apply(w, Crash(r)), x)
  {
    BuildingIsInside(w.runners[r], x);
    var v := Apply(w, Crash(r));
    forall q | 0 <= q < |v.runners|
      ensures !Building(v.runners[q], x)
    {
      if q != r && Building(w.runners[q], x) {
        BuildingIsInside(w.runners[q], x);
      }
    }
  }

  lemma BuiltIndexIsListed(m: Migration, pc: nat, x: string)
    requires pc < Length(m) && InstrAt(m, pc) == EndIndex(x)
    ensures x in m.indexes
  {
  }

  /** A database without the ledger's table, and nobody in it who would create the table. */
  predicate Tableless(w: World) {
    && !w.db.ledgerTable && w.db.ledger == {}
    && forall r :: 0 <= r < |w.runners| ==> w.runners[r].id != AuthRefreshToken
  }

  lemma TablelessExec(m: Migration, pc: nat, db: Db, building: bool, poolMax: nat, env: Env)
    requires pc < Length(m) && !m.style.ThreeTransactions? && !db.ledgerTable
    ensures var to := Exec(m, InstrAt(m, pc), db, building, poolMax, env);
      && !to.SkipToUnlock?
      && (to.Next? ==> !to.db.ledgerTable && to.db.ledger == db.ledger)
  {
  }

  /** The schedule-request and payout runners take the ledger's table for granted: where the refresh-token
      runner was never launched and nobody else made the table, no run of theirs writes a ledger row. */
  lemma {:induction false} OnlyRefreshTokensMakeTheLedger(w: World, events: seq<Event>)
    requires Tableless(w)
    requires forall i :: 0 <= i < |events| && events[i].Launch? ==> events[i].id != AuthRefreshToken
    ensures Tableless(Run(w, events))
    decreases |events|
  {
    if events != [] {
      var before, e := events[..|events| - 1], events[|events| - 1];
      OnlyRefreshTokensMakeTheLedger(w, before);
      var v := Run(w, before);
      if e.Step? && Enabled(v, e) {
        var runner := v.runners[e.r];
        TablelessExec(MigrationOf(runner.id), runner.pc, v.db, runner.building, runner.poolMax, e.env);
      }
    }
  }

  /** Every refresh-token runner has a pool of one connection, and none has come past its readback. */
  predicate SinglePooled(w: World) {
    && AuthRefreshToken !in w.db.ledger
    && (forall r :: 0 <= r < |w.runners| && w.runners[r].id == AuthRefreshToken && w.runners[r].status.Live? ==>
          w.runners[r].poolMax <= 1 && w.runners[r].pc <= WorkLength(AUTH_REFRESH_TOKEN))
  }

  lemma SinglePooledExec(m: Migration, pc: nat, db: Db, building: bool, poolMax: nat, env: Env)
    requires pc <= WorkLength(m) && m.id !in db.ledger && m.style.ThreeTransactions? && poolMax <= 1
    ensures var to := Exec(m, InstrAt(m, pc), db, building, poolMax, env);
      && !to.SkipToUnlock?
      && (to.Next? ==> pc < WorkLength(m) && m.id !in to.db.ledger)
  {
  }

  lemma SinglePooledStep(w: World, e: Event)
    requires SinglePooled(w) && Enabled(w, e)
    requires e.Launch? && e.id == AuthRefreshToken ==> e.poolMax <= 1
    ensures SinglePooled(Apply(w, e))
  {
    if e.Step? {
      var runner, m := w.runners[e.r], MigrationOf(w.runners[e.r].id);
      IdOfMigrationOf(runner.id);
      if runner.id == AuthRefreshToken {
        SinglePooledExec(m, runner.pc, w.db, runner.building, runner.poolMax, e.env);
      } else {
        OtherLedger(m, InstrAt(m, runner.pc), w.db, runner.building, runner.poolMax, e.env, AuthRefreshToken);
      }
    }
  }

  /** A step writes no ledger row but its own migration's. */
  lemma OtherLedger(m: Migration, instr: Instr, db: Db, building: bool, poolMax: nat, env: Env, id: Id)
    requires id != m.id && id !in db.ledger
    ensures var to := Exec(m, instr, db, building, poolMax, env);
      to.Next? ==> id !in to.db.ledger
  {
  }

  /** With the pool of one connection it is shipped with, the refresh-token runner never writes its
      ledger row: its readback asks the pool for a second connection while it holds the only one. */
  lemma {:induction false} PoolOfOneNeverFinishes(w: World, events: seq<Event>)
    requires SinglePooled(w)
    requires forall i, id, max :: 0 <= i < |events| && events[i] == Launch(id, max) && id == AuthRefreshToken ==> max <= 1
    ensures SinglePooled(Run(w, events))
    decreases |events|
  {
    if events != [] {
      var before := events[..|events| - 1];
      assert forall i :: 0 <= i < |before| ==> before[i] == events[i];
      PoolOfOneNeverFinishes(w, before);
      if Enabled(Run(w, before), events[|events| - 1]) {
        SinglePooledStep(Run(w, before), events[|events| - 1]);
      }
    }
  }
}
