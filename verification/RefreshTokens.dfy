/** Refresh tokens under concurrent calls. A rotation locks its own row and commits at its end; the rows to
    revoke are listed by one statement and updated one by one; nothing orders the calls of one user. */
module RefreshTokens {
  import opened Rows
  import opened RefreshChain

  /** A row of `auth_refresh_tokens`; the raw token stands for the row's id. */
  datatype Token = Token(userId: int, expiresAt: int, revoked: bool, replacedBy: Option<int>)

  type Tokens = map<int, Token>

  function LinksOf(t: Tokens): Links {
    map id | id in t :: t[id].replacedBy
  }

  /** `rotate`, `replaceBrowserSession`, `revokeAllForUser` and `revokeByRaw`. The first two run in a
      transaction; of the others every statement commits by itself. */
  datatype Call =
    | Rotate(id: int, expiresAt: int, now: int)
    | Login(previous: Option<int>, user: int, expiresAt: int)
    | RevokeAll(user: int)
    | Logout(id: int)
  {
    predicate InTransaction() { Rotate? || Login? }
  }

  datatype Answer = Missing | Reuse | Expired | Rotated | LoggedIn | Revoked

  datatype Phase =
    | Begun                        // before SELECT ... FOR UPDATE
    | Listing                      // before the SELECT of the rows to revoke
    | Revoking(todo: set<int>)
    | Issuing
    | Ready(answer: Answer)        // before COMMIT
    | Done(answer: Answer)
    | Failed
  {
    predicate Over() { Done? || Failed? }
  }

  /** `own` holds the versions this transaction wrote and has not committed, `locks` the rows it locks,
      `seen` the ids the listing statement could see, `made` the row it inserted. */
  datatype Tx = Tx(call: Call, phase: Phase, user: int, own: Tokens, locks: set<int>, seen: set<int>, made: Option<int>)

  datatype State = State(rows: Tokens, serial: int, txs: seq<Tx>)

  datatype Event =
    | Submit(call: Call)
    | Lock(t: nat)
    | List(t: nat)
    | Mark(t: nat, x: int)
    | Issue(t: nat)
    | Commit(t: nat)
    | Abort(t: nat)

  /** No other transaction holds the row. */
  predicate Free(s: State, t: nat, x: int) {
    forall u :: 0 <= u < |s.txs| && u != t ==> x !in s.txs[u].locks
  }

  predicate Enabled(s: State, e: Event) {
    match e
    case Submit(_) => true
    case Lock(t) => t < |s.txs| && s.txs[t].phase.Begun? && s.txs[t].call.Rotate? && Free(s, t, s.txs[t].call.id)
    case List(t) => t < |s.txs| && s.txs[t].phase.Listing?
    case Mark(t, x) => t < |s.txs| && s.txs[t].phase.Revoking? && x in s.txs[t].phase.todo && x in s.rows && Free(s, t, x)
    case Issue(t) => t < |s.txs| &&
      ((s.txs[t].phase.Issuing? && s.txs[t].call.Rotate? && s.txs[t].call.id in s.rows)
       || (s.txs[t].call.Login? && s.txs[t].phase == Revoking({})))
    case Commit(t) => t < |s.txs| &&
      (s.txs[t].phase.Ready? || (!s.txs[t].call.Login? && s.txs[t].phase == Revoking({})))
    case Abort(t) => t < |s.txs| && !s.txs[t].phase.Over()
  }

  /** `SELECT ... FOR UPDATE`, and what `rotate` decides by the row. */
  function AfterLock(rows: Tokens, tx: Tx): Tx
    requires tx.call.Rotate?
  {
    if tx.call.id !in rows then tx.(phase := Ready(Missing))
    else
      var row := rows[tx.call.id];
      var held := tx.(user := row.userId, locks := {tx.call.id});
      if row.revoked then held.(phase := Listing)
      else if row.expiresAt <= tx.call.now then
        held.(phase := Ready(Expired), own := map[tx.call.id := row.(revoked := true)])
      else held.(phase := Issuing)
  }

  predicate Live(rows: Tokens, x: int) {
    x in rows && !rows[x].revoked
  }

  /** The rows a call finds to revoke. */
  function Targets(rows: Tokens, tx: Tx): set<int> {
    match tx.call
    case Rotate(_, _, _) => set x | x in rows && rows[x].userId == tx.user && !rows[x].revoked
    case RevokeAll(_) => set x | x in rows && rows[x].userId == tx.user && !rows[x].revoked
    case Login(previous, _, _) => if previous.Some? && Live(rows, previous.value) then {previous.value} else {}
    case Logout(id) => if Live(rows, id) then {id} else {}
  }

  function Presented(previous: Option<int>): set<int> {
    if previous.Some? then {previous.value} else {}
  }

  /** The version a transaction sees. */
  function Current(rows: Tokens, tx: Tx, x: int): Token
    requires x in rows
  {
    if x in tx.own then tx.own[x] else rows[x]
  }

  function AfterMark(rows: Tokens, tx: Tx, x: int): Tx
    requires x in rows && tx.phase.Revoking?
  {
    var rest := tx.(phase := Revoking(tx.phase.todo - {x}));
    if tx.call.InTransaction()
    then rest.(own := tx.own[x := Current(rows, tx, x).(revoked := true)], locks := tx.locks + {x})
    else rest
  }

  /** The insert, and for a rotation the revocation and link of the row it replaces. */
  function AfterIssue(rows: Tokens, tx: Tx, n: int): Tx
    requires tx.call.InTransaction() && (tx.call.Rotate? ==> tx.call.id in rows)
  {
    var own := tx.own[n := Token(tx.user, tx.call.expiresAt, false, None)];
    if tx.call.Rotate?
    then tx.(phase := Ready(Rotated), made := Some(n),
             own := own[tx.call.id := Current(rows, tx, tx.call.id).(revoked := true, replacedBy := Some(n))])
    else tx.(phase := Ready(LoggedIn), made := Some(n), own := own)
  }

  function AnswerOf(tx: Tx): Answer {
    if tx.phase.Ready? then tx.phase.answer else if tx.call.Rotate? then Reuse else Revoked
  }

  function Ended(tx: Tx, phase: Phase): Tx {
    tx.(phase := phase, own := map[], locks := {})
  }

  function UserOf(call: Call): int {
    if call.Login? || call.RevokeAll? then call.user else 0
  }

  function Fresh(call: Call): Tx {
    Tx(call, if call.Rotate? then Begun else Listing, UserOf(call), map[], {}, {}, None)
  }

  function Apply(s: State, e: Event): State {
    if !Enabled(s, e) then s
    else
      match e
      case Submit(call) => s.(txs := s.txs + [Fresh(call)])
      case Lock(t) => s.(txs := s.txs[t := AfterLock(s.rows, s.txs[t])])
      case List(t) =>
        s.(txs := s.txs[t := s.txs[t].(phase := Revoking(Targets(s.rows, s.txs[t])), seen := s.rows.Keys)])
      case Mark(t, x) =>
        State(if s.txs[t].call.InTransaction() then s.rows else s.rows[x := s.rows[x].(revoked := true)],
              s.serial, s.txs[t := AfterMark(s.rows, s.txs[t], x)])
      case Issue(t) => State(s.rows, s.serial + 1, s.txs[t := AfterIssue(s.rows, s.txs[t], s.serial + 1)])
      case Commit(t) => State(s.rows + s.txs[t].own, s.serial, s.txs[t := Ended(s.txs[t], Done(AnswerOf(s.txs[t])))])
      case Abort(t) => s.(txs := s.txs[t := Ended(s.txs[t], Failed)])
  }

  function Run(s: State, events: seq<Event>): State
    decreases |events|
  {
    if events == [] then s else Run(Apply(s, events[0]), events[1..])
  }

  // ── What every step keeps ──

  /** Rows only come, are revoked, and are linked while live. */
  predicate Grows(t: Tokens, u: Tokens) {
    forall id :: id in t ==>
      && id in u && u[id].userId == t[id].userId && u[id].expiresAt == t[id].expiresAt
      && (t[id].revoked ==> u[id].revoked && u[id].replacedBy == t[id].replacedBy)
  }

  /** An uncommitted version revokes the committed row; the row a rotation replaces is linked, too. */
  predicate OwnOk(rows: Tokens, tx: Tx, x: int)
    requires x in tx.own
  {
    if tx.made == Some(x) then x !in rows && tx.own[x] == Token(tx.user, tx.own[x].expiresAt, false, None)
    else
      && x in rows && x in tx.locks
      && tx.own[x] == rows[x].(revoked := true, replacedBy := tx.own[x].replacedBy)
      && (tx.own[x].replacedBy == rows[x].replacedBy
          || (tx.call.Rotate? && x == tx.call.id && tx.made.Some? && tx.own[x].replacedBy == tx.made && !rows[x].revoked))
  }

  /** The row a rotation works on. */
  predicate HoldsRow(rows: Tokens, tx: Tx, revoked: bool) {
    && tx.call.Rotate? && tx.call.id in rows && tx.call.id in tx.locks
    && rows[tx.call.id].userId == tx.user && rows[tx.call.id].revoked == revoked
  }

  /** What the listing saw of the user is revoked, will be, or is in this transaction's versions. */
  predicate SeenCovered(rows: Tokens, tx: Tx) {
    tx.phase.Revoking? && (tx.call.Rotate? || tx.call.RevokeAll?) ==>
      forall x :: x in tx.seen && x in rows && rows[x].userId == tx.user ==>
        rows[x].revoked || x in tx.phase.todo || x in tx.own
  }

  /** A reuse answer, or a revocation of all, revoked whatever its listing saw. */
  predicate SeenRevoked(rows: Tokens, tx: Tx) {
    tx.phase == Done(Reuse) || (tx.phase.Done? && tx.call.RevokeAll?) ==>
      forall x :: x in tx.seen && x in rows && rows[x].userId == tx.user ==> rows[x].revoked
  }

  /** The row a rotation replaced leads to the one it made. */
  predicate RotatedRow(rows: Tokens, tx: Tx) {
    && tx.call.Rotate? && tx.call.id in rows && rows[tx.call.id].revoked
    && tx.made.Some? && rows[tx.call.id].replacedBy == tx.made
  }

  predicate PhaseOk(rows: Tokens, tx: Tx) {
    match tx.phase
    case Begun => tx.call.Rotate? && tx.own == map[] && tx.locks == {} && tx.made == None
    case Listing => tx.own == map[] && tx.made == None
      && (tx.call.Rotate? ==> HoldsRow(rows, tx, true) && tx.locks == {tx.call.id}) && (!tx.call.Rotate? ==> tx.locks == {})
    case Revoking(todo) => tx.made == None && tx.own.Keys !! todo && todo <= rows.Keys
      && (tx.call.Rotate? ==> HoldsRow(rows, tx, true) && tx.locks == tx.own.Keys + {tx.call.id})
      && (!tx.call.Rotate? ==> tx.locks == tx.own.Keys)
      && (tx.call.Login? ==> todo + tx.own.Keys <= Presented(tx.call.previous))
    case Issuing => HoldsRow(rows, tx, false) && tx.own == map[] && tx.made == None
    case Ready(answer) =>
      if answer == Rotated then
        HoldsRow(rows, tx, false) && tx.made.Some? && tx.made.value in tx.own && tx.call.id in tx.own
          && tx.own[tx.call.id].replacedBy == tx.made && tx.made.value != tx.call.id && tx.own.Keys == {tx.made.value, tx.call.id}
      else if answer == LoggedIn then tx.call.Login? && tx.made.Some? && tx.made.value in tx.own
      else (answer == Missing || answer == Expired) && tx.call.Rotate? && tx.made == None
    case Done(answer) =>
      && (answer == Rotated ==> RotatedRow(rows, tx))
      && (answer == Reuse ==> tx.call.Rotate? && tx.call.id in rows && rows[tx.call.id].userId == tx.user)
    case Failed => true
  }

  predicate TxOk(rows: Tokens, serial: int, tx: Tx) {
    && (tx.phase.Over() || !tx.call.InTransaction() ==> tx.own == map[] && tx.locks == {})
    && (forall x :: x in tx.own ==> OwnOk(rows, tx, x))
    && (tx.made.Some? ==> tx.made.value <= serial && (!tx.phase.Over() ==> tx.made.value !in rows))
    && (tx.call.Login? || tx.call.RevokeAll? ==> tx.user == tx.call.user) && tx.seen <= rows.Keys
    && PhaseOk(rows, tx) && SeenCovered(rows, tx) && SeenRevoked(rows, tx)
  }

  predicate Apart(a: Tx, b: Tx) {
    a.locks !! b.locks && (a.made.Some? ==> a.made != b.made)
  }

  ghost predicate Inv(s: State) {
    && (forall id :: id in s.rows ==> id <= s.serial)
    && (forall t :: 0 <= t < |s.txs| ==> TxOk(s.rows, s.serial, s.txs[t]))
    && (forall t, u :: 0 <= t < |s.txs| && 0 <= u < |s.txs| && t != u ==> Apart(s.txs[t], s.txs[u]))
  }

  /** A transaction is as sound as it was when others moved on without its locked rows. */
  lemma OtherOk(rows: Tokens, rows': Tokens, serial: int, serial': int, tx: Tx)
    requires TxOk(rows, serial, tx) && Grows(rows, rows') && serial <= serial'
    requires forall x :: x in tx.locks && x in rows ==> rows'[x] == rows[x]
    requires tx.made.Some? && !tx.phase.Over() ==> tx.made.value !in rows'
    ensures TxOk(rows', serial', tx)
  {
    forall id | id in rows.Keys
      ensures id in rows'.Keys
    {
      assert id in rows;
    }
  }

  lemma LockOk(rows: Tokens, serial: int, tx: Tx)
    requires TxOk(rows, serial, tx) && tx.phase.Begun?
    ensures TxOk(rows, serial, AfterLock(rows, tx))
    ensures AfterLock(rows, tx).locks <= {tx.call.id} && AfterLock(rows, tx).made == None
  {
  }

  lemma ListOk(rows: Tokens, serial: int, tx: Tx)
    requires TxOk(rows, serial, tx) && tx.phase.Listing?
    ensures TxOk(rows, serial, tx.(phase := Revoking(Targets(rows, tx)), seen := rows.Keys))
  {
  }

  lemma MarkOk(rows: Tokens, serial: int, tx: Tx, x: int)
    requires TxOk(rows, serial, tx) && tx.phase.Revoking? && x in tx.phase.todo && x in rows
    ensures tx.call.InTransaction() ==> TxOk(rows, serial, AfterMark(rows, tx, x))
    ensures !tx.call.InTransaction() ==> TxOk(rows[x := rows[x].(revoked := true)], serial, AfterMark(rows, tx, x))
    ensures Grows(rows, rows[x := rows[x].(revoked := true)])
  {
  }

  lemma IssueOk(rows: Tokens, serial: int, tx: Tx)
    requires TxOk(rows, serial, tx) && forall id :: id in rows ==> id <= serial
    requires (tx.phase.Issuing? && tx.call.Rotate? && tx.call.id in rows) || (tx.call.Login? && tx.phase == Revoking({}))
    ensures TxOk(rows, serial + 1, AfterIssue(rows, tx, serial + 1))
  {
  }

  lemma CommitOk(rows: Tokens, serial: int, tx: Tx)
    requires TxOk(rows, serial, tx) && forall id :: id in rows ==> id <= serial
    requires tx.phase.Ready? || (!tx.call.Login? && tx.phase == Revoking({}))
    ensures TxOk(rows + tx.own, serial, Ended(tx, Done(AnswerOf(tx))))
    ensures Grows(rows, rows + tx.own) && forall id :: id in rows + tx.own ==> id <= serial
    ensures forall x :: x in tx.own && x in rows ==> x in tx.locks
    ensures forall x :: x in tx.own && x !in rows ==> tx.made == Some(x)
  {
  }

  /** One transaction moved on, and touched no row that another one locks. */
  ghost predicate MovedOn(s: State, s': State, t: nat) {
    && t < |s.txs| == |s'.txs| && (forall u :: 0 <= u < |s.txs| && u != t ==> s'.txs[u] == s.txs[u])
    && Grows(s.rows, s'.rows) && s.serial <= s'.serial && (forall id :: id in s'.rows ==> id <= s'.serial)
    && TxOk(s'.rows, s'.serial, s'.txs[t])
  }

  /** The step is no concern of this other transaction. */
  ghost predicate Clear(s: State, s': State, t: nat, u: nat)
    requires t < |s'.txs| && u < |s.txs|
  {
    && Apart(s'.txs[t], s.txs[u])
    && (forall x :: x in s.txs[u].locks && x in s.rows && x in s'.rows ==> s'.rows[x] == s.rows[x])
    && (s.txs[u].made.Some? && s.txs[u].made.value !in s.rows ==> s.txs[u].made.value !in s'.rows)
  }

  lemma StepInv(s: State, s': State, t: nat)
    requires Inv(s) && MovedOn(s, s', t)
    requires forall u: nat :: u < |s.txs| && u != t ==> Clear(s, s', t, u)
    ensures Inv(s')
  {
    forall u | 0 <= u < |s.txs|
      ensures TxOk(s'.rows, s'.serial, s'.txs[u])
    {
      if u != t {
        assert Clear(s, s', t, u);
        OtherOk(s.rows, s'.rows, s.serial, s'.serial, s.txs[u]);
      }
    }
    forall u, v | 0 <= u < |s.txs| && 0 <= v < |s.txs| && u != v
      ensures Apart(s'.txs[u], s'.txs[v])
    {
      assert u != t ==> Clear(s, s', t, u);
      assert v != t ==> Clear(s, s', t, v);
      assert Apart(s.txs[u], s.txs[v]);
    }
  }

  lemma LockInv(s: State, t: nat)
    requires Inv(s) && Enabled(s, Lock(t))
    ensures Inv(Apply(s, Lock(t))) && Grows(s.rows, Apply(s, Lock(t)).rows)
  {
    LockOk(s.rows, s.serial, s.txs[t]);
    StepInv(s, Apply(s, Lock(t)), t);
  }

  lemma ListInv(s: State, t: nat)
    requires Inv(s) && Enabled(s, List(t))
    ensures Inv(Apply(s, List(t))) && Grows(s.rows, Apply(s, List(t)).rows)
  {
    ListOk(s.rows, s.serial, s.txs[t]);
    assert forall u :: 0 <= u < |s.txs| && u != t ==> Apart(s.txs[t], s.txs[u]);
    StepInv(s, Apply(s, List(t)), t);
  }

  lemma MarkInv(s: State, t: nat, x: int)
    requires Inv(s) && Enabled(s, Mark(t, x))
    ensures Inv(Apply(s, Mark(t, x))) && Grows(s.rows, Apply(s, Mark(t, x)).rows)
  {
    MarkOk(s.rows, s.serial, s.txs[t], x);
    assert forall u :: 0 <= u < |s.txs| && u != t ==> Apart(s.txs[t], s.txs[u]);
    StepInv(s, Apply(s, Mark(t, x)), t);
  }

  lemma IssueInv(s: State, t: nat)
    requires Inv(s) && Enabled(s, Issue(t))
    ensures Inv(Apply(s, Issue(t))) && Grows(s.rows, Apply(s, Issue(t)).rows)
  {
    IssueOk(s.rows, s.serial, s.txs[t]);
    assert forall u :: 0 <= u < |s.txs| && u != t ==> Apart(s.txs[t], s.txs[u]);
    assert forall u :: 0 <= u < |s.txs| ==> TxOk(s.rows, s.serial, s.txs[u]);
    StepInv(s, Apply(s, Issue(t)), t);
  }

  lemma CommitInv(s: State, t: nat)
    requires Inv(s) && Enabled(s, Commit(t))
    ensures Inv(Apply(s, Commit(t))) && Grows(s.rows, Apply(s, Commit(t)).rows)
  {
    CommitOk(s.rows, s.serial, s.txs[t]);
    assert forall u :: 0 <= u < |s.txs| && u != t ==> Apart(s.txs[t], s.txs[u]);
    StepInv(s, Apply(s, Commit(t)), t);
  }

  lemma AbortInv(s: State, t: nat)
    requires Inv(s) && Enabled(s, Abort(t))
    ensures Inv(Apply(s, Abort(t))) && Grows(s.rows, Apply(s, Abort(t)).rows)
  {
    assert forall u :: 0 <= u < |s.txs| && u != t ==> Apart(s.txs[t], s.txs[u]);
    StepInv(s, Apply(s, Abort(t)), t);
  }

  lemma SubmitInv(s: State, call: Call)
    requires Inv(s)
    ensures Inv(Apply(s, Submit(call)))
  {
    var s' := Apply(s, Submit(call));
    assert TxOk(s.rows, s.serial, Fresh(call));
    forall t, u | 0 <= t < |s'.txs| && 0 <= u < |s'.txs| && t != u
      ensures Apart(s'.txs[t], s'.txs[u])
    {
      assert t < |s.txs| && u < |s.txs| ==> Apart(s.txs[t], s.txs[u]);
    }
  }

  lemma ApplyInv(s: State, e: Event)
    requires Inv(s)
    ensures Inv(Apply(s, e)) && Grows(s.rows, Apply(s, e).rows)
  {
    if Enabled(s, e) {
      match e
      case Submit(call) => SubmitInv(s, call);
      case Lock(t) => LockInv(s, t);
      case List(t) => ListInv(s, t);
      case Mark(t, x) => MarkInv(s, t, x);
      case Issue(t) => IssueInv(s, t);
      case Commit(t) => CommitInv(s, t);
      case Abort(t) => AbortInv(s, t);
    }
  }

  lemma GrowsOn(a: Tokens, b: Tokens, c: Tokens)
    requires Grows(a, b) && Grows(b, c)
    ensures Grows(a, c)
  {
  }

  /** Calls keep their place, what they ask for, and, once the listing is behind them, what it saw. */
  predicate Follows(a: Tx, b: Tx) {
    && b.call == a.call
    && (!a.phase.Begun? ==> b.user == a.user && !b.phase.Begun?)
    && (!a.phase.Begun? && !a.phase.Listing? ==> b.seen == a.seen && !b.phase.Listing?)
    && (a.call.Rotate? && (a.phase.Listing? || a.phase.Revoking?) ==>
          b.phase.Listing? || b.phase.Revoking? || b.phase == Done(Reuse) || b.phase.Failed?)
    && (a.phase.Over() ==> b == a)
  }

  predicate AllFollow(a: seq<Tx>, b: seq<Tx>) {
    |a| <= |b| && forall t :: 0 <= t < |a| ==> Follows(a[t], b[t])
  }

  lemma ApplyFollows(s: State, e: Event)
    ensures AllFollow(s.txs, Apply(s, e).txs)
  {
  }

  /** In every run the invariant holds, and committed rows only grow: what is revoked stays revoked, and
      the link of a revoked row stays. */
  lemma {:induction false} RunInv(s: State, events: seq<Event>)
    requires Inv(s)
    ensures Inv(Run(s, events)) && Grows(s.rows, Run(s, events).rows) && AllFollow(s.txs, Run(s, events).txs)
    decreases |events|
  {
    if events != [] {
      var next := Apply(s, events[0]);
      ApplyInv(s, events[0]);
      ApplyFollows(s, events[0]);
      RunInv(next, events[1..]);
      GrowsOn(s.rows, next.rows, Run(next, events[1..]).rows);
    }
  }

  /** No call is open, and the id sequence is past every row. */
  ghost predicate Start(s: State) {
    s.txs == [] && forall id :: id in s.rows ==> id <= s.serial
  }

  // ── Chains ──

  /** What a step does to the links. */
  function LinksAfter(s: State, e: Event): Links {
    var l := LinksOf(s.rows);
    if !e.Commit? || !Enabled(s, e) || s.txs[e.t].made.None? then l
    else
      var tx := s.txs[e.t];
      if tx.call.Rotate? then l[tx.made.value := None][tx.call.id := tx.made] else l[tx.made.value := None]
  }

  lemma CommitLinks(rows: Tokens, serial: int, tx: Tx)
    requires TxOk(rows, serial, tx) && (tx.phase.Ready? || tx.phase == Revoking({}))
    ensures tx.made.None? ==> LinksOf(rows + tx.own) == LinksOf(rows)
    ensures tx.made.Some? && tx.call.Rotate? ==>
      LinksOf(rows + tx.own) == LinksOf(rows)[tx.made.value := None][tx.call.id := tx.made]
    ensures tx.made.Some? && !tx.call.Rotate? ==> LinksOf(rows + tx.own) == LinksOf(rows)[tx.made.value := None]
  {
    forall x | x in tx.own
      ensures tx.made != Some(x) ==> x in rows
      ensures tx.made != Some(x) && !(tx.call.Rotate? && tx.made.Some?) ==> tx.own[x].replacedBy == rows[x].replacedBy
    {
      assert OwnOk(rows, tx, x);
    }
    var l, after := LinksOf(rows), LinksOf(rows + tx.own);
    if tx.made.None? {
      assert forall x :: x in after <==> x in l;
      assert after == l;
    } else if !tx.call.Rotate? {
      assert OwnOk(rows, tx, tx.made.value);
      assert forall x :: x in after <==> x in l[tx.made.value := None];
      assert after == l[tx.made.value := None];
    }
  }

  lemma ApplyLinks(s: State, e: Event)
    requires Inv(s)
    ensures LinksOf(Apply(s, e).rows) == LinksAfter(s, e)
  {
    if e.Commit? && Enabled(s, e) {
      CommitLinks(s.rows, s.serial, s.txs[e.t]);
    }
  }

  lemma ApplyKeepsClean(s: State, e: Event)
    requires Inv(s) && Flagged(LinksOf(s.rows)) == {}
    ensures Flagged(LinksOf(Apply(s, e).rows)) == {}
  {
    ApplyLinks(s, e);
    if e.Commit? && Enabled(s, e) && s.txs[e.t].made.Some? {
      var tx := s.txs[e.t];
      assert TxOk(s.rows, s.serial, tx);
      if tx.call.Rotate? {
        RotationKeepsClean(LinksOf(s.rows), tx.call.id, tx.made.value);
      } else {
        InsertKeepsClean(LinksOf(s.rows), tx.made.value);
      }
    }
  }

  lemma {:induction false} RunKeepsClean(s: State, events: seq<Event>)
    requires Inv(s) && Flagged(LinksOf(s.rows)) == {}
    ensures Flagged(LinksOf(Run(s, events).rows)) == {}
    decreases |events|
  {
    if events != [] {
      ApplyInv(s, events[0]);
      ApplyKeepsClean(s, events[0]);
      RunKeepsClean(Apply(s, events[0]), events[1..]);
    }
  }

  /** From a table on which the cycle query finds nothing, no interleaving of rotations, logins, logouts and
      revocations, with any of them failing anywhere, commits a table on which it finds something. */
  lemma ChainStaysAcyclic(s: State, events: seq<Event>)
    requires Start(s) && Flagged(LinksOf(s.rows)) == {}
    ensures Flagged(LinksOf(Run(s, events).rows)) == {}
  {
    RunKeepsClean(s, events);
  }

  // ── One rotation per token ──

  lemma MadeApart(s: State, t: nat, u: nat)
    requires Inv(s) && t < |s.txs| && u < |s.txs|
    ensures t == u || s.txs[t].made.None? || s.txs[t].made != s.txs[u].made
  {
    assert t == u || Apart(s.txs[t], s.txs[u]);
  }

  /** However the calls interleave, a token is rotated once at most. */
  lemma RotatedOnlyOnce(s: State, events: seq<Event>, t: nat, u: nat)
    requires Start(s)
    requires var txs := Run(s, events).txs;
      && t < |txs| && u < |txs| && txs[t].call.Rotate? && txs[u].call.Rotate? && txs[t].call.id == txs[u].call.id
      && txs[t].phase == Done(Rotated) && txs[u].phase == Done(Rotated)
    ensures t == u
  {
    RunInv(s, events);
    var end := Run(s, events);
    assert TxOk(end.rows, end.serial, end.txs[t]) && TxOk(end.rows, end.serial, end.txs[u]);
    MadeApart(end, t, u);
  }

  /** A rotation that finds its token revoked can only be on the way to the reuse answer. */
  predicate Barred(tx: Tx, id: int) {
    tx.call.Rotate? && tx.call.id == id ==>
      tx.phase.Begun? || tx.phase.Listing? || tx.phase.Revoking? || tx.phase == Done(Reuse) || tx.phase.Failed?
  }

  lemma {:induction false} StaysBarred(s: State, events: seq<Event>, u: nat, id: int)
    requires Inv(s) && id in s.rows && s.rows[id].revoked
    requires u < |s.txs| ==> Barred(s.txs[u], id)
    ensures u < |Run(s, events).txs| ==> Barred(Run(s, events).txs[u], id)
    decreases |events|
  {
    if events != [] {
      ApplyInv(s, events[0]);
      StaysBarred(Apply(s, events[0]), events[1..], u, id);
    }
  }

  /** Once a rotation of a token has committed, every rotation of it that had not read the row by then, or
      comes later, is answered with the reuse answer or fails. */
  lemma ThenOnlyReuse(s: State, before: seq<Event>, after: seq<Event>, t: nat, u: nat)
    requires Start(s)
    requires var mid := Run(s, before);
      && t < |mid.txs| && mid.txs[t].call.Rotate? && mid.txs[t].phase == Done(Rotated)
      && (u < |mid.txs| ==> mid.txs[u].phase.Begun?)
    requires var end := Run(Run(s, before), after);
      && u < |end.txs| && end.txs[u].call.Rotate? && end.txs[u].call.id == Run(s, before).txs[t].call.id
      && end.txs[u].phase.Done?
    ensures Run(Run(s, before), after).txs[u].phase == Done(Reuse)
  {
    RunInv(s, before);
    var mid := Run(s, before);
    assert TxOk(mid.rows, mid.serial, mid.txs[t]);
    StaysBarred(mid, after, u, mid.txs[t].call.id);
  }

  // ── What the reuse answer revokes ──

  /** Every row of the user that was committed when the listing ran is revoked when the answer is given;
      a row that is live then came later. */
  lemma SurvivorsCameLater(s: State, before: seq<Event>, t: nat, after: seq<Event>, x: int)
    requires Start(s)
    requires var mid := Run(s, before);
      t < |mid.txs| && mid.txs[t].phase.Listing? && (mid.txs[t].call.Rotate? || mid.txs[t].call.RevokeAll?)
    requires var end := Run(Apply(Run(s, before), List(t)), after);
      t < |end.txs| && end.txs[t].phase.Done? && Live(end.rows, x) && end.rows[x].userId == Run(s, before).txs[t].user
    ensures x !in Run(s, before).rows
  {
    RunInv(s, before);
    var mid := Run(s, before);
    var listed := Apply(mid, List(t));
    ApplyInv(mid, List(t));
    RunInv(listed, after);
    var end := Run(listed, after);
    assert Follows(listed.txs[t], end.txs[t]);
    assert TxOk(end.rows, end.serial, end.txs[t]);
  }

  /** Every link leads to a row of the same user. */
  predicate LinksStayWithUser(t: Tokens) {
    forall id :: id in t && t[id].replacedBy.Some? ==>
      t[id].replacedBy.value in t && t[t[id].replacedBy.value].userId == t[id].userId
  }

  lemma CommitStaysWithUser(rows: Tokens, serial: int, tx: Tx)
    requires TxOk(rows, serial, tx) && (tx.phase.Ready? || tx.phase == Revoking({})) && LinksStayWithUser(rows)
    ensures LinksStayWithUser(rows + tx.own)
  {
    var after := rows + tx.own;
    forall id | id in after && after[id].replacedBy.Some?
      ensures after[id].replacedBy.value in after && after[after[id].replacedBy.value].userId == after[id].userId
    {
      assert id in tx.own ==> OwnOk(rows, tx, id);
      assert after[id].replacedBy.value in tx.own ==> OwnOk(rows, tx, after[id].replacedBy.value);
    }
  }

  lemma {:induction false} RunStaysWithUser(s: State, events: seq<Event>)
    requires Inv(s) && LinksStayWithUser(s.rows)
    ensures LinksStayWithUser(Run(s, events).rows)
    decreases |events|
  {
    if events != [] {
      ApplyInv(s, events[0]);
      if events[0].Commit? && Enabled(s, events[0]) {
        CommitStaysWithUser(s.rows, s.serial, s.txs[events[0].t]);
      }
      RunStaysWithUser(Apply(s, events[0]), events[1..]);
    }
  }

  lemma {:induction false} FollowStaysWithUser(t: Tokens, id: int, k: nat)
    requires LinksStayWithUser(t) && id in t
    ensures var last := Follow(LinksOf(t), id, k);
      last.Some? ==> last.value in t && t[last.value].userId == t[id].userId
    decreases k
  {
    if k != 0 && t[id].replacedBy.Some? {
      FollowStaysWithUser(t, t[id].replacedBy.value, k - 1);
    }
  }

  /** The reuse answer to a revoked token leaves live, of all the tokens its chain leads to, none that was
      committed when the listing ran. */
  lemma ReuseRevokesTheChain(s: State, before: seq<Event>, t: nat, after: seq<Event>, k: nat)
    requires Start(s) && LinksStayWithUser(s.rows)
    requires var mid := Run(s, before);
      t < |mid.txs| && mid.txs[t].phase.Listing? && mid.txs[t].call.Rotate?
    requires var end := Run(Apply(Run(s, before), List(t)), after);
      t < |end.txs| && end.txs[t].phase.Done?
    ensures var mid, end := Run(s, before), Run(Apply(Run(s, before), List(t)), after);
      var last := Follow(LinksOf(end.rows), mid.txs[t].call.id, k);
      last.Some? && last.value in mid.rows ==> last.value in end.rows && end.rows[last.value].revoked
  {
    var mid, listed := Run(s, before), Apply(Run(s, before), List(t));
    var end := Run(listed, after);
    RunInv(s, before);
    RunStaysWithUser(s, before);
    ApplyInv(mid, List(t));
    RunInv(listed, after);
    RunStaysWithUser(listed, after);
    assert TxOk(mid.rows, mid.serial, mid.txs[t]);
    FollowStaysWithUser(end.rows, mid.txs[t].call.id, k);
    var last := Follow(LinksOf(end.rows), mid.txs[t].call.id, k);
    if last.Some? && Live(end.rows, last.value) {
      SurvivorsCameLater(s, before, t, after, last.value);
    }
  }

  // ── When nothing survives ──

  /** The open call may still commit a live token of the user. */
  predicate MayIssue(s: State, u: nat, user: int)
    requires u < |s.txs|
  {
    var tx := s.txs[u];
    match tx.call
    case Login(_, who, _) => !tx.phase.Over() && who == user
    case Rotate(id, _, now) => id in s.rows && s.rows[id].userId == user &&
      (tx.phase.Issuing? || tx.phase == Ready(Rotated)
       || (tx.phase.Begun? && !s.rows[id].revoked && now < s.rows[id].expiresAt))
    case _ => false
  }

  predicate NobodyIssues(s: State, user: int) {
    forall u :: 0 <= u < |s.txs| ==> !MayIssue(s, u, user)
  }

  predicate Quiet(events: seq<Event>) {
    forall i :: 0 <= i < |events| ==> !events[i].Submit?
  }

  /** The user does not log in anew; all other calls may come. */
  predicate NoLogin(events: seq<Event>, user: int) {
    forall i :: 0 <= i < |events| ==> !LogsIn(events[i], user)
  }

  predicate LogsIn(e: Event, user: int) {
    e.Submit? && e.call.Login? && e.call.user == user
  }

  predicate NoneLive(rows: Tokens, user: int) {
    forall x :: x in rows ==> rows[x].revoked || rows[x].userId != user
  }

  function UserRows(rows: Tokens, user: int): set<int> {
    set x | x in rows && rows[x].userId == user
  }

  lemma CommitOfOthers(s: State, t: nat, user: int)
    requires Inv(s) && Enabled(s, Commit(t)) && !MayIssue(s, t, user)
    ensures UserRows(Apply(s, Commit(t)).rows, user) <= UserRows(s.rows, user)
  {
    var tx := s.txs[t];
    assert TxOk(s.rows, s.serial, tx);
    forall x | x in UserRows(s.rows + tx.own, user)
      ensures x in UserRows(s.rows, user)
    {
      assert x in tx.own ==> OwnOk(s.rows, tx, x);
    }
  }

  lemma NobodyIssuesNext(s: State, e: Event, user: int)
    requires Inv(s) && NobodyIssues(s, user) && !e.Submit?
    ensures NobodyIssues(Apply(s, e), user) && UserRows(Apply(s, e).rows, user) <= UserRows(s.rows, user)
  {
    var s' := Apply(s, e);
    ApplyInv(s, e);
    if e.Commit? && Enabled(s, e) {
      CommitOfOthers(s, e.t, user);
    }
    forall u | 0 <= u < |s'.txs|
      ensures !MayIssue(s', u, user)
    {
      assert !MayIssue(s, u, user) && TxOk(s.rows, s.serial, s.txs[u]);
    }
  }

  /** With nobody to issue for the user, the listing sees whatever rows the user will have. */
  lemma {:induction false} ListingSeesAll(s: State, events: seq<Event>, t: nat, user: int, all: set<int>)
    requires Inv(s) && Quiet(events) && NobodyIssues(s, user) && t < |s.txs|
    requires UserRows(s.rows, user) <= all <= s.rows.Keys
    requires s.txs[t].phase.Listing? || s.txs[t].phase.Failed? || all <= s.txs[t].seen
    ensures var end := Run(s, events);
      && t < |end.txs| && UserRows(end.rows, user) <= all
      && (end.txs[t].phase.Listing? || end.txs[t].phase.Failed? || all <= end.txs[t].seen)
    decreases |events|
  {
    if events != [] {
      var next := Apply(s, events[0]);
      ApplyInv(s, events[0]);
      NobodyIssuesNext(s, events[0], user);
      assert all <= next.rows.Keys by {
        forall x | x in all
          ensures x in next.rows
        {
          assert x in s.rows;
        }
      }
      ListingSeesAll(next, events[1..], t, user, all);
    }
  }

  lemma AllSeenNoneLive(rows: Tokens, serial: int, tx: Tx, user: int)
    requires TxOk(rows, serial, tx) && tx.phase == Done(Reuse) && tx.user == user
    requires UserRows(rows, user) <= tx.seen
    ensures NoneLive(rows, user)
  {
    forall x | x in rows
      ensures rows[x].revoked || rows[x].userId != user
    {
      assert rows[x].userId == user ==> x in UserRows(rows, user);
    }
  }

  lemma OnlyReuse(s: State, events: seq<Event>, t: nat)
    requires Inv(s) && t < |s.txs| && s.txs[t].call.Rotate? && s.txs[t].phase.Listing?
    ensures t < |Run(s, events).txs| && Run(s, events).txs[t].user == s.txs[t].user
    ensures Run(s, events).txs[t].phase.Done? ==> Run(s, events).txs[t].phase == Done(Reuse)
  {
    RunInv(s, events);
    assert Follows(s.txs[t], Run(s, events).txs[t]);
  }

  lemma NobodySurvives(s: State, events: seq<Event>, t: nat, user: int)
    requires Inv(s) && Quiet(events) && NobodyIssues(s, user)
    requires t < |s.txs| && s.txs[t].call.Rotate? && s.txs[t].phase.Listing? && s.txs[t].user == user
    ensures t < |Run(s, events).txs|
    ensures Run(s, events).txs[t].phase.Done? ==> NoneLive(Run(s, events).rows, user)
  {
    OnlyReuse(s, events, t);
    RunInv(s, events);
    var end := Run(s, events);
    if end.txs[t].phase.Done? {
      ListingSeesAll(s, events, t, user, UserRows(s.rows, user));
      AllSeenNoneLive(end.rows, end.serial, end.txs[t], user);
    }
  }

  // ── When one does ──

  lemma {:induction false} RunOn(s: State, a: seq<Event>, b: seq<Event>)
    ensures Run(s, a + b) == Run(Run(s, a), b)
    decreases |a|
  {
    if a == [] {
      assert a + b == b;
    } else {
      assert (a + b)[1..] == a[1..] + b;
      RunOn(Apply(s, a[0]), a[1..], b);
    }
  }

  lemma RunOne(s: State, a: seq<Event>, e: Event)
    ensures Run(s, a + [e]) == Apply(Run(s, a), e)
    ensures !e.Submit? && Quiet(a) ==> Quiet(a + [e])
  {
    RunOn(s, a, [e]);
    assert Run(Run(s, a), [e]) == Run(Apply(Run(s, a), e), [e][1..]);
  }

  /** All transactions but these two are over. */
  predicate OnlyOpen(s: State, t: nat, u: nat) {
    forall v :: 0 <= v < |s.txs| && v != t && v != u ==> s.txs[v].phase.Over()
  }

  lemma {:induction false} AbortOthers(s: State, t: nat, u: nat, n: nat) returns (events: seq<Event>)
    requires t < |s.txs| && u < |s.txs| && n <= |s.txs|
    ensures Quiet(events)
    ensures var end := Run(s, events);
      && end.rows == s.rows && |end.txs| == |s.txs| && end.txs[t] == s.txs[t] && end.txs[u] == s.txs[u]
      && forall v :: 0 <= v < n && v != t && v != u ==> end.txs[v].phase.Over()
  {
    if n == 0 {
      events := [];
    } else {
      var first := AbortOthers(s, t, u, n - 1);
      if n - 1 == t || n - 1 == u {
        events := first;
      } else {
        events := first + [Abort(n - 1)];
        RunOne(s, first, Abort(n - 1));
      }
    }
  }

  lemma OverHoldsNothing(s: State, t: nat, u: nat, x: int)
    requires Inv(s) && OnlyOpen(s, t, u) && t < |s.txs| && u < |s.txs|
    requires t != u && x !in s.txs[u].locks
    ensures Free(s, t, x)
  {
    forall v | 0 <= v < |s.txs| && v != t
      ensures x !in s.txs[v].locks
    {
      assert TxOk(s.rows, s.serial, s.txs[v]);
    }
  }

  /** What the open transaction `t` does while `u` stands still. */
  predicate Beside(s: State, end: State, t: nat, u: nat)
    requires t < |s.txs| && u < |s.txs|
  {
    && |end.txs| == |s.txs| && end.txs[u] == s.txs[u] && end.txs[t].call == s.txs[t].call && end.txs[t].user == s.txs[t].user
    && end.serial == s.serial
  }

  lemma MarkNext(s: State, t: nat, u: nat, x: int) returns (next: State)
    requires Inv(s) && OnlyOpen(s, t, u) && t < |s.txs| && u < |s.txs| && t != u
    requires s.txs[t].phase.Revoking? && s.txs[t].call.InTransaction() && x in s.txs[t].phase.todo - s.txs[u].locks
    ensures next == Apply(s, Mark(t, x)) && Inv(next) && OnlyOpen(next, t, u) && Beside(s, next, t, u) && next.rows == s.rows
    ensures next.txs[t].phase == Revoking(s.txs[t].phase.todo - {x})
    ensures next.txs[t].phase.todo <= s.txs[t].phase.todo && |next.txs[t].phase.todo| < |s.txs[t].phase.todo|
    ensures next.txs[t].own.Keys == s.txs[t].own.Keys + {x}
  {
    assert TxOk(s.rows, s.serial, s.txs[t]);
    OverHoldsNothing(s, t, u, x);
    next := Apply(s, Mark(t, x));
    ApplyInv(s, Mark(t, x));
  }

  lemma RunCons(s: State, e: Event, rest: seq<Event>)
    ensures Run(s, [e] + rest) == Run(Apply(s, e), rest)
    ensures !e.Submit? && Quiet(rest) ==> Quiet([e] + rest)
  {
    assert ([e] + rest)[1..] == rest;
  }

  /** The transaction has updated the rows it had to. */
  ghost predicate Drained(s: State, end: State, t: nat, u: nat)
    requires t < |s.txs| && u < |s.txs| && s.txs[t].phase.Revoking?
  {
    && OnlyOpen(end, t, u) && Beside(s, end, t, u) && end.rows == s.rows
    && end.txs[t].phase == Revoking({}) && end.txs[t].own.Keys == s.txs[t].own.Keys + s.txs[t].phase.todo
  }

  /** Nothing in its way, a transaction updates the rows it listed, one by one. */
  lemma {:induction false} Drain(s: State, t: nat, u: nat) returns (events: seq<Event>, end: State)
    requires Inv(s) && OnlyOpen(s, t, u) && t < |s.txs| && u < |s.txs| && t != u
    requires s.txs[t].phase.Revoking? && s.txs[t].call.InTransaction() && s.txs[t].phase.todo !! s.txs[u].locks
    ensures Quiet(events) && end == Run(s, events) && Drained(s, end, t, u)
    decreases |s.txs[t].phase.todo|
  {
    var todo := s.txs[t].phase.todo;
    if todo == {} {
      events, end := [], s;
    } else {
      var x := Pick(todo);
      var next := MarkNext(s, t, u, x);
      var rest;
      rest, end := Drain(next, t, u);
      events := [Mark(t, x)] + rest;
      RunCons(s, Mark(t, x), rest);
      DrainedOn(s, next, end, t, u, x);
    }
  }

  lemma DrainedOn(s: State, next: State, end: State, t: nat, u: nat, x: int)
    requires t < |s.txs| && u < |s.txs| && s.txs[t].phase.Revoking? && x in s.txs[t].phase.todo
    requires Beside(s, next, t, u) && next.rows == s.rows && next.txs[t].phase == Revoking(s.txs[t].phase.todo - {x})
    requires next.txs[t].own.Keys == s.txs[t].own.Keys + {x} && Drained(next, end, t, u)
    ensures Drained(s, end, t, u)
  {
    assert s.txs[t].phase.todo == {x} + next.txs[t].phase.todo;
  }

  /** The answer was given, and the user has a live token. */
  ghost predicate Survived(end: State, t: nat, user: int) {
    t < |end.txs| && end.txs[t].phase.Done? && !NoneLive(end.rows, user)
  }

  /** A reuse answer that is about to list, and nobody else but `u` at work. */
  ghost predicate Facing(s: State, t: nat, u: nat, user: int) {
    && Inv(s) && t < |s.txs| && u < |s.txs| && t != u && OnlyOpen(s, t, u)
    && s.txs[t].call.Rotate? && s.txs[t].phase.Listing? && s.txs[t].user == user
  }

  /** The listing has run; what it found is there, and is all that will be updated. */
  lemma Listed(s: State, t: nat, u: nat, user: int) returns (next: State)
    requires Facing(s, t, u, user)
    ensures next == Apply(s, List(t)) && Inv(next) && OnlyOpen(next, t, u) && Beside(s, next, t, u) && next.rows == s.rows
    ensures next.txs[t].phase.Revoking? && next.txs[t].phase.todo <= s.rows.Keys && next.txs[t].own == map[]
    ensures forall x :: x in next.txs[t].phase.todo ==> !s.rows[x].revoked && s.rows[x].userId == user
    ensures next.txs[t].call.Rotate?
  {
    assert TxOk(s.rows, s.serial, s.txs[t]);
    next := Apply(s, List(t));
    ApplyInv(s, List(t));
  }

  /** The updates run and the answer commits; rows that were not listed stay as they are. */
  lemma Answered(s: State, t: nat, u: nat) returns (events: seq<Event>, end: State)
    requires Inv(s) && OnlyOpen(s, t, u) && t < |s.txs| && u < |s.txs| && t != u
    requires s.txs[t].call.Rotate? && s.txs[t].phase.Revoking? && s.txs[t].phase.todo !! s.txs[u].locks
    ensures Quiet(events) && end == Run(s, events) && Inv(end) && |end.txs| == |s.txs| && OnlyOpen(end, t, u)
    ensures end.txs[t].phase.Done? && end.txs[u] == s.txs[u] && end.serial == s.serial
    ensures forall x :: x in s.rows && x !in s.txs[t].own && x !in s.txs[t].phase.todo ==>
      x in end.rows && end.rows[x] == s.rows[x]
  {
    var drain, drained := Drain(s, t, u);
    RunInv(s, drain);
    RunOne(s, drain, Commit(t));
    events, end := drain + [Commit(t)], Apply(drained, Commit(t));
    ApplyInv(drained, Commit(t));
  }

  lemma CommitsLive(s: State, u: nat, user: int) returns (next: State, n: int)
    requires Inv(s) && u < |s.txs| && s.txs[u].user == user
    requires s.txs[u].phase == Ready(Rotated) || s.txs[u].phase == Ready(LoggedIn)
    ensures next == Apply(s, Commit(u)) && Inv(next) && n !in s.rows
    ensures |next.txs| == |s.txs| && next.txs[u].phase.Over() && forall v :: 0 <= v < |s.txs| && v != u ==> next.txs[v] == s.txs[v]
    ensures Live(next.rows, n) && next.rows[n].userId == user
  {
    var tx := s.txs[u];
    assert TxOk(s.rows, s.serial, tx);
    n := tx.made.value;
    assert OwnOk(s.rows, tx, n);
    next := Apply(s, Commit(u));
    ApplyInv(s, Commit(u));
  }

  /** The listing runs, then the other call commits its token, then the answer is given. */
  lemma ReadySurvives(s: State, t: nat, u: nat, user: int) returns (events: seq<Event>)
    requires Facing(s, t, u, user) && s.txs[u].user == user
    requires s.txs[u].phase == Ready(Rotated) || s.txs[u].phase == Ready(LoggedIn)
    ensures Quiet(events) && Survived(Run(s, events), t, user)
  {
    var listed := Listed(s, t, u, user);
    var committed, n := CommitsLive(listed, u, user);
    assert TxOk(committed.rows, committed.serial, committed.txs[u]);
    var tail, end := Answered(committed, t, u);
    RunCons(listed, Commit(u), tail);
    RunCons(s, List(t), [Commit(u)] + tail);
    events := [List(t)] + ([Commit(u)] + tail);
    assert n in end.rows && !end.rows[n].revoked;
  }

  lemma IssuingSurvives(s: State, t: nat, u: nat, user: int) returns (events: seq<Event>)
    requires Facing(s, t, u, user) && s.txs[u].user == user && Enabled(s, Issue(u))
    ensures Quiet(events) && Survived(Run(s, events), t, user)
  {
    var next := Apply(s, Issue(u));
    ApplyInv(s, Issue(u));
    var rest := ReadySurvives(next, t, u, user);
    RunCons(s, Issue(u), rest);
    events := [Issue(u)] + rest;
  }

  lemma BegunSurvives(s: State, t: nat, u: nat, user: int) returns (events: seq<Event>)
    requires Facing(s, t, u, user) && s.txs[u].phase.Begun? && MayIssue(s, u, user)
    ensures Quiet(events) && Survived(Run(s, events), t, user)
  {
    assert TxOk(s.rows, s.serial, s.txs[t]) && TxOk(s.rows, s.serial, s.txs[u]);
    OverHoldsNothing(s, u, t, s.txs[u].call.id);
    var next := Apply(s, Lock(u));
    ApplyInv(s, Lock(u));
    var rest := IssuingSurvives(next, t, u, user);
    RunCons(s, Lock(u), rest);
    events := [Lock(u)] + rest;
  }

  /** A login with nothing more to revoke, after the answer. */
  lemma LoginCommits(s: State, t: nat, u: nat, user: int) returns (events: seq<Event>)
    requires Inv(s) && t < |s.txs| && u < |s.txs| && t != u && s.txs[t].phase.Done?
    requires s.txs[u].call.Login? && s.txs[u].user == user && s.txs[u].phase == Revoking({})
    ensures Quiet(events) && Survived(Run(s, events), t, user)
  {
    var issued := Apply(s, Issue(u));
    ApplyInv(s, Issue(u));
    var end, n := CommitsLive(issued, u, user);
    events := [Issue(u)] + [Commit(u)];
    RunCons(issued, Commit(u), []);
    assert [Commit(u)] + [] == [Commit(u)];
    RunCons(s, Issue(u), [Commit(u)]);
    assert n in end.rows && !end.rows[n].revoked;
  }

  /** The answer is given first; then the login finishes. */
  lemma LoginRevokes(s: State, t: nat, u: nat, user: int) returns (events: seq<Event>)
    requires Inv(s) && OnlyOpen(s, t, u) && t < |s.txs| && u < |s.txs| && t != u && s.txs[t].phase.Done?
    requires s.txs[u].call.Login? && s.txs[u].user == user && s.txs[u].phase.Revoking?
    ensures Quiet(events) && Survived(Run(s, events), t, user)
  {
    assert TxOk(s.rows, s.serial, s.txs[t]);
    var drain, drained := Drain(s, u, t);
    RunInv(s, drain);
    var rest := LoginCommits(drained, t, u, user);
    RunOn(s, drain, rest);
    events := drain + rest;
  }

  lemma LoginLater(s: State, t: nat, u: nat, user: int) returns (events: seq<Event>)
    requires Facing(s, t, u, user) && s.txs[u].call.Login? && s.txs[u].user == user && s.txs[u].locks == {}
    requires s.txs[u].phase.Listing? || s.txs[u].phase.Revoking?
    ensures Quiet(events) && Survived(Run(s, events), t, user)
  {
    var listed := Listed(s, t, u, user);
    var first, answered := Answered(listed, t, u);
    var rest: seq<Event>;
    if s.txs[u].phase.Listing? {
      var next := Apply(answered, List(u));
      ApplyInv(answered, List(u));
      rest := LoginRevokes(next, t, u, user);
      RunCons(answered, List(u), rest);
      rest := [List(u)] + rest;
    } else {
      rest := LoginRevokes(answered, t, u, user);
    }
    RunOn(listed, first, rest);
    RunCons(s, List(t), first + rest);
    events := [List(t)] + (first + rest);
  }

  /** Whatever the other call still has to do, some interleaving leaves the user a live token. */
  lemma SomeInterleaving(s: State, t: nat, u: nat, user: int) returns (events: seq<Event>)
    requires Facing(s, t, u, user) && MayIssue(s, u, user)
    ensures Quiet(events) && Survived(Run(s, events), t, user)
  {
    var tx := s.txs[u];
    assert TxOk(s.rows, s.serial, tx);
    if tx.phase.Begun? {
      events := BegunSurvives(s, t, u, user);
    } else if tx.phase.Ready? {
      events := ReadySurvives(s, t, u, user);
    } else if tx.phase.Issuing? || tx.phase == Revoking({}) {
      events := IssuingSurvives(s, t, u, user);
    } else {
      events := LoginLater(s, t, u, user);
    }
  }

  /** When the reuse answer is about to list the user's tokens: it leaves the user without a live token in
      every continuation without new calls exactly when no call that is open then may still issue one. */
  lemma OpenCallsDecideIff(start: State, before: seq<Event>, t: nat, user: int)
    requires Start(start)
    requires var s := Run(start, before);
      t < |s.txs| && s.txs[t].call.Rotate? && s.txs[t].phase.Listing? && s.txs[t].user == user
    ensures NobodyIssues(Run(start, before), user) <==>
            forall events :: Quiet(events) ==> !Survived(Run(Run(start, before), events), t, user)
  {
    var s := Run(start, before);
    RunInv(start, before);
    if NobodyIssues(s, user) {
      forall events | Quiet(events)
        ensures !Survived(Run(s, events), t, user)
      {
        NobodySurvives(s, events, t, user);
      }
    } else {
      var u :| 0 <= u < |s.txs| && MayIssue(s, u, user);
      var events := Counterexample(s, t, u, user);
      assert Quiet(events) && Survived(Run(s, events), t, user);
    }
  }

  lemma Counterexample(s: State, t: nat, u: nat, user: int) returns (events: seq<Event>)
    requires Inv(s) && t < |s.txs| && s.txs[t].call.Rotate? && s.txs[t].phase.Listing? && s.txs[t].user == user
    requires u < |s.txs| && MayIssue(s, u, user)
    ensures Quiet(events) && Survived(Run(s, events), t, user)
  {
    var aborts := AbortOthers(s, t, u, |s.txs|);
    RunInv(s, aborts);
    var alone := Run(s, aborts);
    assert MayIssue(alone, u, user);
    var rest := SomeInterleaving(alone, t, u, user);
    RunOn(s, aborts, rest);
    events := aborts + rest;
  }

  // ── With new calls ──

  /** A user without a live token and without a call to issue one stays so until the next login. */
  lemma DeadNext(s: State, e: Event, user: int)
    requires Inv(s) && NobodyIssues(s, user) && NoneLive(s.rows, user) && !LogsIn(e, user)
    ensures NobodyIssues(Apply(s, e), user) && NoneLive(Apply(s, e).rows, user)
  {
    var s' := Apply(s, e);
    if e.Submit? {
      forall u | 0 <= u < |s'.txs|
        ensures !MayIssue(s', u, user)
      {
        assert u < |s.txs| ==> !MayIssue(s, u, user);
      }
    } else {
      ApplyInv(s, e);
      NobodyIssuesNext(s, e, user);
      forall x | x in s'.rows && s'.rows[x].userId == user
        ensures s'.rows[x].revoked
      {
        assert x in UserRows(s'.rows, user);
        assert x in UserRows(s.rows, user);
      }
    }
  }

  lemma {:induction false} DeadForGood(s: State, events: seq<Event>, user: int)
    requires Inv(s) && NobodyIssues(s, user) && NoneLive(s.rows, user) && NoLogin(events, user)
    ensures NoneLive(Run(s, events).rows, user)
    decreases |events|
  {
    if events != [] {
      assert !LogsIn(events[0], user);
      DeadNext(s, events[0], user);
      ApplyInv(s, events[0]);
      DeadForGood(Apply(s, events[0]), events[1..], user);
    }
  }

  /** After the listing a live token of the user is presented, and its row is locked. */
  lemma RotationBegins(s: State, t: nat, user: int, x: int) returns (call: Call, next: State)
    requires Inv(s) && t < |s.txs| && OnlyOpen(s, t, t)
    requires s.txs[t].call.Rotate? && s.txs[t].phase.Revoking? && s.txs[t].own == map[]
    requires Live(s.rows, x) && s.rows[x].userId == user
    ensures call.Rotate? && next == Run(s, [Submit(call), Lock(|s.txs|)]) && Inv(next) && |next.txs| == |s.txs| + 1
    ensures next.rows == s.rows && next.txs[..|s.txs|] == s.txs && Enabled(next, Issue(|s.txs|))
    ensures next.txs[|s.txs|].user == user && next.txs[|s.txs|].call == call
  {
    var u := |s.txs|;
    call := Rotate(x, s.rows[x].expiresAt, s.rows[x].expiresAt - 1);
    var begun := Apply(s, Submit(call));
    ApplyInv(s, Submit(call));
    assert TxOk(s.rows, s.serial, s.txs[t]);
    OverHoldsNothing(begun, u, t, x);
    next := Apply(begun, Lock(u));
    ApplyInv(begun, Lock(u));
    RunCons(begun, Lock(u), []);
    RunCons(s, Submit(call), [Lock(u)]);
  }

  /** Its successor is committed. */
  lemma RotationCommits(s: State, u: nat, user: int) returns (next: State, n: int)
    requires Inv(s) && u < |s.txs| && s.txs[u].call.Rotate? && s.txs[u].user == user && Enabled(s, Issue(u))
    ensures next == Run(s, [Issue(u), Commit(u)]) && Inv(next) && n !in s.rows && Live(next.rows, n)
    ensures next.rows[n].userId == user && |next.txs| == |s.txs| && next.txs[u].phase.Over()
    ensures forall v :: 0 <= v < |s.txs| && v != u ==> next.txs[v] == s.txs[v]
  {
    var issued := Apply(s, Issue(u));
    ApplyInv(s, Issue(u));
    next, n := CommitsLive(issued, u, user);
    RunCons(issued, Commit(u), []);
    RunCons(s, Issue(u), [Commit(u)]);
  }

  /** A rotation that begins after the listing and ends before the answer leaves its successor. */
  lemma RotationOvertakes(s: State, t: nat, user: int, x: int) returns (events: seq<Event>)
    requires Inv(s) && t < |s.txs| && OnlyOpen(s, t, t)
    requires s.txs[t].call.Rotate? && s.txs[t].phase.Revoking? && s.txs[t].own == map[]
    requires Live(s.rows, x) && s.rows[x].userId == user
    ensures NoLogin(events, user) && Survived(Run(s, events), t, user)
  {
    var u := |s.txs|;
    var call, begun := RotationBegins(s, t, user, x);
    assert begun.txs[t] == begun.txs[..u][t];
    assert forall v :: 0 <= v < u ==> begun.txs[v] == begun.txs[..u][v];
    var committed, n := RotationCommits(begun, u, user);
    assert TxOk(s.rows, s.serial, s.txs[t]) && TxOk(committed.rows, committed.serial, committed.txs[u]);
    var tail, end := Answered(committed, t, u);
    assert Live(end.rows, n) && end.rows[n].userId == user;
    var first, second := [Submit(call), Lock(u)], [Issue(u), Commit(u)];
    RunOn(begun, second, tail);
    RunOn(s, first, second + tail);
    events := first + (second + tail);
  }

  lemma LateRotationSurvives(s: State, t: nat, user: int, x: int) returns (events: seq<Event>)
    requires Inv(s) && t < |s.txs| && s.txs[t].call.Rotate? && s.txs[t].phase.Listing?
    requires Live(s.rows, x) && s.rows[x].userId == user
    ensures NoLogin(events, user) && Survived(Run(s, events), t, user)
  {
    var aborts := AbortOthers(s, t, t, |s.txs|);
    RunInv(s, aborts);
    var alone := Run(s, aborts);
    assert TxOk(alone.rows, alone.serial, alone.txs[t]);
    var listed := Apply(alone, List(t));
    ApplyInv(alone, List(t));
    var rest := RotationOvertakes(listed, t, user, x);
    RunCons(alone, List(t), rest);
    RunOn(s, aborts, [List(t)] + rest);
    events := aborts + ([List(t)] + rest);
  }

  /** When the reuse answer is about to list the user's tokens: it leaves the user without a live token in
      every continuation, new logins of the user aside, exactly when there is none to list and no open call
      may still issue one. A rotation may begin between the listing and the updates. */
  lemma ReuseIsCompleteIff(start: State, before: seq<Event>, t: nat, user: int)
    requires Start(start)
    requires var s := Run(start, before);
      t < |s.txs| && s.txs[t].call.Rotate? && s.txs[t].phase.Listing? && s.txs[t].user == user
    ensures NobodyIssues(Run(start, before), user) && NoneLive(Run(start, before).rows, user) <==>
            forall events :: NoLogin(events, user) ==> !Survived(Run(Run(start, before), events), t, user)
  {
    var s := Run(start, before);
    RunInv(start, before);
    if !NobodyIssues(s, user) {
      var u :| 0 <= u < |s.txs| && MayIssue(s, u, user);
      var events := Counterexample(s, t, u, user);
      assert NoLogin(events, user) && Survived(Run(s, events), t, user);
    } else if !NoneLive(s.rows, user) {
      var x :| Live(s.rows, x) && s.rows[x].userId == user;
      var events := LateRotationSurvives(s, t, user, x);
      assert NoLogin(events, user) && Survived(Run(s, events), t, user);
    } else {
      forall events | NoLogin(events, user)
        ensures !Survived(Run(s, events), t, user)
      {
        DeadForGood(s, events, user);
      }
    }
  }

  // ── A rotation that slips past the reuse answer ──

  /** User 7 has a token, 2, that replaced another, 1. */
  predicate TwoTokens(s: State) {
    s == State(map[1 := Token(7, 500, true, Some(2)), 2 := Token(7, 500, false, None)], 2, [])
  }

  /** Token 2 is being rotated; its successor, 3, is inserted and not committed. */
  lemma SuccessorWaits(s: State) returns (mid: State)
    requires TwoTokens(s)
    ensures mid == Run(s, [Submit(Rotate(2, 900, 100)), Submit(Rotate(1, 900, 100)), Lock(0), Issue(0)])
    ensures mid.rows == s.rows && |mid.txs| == 2 && mid.txs[1] == Fresh(Rotate(1, 900, 100))
    ensures mid.txs[0].call == Rotate(2, 900, 100) && Rotating(mid.txs[0])
  {
    mid := Run(s, [Submit(Rotate(2, 900, 100)), Submit(Rotate(1, 900, 100)), Lock(0), Issue(0)]);
  }

  predicate Rotating(tx: Tx) {
    && tx.call.Rotate? && tx.phase == Ready(Rotated) && tx.locks == {2}
    && tx.own == map[3 := Token(7, 900, false, None), 2 := Token(7, 500, true, Some(3))]
  }

  /** Token 1 is presented: the listing finds 2, whose row is locked. */
  lemma ReuseWaits(mid: State) returns (next: State)
    requires mid.rows == map[1 := Token(7, 500, true, Some(2)), 2 := Token(7, 500, false, None)]
    requires |mid.txs| == 2 && Rotating(mid.txs[0]) && mid.txs[1] == Fresh(Rotate(1, 900, 100))
    ensures next == Run(mid, [Lock(1), List(1)]) && !Enabled(next, Mark(1, 2))
    ensures next.rows == mid.rows && |next.txs| == 2 && next.txs[0] == mid.txs[0]
    ensures next.txs[1].call == mid.txs[1].call && next.txs[1].phase == Revoking({2}) && next.txs[1].own == map[]
  {
    var locked := Apply(mid, Lock(1));
    assert locked.txs[1].phase.Listing? && locked.txs[1].user == 7;
    next := Apply(locked, List(1));
    RunCons(locked, List(1), []);
    RunCons(mid, Lock(1), [List(1)]);
    assert next.txs[1].phase == Revoking({2}) && 2 in next.txs[0].locks;
  }

  predicate ThreeRows(rows: Tokens) {
    && 1 in rows && 2 in rows && 3 in rows && rows[1].replacedBy == Some(2)
    && rows[2] == Token(7, 500, true, Some(3)) && rows[3] == Token(7, 900, false, None)
  }

  lemma SuccessorCommits(s: State) returns (next: State)
    requires s.rows == map[1 := Token(7, 500, true, Some(2)), 2 := Token(7, 500, false, None)]
    requires |s.txs| == 2 && Rotating(s.txs[0])
    ensures next == Apply(s, Commit(0)) && ThreeRows(next.rows) && |next.txs| == 2 && next.txs[1] == s.txs[1]
    ensures next.txs[0].phase == Done(Rotated) && next.txs[0].locks == {}
  {
    next := Apply(s, Commit(0));
  }

  /** The row that was listed is updated, and no other. */
  lemma ReuseMisses(s: State) returns (end: State)
    requires |s.txs| == 2 && ThreeRows(s.rows) && s.txs[0].locks == {}
    requires s.txs[1].call == Rotate(1, 900, 100) && s.txs[1].phase == Revoking({2}) && s.txs[1].own == map[]
    ensures end == Run(s, [Mark(1, 2), Commit(1)]) && |end.txs| == 2 && end.txs[0] == s.txs[0]
    ensures end.txs[1].phase == Done(Reuse) && end.txs[1].call == s.txs[1].call
    ensures ThreeRows(end.rows)
  {
    var marked := Apply(s, Mark(1, 2));
    assert marked.txs[1].phase == Revoking({}) && marked.txs[1].own == map[2 := s.rows[2]];
    end := Apply(marked, Commit(1));
    RunCons(marked, Commit(1), []);
    RunCons(s, Mark(1, 2), [Commit(1)]);
  }

  lemma ThreeInAChain(l: Links)
    requires 1 in l && 2 in l && 3 in l && l[1] == Some(2) && l[2] == Some(3)
    ensures Follow(l, 1, 2) == Some(3)
  {
    assert Follow(l, 2, 1) == Follow(l, 3, 0);
  }

  /** The chain of the token answered with reuse ends in a live token of the same user. */
  lemma RotationSlipsThrough(s: State) returns (events: seq<Event>, end: State)
    requires TwoTokens(s)
    ensures end == Run(s, events) && |end.txs| == 2
    ensures end.txs[0].phase == Done(Rotated) && end.txs[1].phase == Done(Reuse) && end.txs[1].call == Rotate(1, 900, 100)
    ensures Follow(LinksOf(end.rows), 1, 2) == Some(3) && Live(end.rows, 3) && end.rows[3].userId == 7
  {
    var a := [Submit(Rotate(2, 900, 100)), Submit(Rotate(1, 900, 100)), Lock(0), Issue(0)];
    var mid := SuccessorWaits(s);
    var next := ReuseWaits(mid);
    var committed := SuccessorCommits(next);
    end := ReuseMisses(committed);
    RunCons(next, Commit(0), [Mark(1, 2), Commit(1)]);
    RunOn(s, a, [Lock(1), List(1)]);
    RunOn(s, a + [Lock(1), List(1)], [Commit(0), Mark(1, 2), Commit(1)]);
    events := a + [Lock(1), List(1)] + [Commit(0), Mark(1, 2), Commit(1)];
    ThreeInAChain(LinksOf(end.rows));
  }
}
