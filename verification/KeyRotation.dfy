/** Encryption of resident registration numbers under a current and a previous key, and the script that
    re-encrypts a table of them. AES-GCM is taken at its word (section 7 of NIST SP 800-38D): the right
    key opens a box, every other key fails its tag. */
module KeyRotation {
  import opened Rows

  type Key = int

  const IV_BYTES := 12
  const TAG_BYTES := 16

  /** The bytes of a payload: what some key sealed, or anything else. */
  datatype Box = Sealed(key: Key, plain: string) | Garbage(length: nat) {
    /** Initialisation vector, tag and ciphertext; a text of no characters has no ciphertext. */
    function Length(): nat {
      if Sealed? then IV_BYTES + TAG_BYTES + |plain| else length
    }

    /** decryptWith. */
    function Open(key: Key): Option<string> {
      if Sealed? && this.key == key then Some(plain) else None
    }
  }

  /** The stored text; `v1` says whether it carries the version prefix. */
  datatype Payload = Payload(v1: bool, box: Box)

  /** An environment variable that should hold 32 bytes in base64. */
  datatype Setting = Absent | Blank | Malformed | Holds(key: Key)

  /** encryptionKey: a malformed setting throws, none at all derives the development key. */
  function CurrentKey(current: Setting, devKey: Key): Option<Key> {
    match current
    case Holds(key) => Some(key)
    case Malformed => None
    case _ => Some(devKey)
  }

  /** decryptRrn: the current key first, and whatever goes wrong with it, the previous key. */
  function Decrypted(current: Option<Key>, previous: Setting, payload: Payload): Option<string> {
    if payload.box.Length() <= IV_BYTES + TAG_BYTES then None
    else if current.Some? && payload.box.Open(current.value).Some? then payload.box.Open(current.value)
    else if previous.Holds? then payload.box.Open(previous.key)
    else None
  }

  datatype Class = Failed | Current | Target

  /** What the script makes of a row. */
  function ClassOf(current: Option<Key>, previous: Setting, payload: Payload): Class {
    if Decrypted(current, previous, payload).None? then Failed
    else if payload.v1 && Decrypted(current, Absent, payload).Some? then Current
    else Target
  }

  class Crypto {
    var current: Setting
    var previous: Setting
    var warned: bool
    const devKey: Key

    constructor (current: Setting, previous: Setting, devKey: Key)
      ensures this.current == current && this.previous == previous && !warned && this.devKey == devKey
    {
      this.current, this.previous, this.devKey, warned := current, previous, devKey, false;
    }

    function Key(): Option<Key>
      reads this
    {
      CurrentKey(current, devKey)
    }

    /** None is the exception. The warning about the derived key is given once. */
    method EncryptionKey() returns (key: Option<Key>)
      modifies this`warned
      ensures key == Key()
      ensures warned == (old(warned) || current.Absent? || current.Blank?)
    {
      match current
      case Holds(k) => key := Some(k);
      case Malformed => key := None;
      case _ =>
        if !warned {
          warned := true;
        }
        key := Some(devKey);
    }

    method Decrypt(payload: Payload) returns (plain: Option<string>)
      modifies this`warned
      ensures plain == Decrypted(Key(), previous, payload)
    {
      if payload.box.Length() <= IV_BYTES + TAG_BYTES {
        return None;
      }
      var key := EncryptionKey();
      if key.Some? {
        plain := payload.box.Open(key.value);
        if plain.Some? {
          return;
        }
      }
      plain := if previous.Holds? then payload.box.Open(previous.key) else None;
    }

    method Encrypt(plain: string) returns (payload: Option<Payload>)
      modifies this`warned
      ensures payload == if Key().Some? then Some(Payload(true, Sealed(Key().value, plain))) else None
    {
      var key := EncryptionKey();
      payload := if key.Some? then Some(Payload(true, Sealed(key.value, plain))) else None;
    }

    /** Takes the previous key away, tries, and puts it back, whether the attempt throws or not. */
    method DecryptsWithCurrentOnly(payload: Payload) returns (yes: bool)
      modifies this
      ensures current == old(current) && previous == old(previous)
      ensures yes <==> Decrypted(Key(), Absent, payload).Some?
    {
      var kept := previous;
      previous := Absent;
      var plain := Decrypt(payload);
      yes := plain.Some?;
      if !kept.Absent? {
        previous := kept;
      }
    }
  }

  datatype User = User(rrn: Option<Payload>, deleted: bool, updatedAt: int)

  type Users = map<int, User>

  /** The answer of the script's SELECT, in whatever order. */
  ghost predicate Selects(users: Users, rows: seq<(int, Payload)>) {
    && (forall i, j :: 0 <= i < j < |rows| ==> rows[i].0 != rows[j].0)
    && (forall i :: 0 <= i < |rows| ==>
          rows[i].0 in users && !users[rows[i].0].deleted && users[rows[i].0].rrn == Some(rows[i].1))
    && (forall id :: id in users && !users[id].deleted && users[id].rrn.Some? ==> (id, users[id].rrn.value) in rows)
  }

  datatype Report = Report(total: nat, alreadyCurrent: nat, targets: nat, rotated: nat, failed: nat)

  /** `Thrown` is an exception out of the loop, `Exit1` the exit over undecryptable rows. */
  datatype Outcome = Completed | Exit1 | Thrown

  function CountOf(rows: seq<(int, Payload)>, current: Option<Key>, previous: Setting, verdict: Class): nat {
    if rows == [] then 0
    else
      var last := |rows| - 1;
      CountOf(rows[..last], current, previous, verdict)
        + if ClassOf(current, previous, rows[last].1) == verdict then 1 else 0
  }

  lemma {:induction false} CountGrows(
      rows: seq<(int, Payload)>, i: nat, current: Option<Key>, previous: Setting, verdict: Class)
    requires i <= |rows|
    ensures CountOf(rows[..i], current, previous, verdict) <= CountOf(rows, current, previous, verdict)
  {
    if i == |rows| {
      assert rows[..i] == rows;
    } else {
      CountGrows(rows[..|rows| - 1], i, current, previous, verdict);
      assert rows[..|rows| - 1][..i] == rows[..i];
    }
  }

  lemma CountNext(rows: seq<(int, Payload)>, i: nat, current: Option<Key>, previous: Setting)
    requires i < |rows|
    ensures forall verdict :: CountOf(rows[..i + 1], current, previous, verdict)
              == CountOf(rows[..i], current, previous, verdict)
                   + if ClassOf(current, previous, rows[i].1) == verdict then 1 else 0
  {
    assert rows[..i + 1][..i] == rows[..i];
  }

  lemma {:induction false} CountsBalance(rows: seq<(int, Payload)>, current: Option<Key>, previous: Setting)
    ensures CountOf(rows, current, previous, Current) + CountOf(rows, current, previous, Target)
              + CountOf(rows, current, previous, Failed) == |rows|
  {
    if rows != [] {
      CountsBalance(rows[..|rows| - 1], current, previous);
    }
  }

  lemma {:induction false} CountIsZero(rows: seq<(int, Payload)>, current: Option<Key>, previous: Setting, verdict: Class)
    ensures CountOf(rows, current, previous, verdict) == 0 <==>
              forall i :: 0 <= i < |rows| ==> ClassOf(current, previous, rows[i].1) != verdict
  {
    if rows != [] {
      CountIsZero(rows[..|rows| - 1], current, previous, verdict);
    }
  }

  /** The user after the script has come by. */
  function After(user: User, current: Option<Key>, previous: Setting, now: int): User {
    if user.deleted || user.rrn.None? || current.None? || !ClassOf(current, previous, user.rrn.value).Target? then user
    else
      user.(rrn := Some(Payload(true, Sealed(current.value, Decrypted(current, previous, user.rrn.value).value))),
            updatedAt := now)
  }

  class Table {
    var users: Users

    constructor (users: Users)
      ensures this.users == users
    {
      this.users := users;
    }

    method Update(id: int, payload: Payload, now: int)
      requires id in users
      modifies this
      ensures users == old(users)[id := old(users)[id].(rrn := Some(payload), updatedAt := now)]
    {
      users := users[id := users[id].(rrn := Some(payload), updatedAt := now)];
    }
  }

  /** One turn of the script's loop; the database may refuse the UPDATE. */
  method RotateRow(crypto: Crypto, table: Table, id: int, payload: Payload, apply: bool, refused: bool, now: int)
    returns (verdict: Class, thrown: bool)
    requires id in table.users && !table.users[id].deleted && table.users[id].rrn == Some(payload)
    modifies crypto, table
    ensures crypto.current == old(crypto.current) && crypto.previous == old(crypto.previous)
    ensures verdict == ClassOf(crypto.Key(), crypto.previous, payload)
    ensures thrown <==> verdict.Target? && apply && (crypto.Key().None? || refused)
    ensures table.users == if apply && !thrown
      then old(table.users)[id := After(old(table.users)[id], crypto.Key(), crypto.previous, now)]
      else old(table.users)
  {
    thrown := false;
    var plain := crypto.Decrypt(payload);
    if plain.None? {
      return Failed, false;
    }
    var only := crypto.DecryptsWithCurrentOnly(payload);
    if payload.v1 && only {
      return Current, false;
    }
    verdict := Target;
    if !apply {
      return;
    }
    var resealed := crypto.Encrypt(plain.value);
    if resealed.None? || refused {
      return Target, true;
    }
    table.Update(id, resealed.value, now);
  }

  /** The table once the first `i` rows have been visited. */
  ghost predicate Reached(users: Users, to: Users, rows: seq<(int, Payload)>, i: nat, current: Option<Key>,
                          previous: Setting, apply: bool, now: int)
    requires i <= |rows|
  {
    && to.Keys == users.Keys
    && forall id :: id in users ==>
         to[id] == if apply && (exists j :: 0 <= j < i && rows[j].0 == id) then After(users[id], current, previous, now)
                   else users[id]
  }

  lemma ReachedNext(users: Users, to: Users, rows: seq<(int, Payload)>, i: nat, current: Option<Key>,
                    previous: Setting, apply: bool, now: int)
    requires i < |rows| && Selects(users, rows) && Reached(users, to, rows, i, current, previous, apply, now)
    ensures var id := rows[i].0;
      && id in to && to[id] == users[id]
      && Reached(users, if apply then to[id := After(to[id], current, previous, now)] else to,
                 rows, i + 1, current, previous, apply, now)
  {
  }

  lemma ReachedAll(users: Users, to: Users, rows: seq<(int, Payload)>, current: Option<Key>, previous: Setting,
                   apply: bool, now: int)
    requires Selects(users, rows) && Reached(users, to, rows, |rows|, current, previous, apply, now)
    ensures to.Keys == users.Keys
    ensures forall id :: id in users ==> to[id] == if apply then After(users[id], current, previous, now) else users[id]
  {
    forall id | id in users && !users[id].deleted && users[id].rrn.Some?
      ensures exists j :: 0 <= j < |rows| && rows[j].0 == id
    {
      var j :| 0 <= j < |rows| && rows[j] == (id, users[id].rrn.value);
      assert rows[j].0 == id;
    }
  }

  /** The row ends the loop: it is to be rewritten, and cannot be. */
  predicate Stops(row: (int, Payload), current: Option<Key>, previous: Setting, apply: bool, refused: set<int>) {
    apply && ClassOf(current, previous, row.1).Target? && (current.None? || row.0 in refused)
  }

  /** One turn, as the whole table sees it. */
  method RotateNext(crypto: Crypto, table: Table, rows: seq<(int, Payload)>, i: nat, apply: bool, refused: set<int>,
                    now: int, ghost users: Users)
    returns (verdict: Class, thrown: bool)
    requires i < |rows| && Selects(users, rows)
    requires Reached(users, table.users, rows, i, crypto.Key(), crypto.previous, apply, now)
    modifies crypto, table
    ensures crypto.current == old(crypto.current) && crypto.previous == old(crypto.previous)
    ensures verdict == ClassOf(crypto.Key(), crypto.previous, rows[i].1)
    ensures thrown <==> Stops(rows[i], crypto.Key(), crypto.previous, apply, refused)
    ensures Reached(users, table.users, rows, if thrown then i else i + 1, crypto.Key(), crypto.previous, apply, now)
  {
    ReachedNext(users, table.users, rows, i, crypto.Key(), crypto.previous, apply, now);
    verdict, thrown := RotateRow(crypto, table, rows[i].0, rows[i].1, apply, rows[i].0 in refused, now);
  }

  /** The script's loop over the rows; `refused` holds the rows whose UPDATE the database refuses. */
  method RotateRows(crypto: Crypto, table: Table, rows: seq<(int, Payload)>, apply: bool, refused: set<int>, now: int)
    returns (thrown: bool, visited: nat, current: nat, targets: nat, rotated: nat, failed: nat)
    requires Selects(table.users, rows)
    modifies crypto, table
    ensures crypto.current == old(crypto.current) && crypto.previous == old(crypto.previous)
    ensures visited <= |rows| && (thrown <==> visited < |rows|)
    ensures forall i :: 0 <= i < visited ==> !Stops(rows[i], crypto.Key(), crypto.previous, apply, refused)
    ensures thrown ==> Stops(rows[visited], crypto.Key(), crypto.previous, apply, refused)
    ensures Reached(old(table.users), table.users, rows, visited, crypto.Key(), crypto.previous, apply, now)
    ensures !thrown ==>
      && current == CountOf(rows, crypto.Key(), crypto.previous, Current)
      && targets == CountOf(rows, crypto.Key(), crypto.previous, Target)
      && failed == CountOf(rows, crypto.Key(), crypto.previous, Failed)
      && rotated == (if apply then targets else 0)
  {
    thrown, targets, current, rotated, failed := false, 0, 0, 0, 0;
    ghost var key, previous, users := crypto.Key(), crypto.previous, table.users;
    for i := 0 to |rows|
      invariant crypto.current == old(crypto.current) && crypto.previous == previous && crypto.Key() == key
      invariant current == CountOf(rows[..i], key, previous, Current)
      invariant targets == CountOf(rows[..i], key, previous, Target)
      invariant failed == CountOf(rows[..i], key, previous, Failed)
      invariant rotated == if apply then targets else 0
      invariant forall j :: 0 <= j < i ==> !Stops(rows[j], key, previous, apply, refused)
      invariant Reached(users, table.users, rows, i, key, previous, apply, now)
    {
      CountNext(rows, i, key, previous);
      var verdict;
      verdict, thrown := RotateNext(crypto, table, rows, i, apply, refused, now, users);
      if thrown {
        visited := i;
        return;
      }
      match verdict
      case Failed => failed := failed + 1;
      case Current => current := current + 1;
      case Target =>
        targets := targets + 1;
        if apply {
          rotated := rotated + 1;
        }
    }
    visited := |rows|;
    assert rows[..|rows|] == rows;
  }

  /** The script. It throws at the first row it cannot rewrite, with the rows before it rewritten and no
      others; otherwise the counts balance and the table changes in the targets alone and only when
      applying. The previous key is in its place again on every way out. */
  method Rotate(crypto: Crypto, table: Table, rows: seq<(int, Payload)>, apply: bool, refused: set<int>, now: int)
    returns (outcome: Outcome, report: Report, ghost visited: nat)
    requires Selects(table.users, rows)
    modifies crypto, table
    ensures crypto.current == old(crypto.current) && crypto.previous == old(crypto.previous)
    ensures visited <= |rows| && (outcome.Thrown? <==> visited < |rows|)
    ensures forall i :: 0 <= i < visited ==> !Stops(rows[i], crypto.Key(), crypto.previous, apply, refused)
    ensures outcome.Thrown? ==> Stops(rows[visited], crypto.Key(), crypto.previous, apply, refused)
    ensures Reached(old(table.users), table.users, rows, visited, crypto.Key(), crypto.previous, apply, now)
    ensures var key, previous := crypto.Key(), crypto.previous;
      && (outcome.Exit1? <==> !outcome.Thrown? && CountOf(rows, key, previous, Failed) > 0)
      && (!outcome.Thrown? ==>
            report == Report(|rows|, CountOf(rows, key, previous, Current), CountOf(rows, key, previous, Target),
                             if apply then CountOf(rows, key, previous, Target) else 0,
                             CountOf(rows, key, previous, Failed)))
      && (!outcome.Thrown? ==> forall id :: id in table.users ==>
            table.users[id] == if apply then After(old(table.users)[id], key, previous, now) else old(table.users)[id])
  {
    var thrown, n, current, targets, rotated, failed := RotateRows(crypto, table, rows, apply, refused, now);
    visited := n;
    if thrown {
      return Thrown, Report(0, 0, 0, 0, 0), visited;
    }
    ReachedAll(old(table.users), table.users, rows, crypto.Key(), crypto.previous, apply, now);
    report := Report(|rows|, current, targets, rotated, failed);
    outcome := if failed > 0 then Exit1 else Completed;
  }

  // ── What an applied run is for ──

  /** The plaintext a stored payload stands for. */
  function Plain(user: User, current: Option<Key>, previous: Setting): Option<string> {
    if user.rrn.None? then None else Decrypted(current, previous, user.rrn.value)
  }

  /** The previous key alone opens the number. */
  predicate NeedsPrevious(user: User, key: Key, previous: Setting) {
    Plain(user, Some(key), previous).Some? && Plain(user, Some(key), Absent).None?
  }

  /** An applied run under a good current key changes no plaintext and leaves every payload it rewrote in the
      present format; what no key opens, and deleted users, it leaves alone. A plaintext is still read once the
      previous key is gone unless its user is deleted and the previous key alone opens it. */
  lemma RotationKeepsPlaintext(user: User, key: Key, previous: Setting, now: int)
    ensures var after, plain := After(user, Some(key), previous, now), Plain(user, Some(key), previous);
      && Plain(after, Some(key), previous) == plain
      && (plain.None? || user.deleted ==> after == user)
      && (plain.Some? && !user.deleted ==> after.rrn.value.v1)
      && (Plain(after, Some(key), Absent) == plain <==>
            (NeedsPrevious(user, key, previous) ==> !user.deleted))
  {
  }

  /** The table an applied run leaves can do without the previous key exactly if no deleted user needs it. */
  lemma {:induction false} PreviousKeyCanGoIff(users: Users, after: Users, key: Key, previous: Setting, now: int)
    requires after.Keys == users.Keys
    requires forall id :: id in users ==> after[id] == After(users[id], Some(key), previous, now)
    ensures (forall id :: id in users ==> Plain(after[id], Some(key), Absent) == Plain(users[id], Some(key), previous)) <==>
      forall id :: id in users && NeedsPrevious(users[id], key, previous) ==> !users[id].deleted
  {
    forall id | id in users
      ensures Plain(after[id], Some(key), Absent) == Plain(users[id], Some(key), previous) <==>
                (NeedsPrevious(users[id], key, previous) ==> !users[id].deleted)
    {
      RotationKeepsPlaintext(users[id], key, previous, now);
    }
  }

  /** A run may find nothing to do, report no failure and leave a number that the previous key alone opens:
      the SELECT skips deleted users, who are shown and restored elsewhere. */
  lemma DeletedNumberIsLost(now: int) returns (users: Users)
    ensures 1 in users && users[1] == User(Some(Payload(false, Sealed(1, "x"))), true, 0) && Selects(users, [])
    ensures Plain(users[1], Some(2), Holds(1)) == Some("x")
    ensures After(users[1], Some(2), Holds(1), now) == users[1]
    ensures Plain(After(users[1], Some(2), Holds(1), now), Some(2), Absent).None?
  {
    users := map[1 := User(Some(Payload(false, Sealed(1, "x"))), true, 0)];
  }

  // ── Writes by others under the script ──

  /** A turn of the loop, or a write by somebody else after the SELECT. */
  datatype Act = Turn | Write(id: int, user: User)

  /** The table, and how many rows the script has visited. */
  datatype Progress = Progress(users: Users, visited: nat)

  /** The UPDATE goes by the id alone and writes what was selected. */
  function Visited(users: Users, row: (int, Payload), key: Key, previous: Setting, now: int): Users {
    if row.0 in users && ClassOf(Some(key), previous, row.1).Target? then
      users[row.0 := users[row.0].(rrn := Some(Payload(true, Sealed(key, Decrypted(Some(key), previous, row.1).value))),
                                   updatedAt := now)]
    else users
  }

  /** On a row nobody has touched this is the turn that RotateRow takes. */
  lemma VisitedIsAfter(users: Users, row: (int, Payload), key: Key, previous: Setting, now: int)
    requires row.0 in users && !users[row.0].deleted && users[row.0].rrn == Some(row.1)
    ensures Visited(users, row, key, previous, now) == users[row.0 := After(users[row.0], Some(key), previous, now)]
  {
  }

  function Amid(users: Users, rows: seq<(int, Payload)>, acts: seq<Act>, key: Key, previous: Setting, now: int): Progress
    decreases |acts|
  {
    if acts == [] then Progress(users, 0)
    else
      var p := Amid(users, rows, acts[..|acts| - 1], key, previous, now);
      match acts[|acts| - 1]
      case Write(id, user) => p.(users := p.users[id := user])
      case Turn =>
        if p.visited < |rows| then Progress(Visited(p.users, rows[p.visited], key, previous, now), p.visited + 1)
        else p
  }

  /** The table without the script. */
  function Without(users: Users, acts: seq<Act>): Users
    decreases |acts|
  {
    if acts == [] then users
    else
      var v, act := Without(users, acts[..|acts| - 1]), acts[|acts| - 1];
      if act.Write? then v[act.id := act.user] else v
  }

  function Turns(acts: seq<Act>): nat
    decreases |acts|
  {
    if acts == [] then 0 else Turns(acts[..|acts| - 1]) + if acts[|acts| - 1].Turn? then 1 else 0
  }

  /** The script rewrote the row, and nobody wrote it after that. */
  predicate ScriptWroteLast(rows: seq<(int, Payload)>, acts: seq<Act>, id: int, key: Key, previous: Setting)
    decreases |acts|
  {
    if acts == [] then false
    else
      var before, act := acts[..|acts| - 1], acts[|acts| - 1];
      if act.Write? && act.id == id then false
      else if act.Turn? && Turns(before) < |rows| && rows[Turns(before)].0 == id
              && ClassOf(Some(key), previous, rows[Turns(before)].1).Target? then true
      else ScriptWroteLast(rows, before, id, key, previous)
  }

  lemma TurnWrites(users: Users, at: Users, row: (int, Payload), id: int, key: Key, previous: Setting, now: int)
    requires id in users && id in at
    requires row.0 == id ==> users[id].rrn == Some(row.1)
    ensures var to := Visited(at, row, key, previous, now);
      && id in to
      && if row.0 == id && ClassOf(Some(key), previous, row.1).Target?
         then Plain(to[id], Some(key), Absent) == Plain(users[id], Some(key), previous)
              && Plain(users[id], Some(key), previous).Some?
         else to[id] == at[id]
  {
  }

  lemma {:induction false} AmidVisits(
      users: Users, rows: seq<(int, Payload)>, acts: seq<Act>, key: Key, previous: Setting, now: int)
    ensures Amid(users, rows, acts, key, previous, now).visited == if Turns(acts) <= |rows| then Turns(acts) else |rows|
    decreases |acts|
  {
    if acts != [] {
      AmidVisits(users, rows, acts[..|acts| - 1], key, previous, now);
    }
  }

  lemma {:induction false} AmidWrites(
      users: Users, rows: seq<(int, Payload)>, acts: seq<Act>, id: int, key: Key, previous: Setting, now: int)
    requires Selects(users, rows) && id in users
    ensures var p := Amid(users, rows, acts, key, previous, now);
      var without := Without(users, acts);
      && id in p.users && id in without
      && if ScriptWroteLast(rows, acts, id, key, previous)
         then Plain(p.users[id], Some(key), Absent) == Plain(users[id], Some(key), previous)
              && Plain(users[id], Some(key), previous).Some?
         else p.users[id].rrn == without[id].rrn
    decreases |acts|
  {
    if acts != [] {
      var before := acts[..|acts| - 1];
      AmidWrites(users, rows, before, id, key, previous, now);
      AmidVisits(users, rows, before, key, previous, now);
      var p := Amid(users, rows, before, key, previous, now);
      if acts[|before|].Turn? && p.visited < |rows| {
        TurnWrites(users, p.users, rows[p.visited], id, key, previous, now);
      }
    }
  }

  /** What somebody writes to a user after the SELECT is kept exactly if it comes after the script's own UPDATE
      of the row, or there is none, or it leaves the text that was selected. */
  lemma {:induction false} WriteIsKeptIff(
      users: Users, rows: seq<(int, Payload)>, acts: seq<Act>, id: int, key: Key, previous: Setting, now: int)
    requires Selects(users, rows) && id in users
    ensures var p := Amid(users, rows, acts, key, previous, now);
      var without := Without(users, acts);
      && id in p.users && id in without
      && (Plain(p.users[id], Some(key), previous) == Plain(without[id], Some(key), previous) <==>
            !ScriptWroteLast(rows, acts, id, key, previous)
            || Plain(without[id], Some(key), previous) == Plain(users[id], Some(key), previous))
  {
    AmidWrites(users, rows, acts, id, key, previous, now);
  }

  /** A number destroyed between the SELECT and the UPDATE is back after it. */
  lemma DestroyedNumberReturns(now: int) returns (users: Users, rows: seq<(int, Payload)>, acts: seq<Act>)
    ensures Selects(users, rows) && 1 in users
    ensures 1 in Without(users, acts) && Without(users, acts)[1].rrn.None?
    ensures var p := Amid(users, rows, acts, 2, Holds(1), now);
      1 in p.users && Plain(p.users[1], Some(2), Absent) == Some("x")
  {
    var payload := Payload(false, Sealed(1, "x"));
    users, rows := map[1 := User(Some(payload), false, 0)], [(1, payload)];
    var gone := Write(1, User(None, true, 0));
    acts := [gone, Turn];
    assert acts[..1] == [gone] && [gone][..0] == [];
    assert Turns([gone]) == 0;
    assert ScriptWroteLast(rows, acts, 1, 2, Holds(1));
    AmidWrites(users, rows, acts, 1, 2, Holds(1), now);
  }

  /** A box that opens holds at least one character, so sealing its text again makes one that opens: an
      empty text could be sealed but never read back, and never comes out of a payload. */
  lemma OpenedTextIsNotEmpty(current: Option<Key>, previous: Setting, payload: Payload, key: Key)
    ensures Decrypted(current, previous, payload) != Some("")
    ensures Decrypted(Some(key), previous, Payload(true, Sealed(key, ""))).None?
  {
  }

  /** A second run over the table the first one left finds no target, and fails on the rows the first
      one failed on. */
  lemma SecondRunHasNoTargets(
      users: Users, after: Users, first: seq<(int, Payload)>, second: seq<(int, Payload)>,
      key: Key, previous: Setting, now: int)
    requires Selects(users, first) && Selects(after, second)
    requires after.Keys == users.Keys
    requires forall id :: id in users ==> after[id] == After(users[id], Some(key), previous, now)
    ensures CountOf(second, Some(key), previous, Target) == 0
    ensures forall row: (int, Payload) :: ClassOf(Some(key), previous, row.1).Failed? ==> (row in first <==> row in second)
  {
    forall i | 0 <= i < |second|
      ensures !ClassOf(Some(key), previous, second[i].1).Target?
    {
      var id := second[i].0;
      assert after[id] == After(users[id], Some(key), previous, now);
      RotationKeepsPlaintext(users[id], key, previous, now);
    }
    CountIsZero(second, Some(key), previous, Target);
    forall row: (int, Payload) | ClassOf(Some(key), previous, row.1).Failed?
      ensures row in first <==> row in second
    {
      SameFailure(users, after, first, second, row, key, previous, now);
    }
  }

  lemma SameFailure(
      users: Users, after: Users, first: seq<(int, Payload)>, second: seq<(int, Payload)>, row: (int, Payload),
      key: Key, previous: Setting, now: int)
    requires Selects(users, first) && Selects(after, second) && after.Keys == users.Keys
    requires forall id :: id in users ==> after[id] == After(users[id], Some(key), previous, now)
    requires ClassOf(Some(key), previous, row.1).Failed?
    ensures row in first <==> row in second
  {
    var id := row.0;
    if id in users {
      assert after[id] == After(users[id], Some(key), previous, now);
      if users[id].rrn.Some? && !users[id].deleted {
        RotationKeepsPlaintext(users[id], key, previous, now);
      }
    }
    SelectedIff(users, first, row);
    SelectedIff(after, second, row);
  }

  lemma SelectedIff(users: Users, rows: seq<(int, Payload)>, row: (int, Payload))
    requires Selects(users, rows)
    ensures row in rows <==> row.0 in users && !users[row.0].deleted && users[row.0].rrn == Some(row.1)
  {
    var id := row.0;
    if id in users && !users[id].deleted && users[id].rrn == Some(row.1) {
      assert (id, users[id].rrn.value) == row;
    }
  }

  /** Equal but for the time of the last write. */
  predicate SameButStamp(a: User, b: User) {
    a.rrn == b.rrn && a.deleted == b.deleted
  }

  /** A run that broke off anywhere loses nothing: run again to its end, the script leaves the table that it
      would have left at once, but for the times of writing. */
  lemma RerunCompletes(users: Users, broken: Users, rows: seq<(int, Payload)>, n: nat, key: Key, previous: Setting,
                       first: int, again: int)
    requires n <= |rows| && Selects(users, rows)
    requires Reached(users, broken, rows, n, Some(key), previous, true, first)
    ensures broken.Keys == users.Keys
    ensures forall id :: id in users ==>
      SameButStamp(After(broken[id], Some(key), previous, again), After(users[id], Some(key), previous, again))
  {
    forall id | id in users
      ensures SameButStamp(After(broken[id], Some(key), previous, again), After(users[id], Some(key), previous, again))
    {
      if users[id].rrn.Some? && !users[id].deleted {
        RotationKeepsPlaintext(users[id], key, previous, first);
      }
    }
  }
}
