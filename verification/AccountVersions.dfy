/** The reset that leaves one super_admin, and the account versions by which tokens go stale. */
module AccountVersions {
  import opened Rows

  datatype User = User(
    webId: Option<string>, role: string, status: string, emailVerified: bool, passwordHash: string,
    mustChangePassword: bool, version: Option<int>, deleted: bool, deletedBy: Option<int>)

  type Users = map<int, User>

  const SUPER_ADMIN := "super_admin"

  /** `COALESCE(auth_version, 1)`. */
  function VersionOf(user: User): int {
    if user.version.Some? then user.version.value else 1
  }

  function Lower(c: char): char {
    if 'A' <= c <= 'Z' then c - 'A' + 'a' else c
  }

  /** `lower(web_id) = 'admin'`, unknown for null. */
  predicate NamedAdmin(user: User) {
    user.webId.Some? && |user.webId.value| == 5
    && forall i :: 0 <= i < 5 ==> Lower(user.webId.value[i]) == "admin"[i]
  }

  predicate Candidate(user: User) {
    !user.deleted && (NamedAdmin(user) || user.role == SUPER_ADMIN)
  }

  /** The SELECT's order: the admin name first, then the id. */
  predicate Precedes(users: Users, a: int, b: int)
    requires a in users && b in users
  {
    if NamedAdmin(users[a]) != NamedAdmin(users[b]) then NamedAdmin(users[a]) else a <= b
  }

  /** The one row the SELECT returns. */
  ghost predicate IsTarget(users: Users, id: int) {
    && id in users && Candidate(users[id])
    && forall other :: other in users && Candidate(users[other]) ==> Precedes(users, id, other)
  }

  ghost predicate NoCandidate(users: Users) {
    forall id :: id in users ==> !Candidate(users[id])
  }

  /** The UPDATE of the target, or the INSERT where there is none. */
  function Promoted(users: Users, id: int, hash: string): Users {
    if id in users then
      users[id := users[id].(webId := Some("admin"), role := SUPER_ADMIN, status := "active", emailVerified := true,
                             passwordHash := hash, mustChangePassword := true,
                             version := Some(VersionOf(users[id]) + 1))]
    else
      users[id := User(Some("admin"), SUPER_ADMIN, "active", true, hash, true, Some(1), false, None)]
  }

  /** The UPDATE that deletes every other super_admin. */
  function Demoted(users: Users, id: int): Users {
    map k | k in users ::
      if k != id && !users[k].deleted && users[k].role == SUPER_ADMIN
      then users[k].(deleted := true, deletedBy := Some(id), version := Some(VersionOf(users[k]) + 1))
      else users[k]
  }

  function Reset(users: Users, id: int, hash: string): Users {
    Demoted(Promoted(users, id, hash), id)
  }

  /** Another row has the name already: `web_id` is unique over all rows, `lower(web_id)` over the live ones. */
  predicate Collides(users: Users, id: int) {
    exists k :: k in users && k != id
      && (users[k].webId == Some("admin") || (!users[k].deleted && NamedAdmin(users[k])))
  }

  /** The account a reset of `users` goes to: the SELECT's row, or a new one, unless its name is taken. */
  ghost predicate ResetsTo(users: Users, id: int) {
    (IsTarget(users, id) || (NoCandidate(users) && id !in users)) && !Collides(users, id)
  }

  /** No statement is refused. The INSERT gives no `english_name`, which the schema may require. */
  ghost predicate CanReset(users: Users, nameRequired: bool) {
    exists id :: ResetsTo(users, id) && (nameRequired ==> id in users)
  }

  class UsersTable {
    var users: Users

    constructor (users: Users)
      ensures this.users == users
    {
      this.users := users;
    }

    /** The SELECT with its ORDER BY and LIMIT, by one pass over the rows. */
    method SelectTarget() returns (target: Option<int>)
      ensures target.Some? ==> IsTarget(users, target.value)
      ensures target.None? ==> NoCandidate(users)
    {
      target := None;
      var left := users.Keys;
      while left != {}
        invariant left <= users.Keys
        invariant target.Some? ==> target.value in users && Candidate(users[target.value])
        invariant forall id :: id in users && id !in left && Candidate(users[id]) ==>
                    target.Some? && Precedes(users, target.value, id)
        decreases |left|
      {
        var id := PickId(left);
        left := left - {id};
        if Candidate(users[id]) && (target.None? || !Precedes(users, target.value, id)) {
          target := Some(id);
        }
      }
    }

    /** The transaction; it throws, and changes nothing, before the auth migration is in the ledger and where
        a statement is refused. */
    method BootstrapCeo(migrated: bool, nameRequired: bool, hash: string, nextId: int) returns (id: Option<int>)
      requires nextId !in users
      modifies this
      ensures id.Some? <==> migrated && CanReset(old(users), nameRequired)
      ensures id.None? ==> users == old(users)
      ensures id.Some? ==> ResetsTo(old(users), id.value) && users == Reset(old(users), id.value, hash)
      ensures id.Some? ==> forall k :: k in users && !users[k].deleted && users[k].role == SUPER_ADMIN <==> k == id.value
    {
      if !migrated {
        return None;
      }
      var found := SelectTarget();
      var target := if found.Some? then found.value else nextId;
      if (found.None? && nameRequired) || Collides(users, target) {
        RefusedEverywhere(users, target, nameRequired);
        return None;
      }
      users := Promoted(users, target, hash);
      users := Demoted(users, target);
      OneSuperAdmin(old(users), target, hash);
      id := Some(target);
    }
  }

  /** There is one target at most, and it makes no difference which id a new row would get. */
  lemma RefusedEverywhere(users: Users, target: int, nameRequired: bool)
    requires IsTarget(users, target) || (NoCandidate(users) && target !in users)
    requires (target !in users && nameRequired) || Collides(users, target)
    ensures !CanReset(users, nameRequired)
  {
    forall id | IsTarget(users, id) && IsTarget(users, target)
      ensures id == target
    {
    }
  }

  /** What the active index grants of the name. */
  ghost predicate OneLiveAdmin(users: Users) {
    forall a, b | a in users && b in users && !users[a].deleted && !users[b].deleted ::
      NamedAdmin(users[a]) && NamedAdmin(users[b]) ==> a == b
  }

  lemma {:induction false} HasTarget(users: Users, ids: set<int>) returns (target: int)
    requires ids <= users.Keys && exists id :: id in ids && Candidate(users[id])
    ensures target in ids && Candidate(users[target])
    ensures forall id :: id in ids && Candidate(users[id]) ==> Precedes(users, target, id)
    decreases |ids|
  {
    target := Pick(ids);
    var rest := ids - {target};
    if exists id :: id in rest && Candidate(users[id]) {
      var best := HasTarget(users, rest);
      if !Candidate(users[target]) || Precedes(users, best, target) {
        target := best;
      }
    }
  }

  lemma {:induction false} BlockedIff(users: Users, target: int)
    requires OneLiveAdmin(users) && IsTarget(users, target)
    ensures ResetsTo(users, target) <==> forall id :: id in users && users[id].deleted ==> users[id].webId != Some("admin")
    ensures forall id :: IsTarget(users, id) ==> id == target
  {
    forall k | k in users && !users[k].deleted && NamedAdmin(users[k])
      ensures k == target
    {
      assert Precedes(users, target, k);
    }
  }

  /** The reset goes through exactly where there is a live admin or super_admin, or no English name is
      required, and no deleted account is in the way under the very name `admin`. */
  lemma {:induction false} ResetSucceedsIff(users: Users, nameRequired: bool)
    requires OneLiveAdmin(users)
    ensures CanReset(users, nameRequired) <==>
      && (!nameRequired || exists id :: id in users && Candidate(users[id]))
      && forall id :: id in users && users[id].deleted ==> users[id].webId != Some("admin")
  {
    if exists id :: id in users && Candidate(users[id]) {
      var target := HasTarget(users, users.Keys);
      BlockedIff(users, target);
    } else {
      var id := Unused(users.Keys);
      assert IsTarget(users, id) || id !in users;
    }
  }

  lemma Unused(ids: set<int>) returns (id: int)
    ensures id !in ids
  {
    id := 0;
    var seen: set<int> := {};
    while id in ids
      invariant seen <= ids && forall k :: k in seen ==> 0 <= k < id
      decreases |ids - seen|
    {
      assert id in ids - seen;
      seen := seen + {id};
      id := id + 1;
    }
  }

  /** A fresh installation gets no account by the script. */
  lemma EmptyTableIsRefused()
    ensures !CanReset(map[], true) && CanReset(map[], false)
  {
    ResetSucceedsIff(map[], true);
    ResetSucceedsIff(map[], false);
  }

  /** A deleted `admin` keeps the super_admin under another name from being reset. */
  lemma DeletedAdminBlocks(hash: string) returns (users: Users)
    ensures OneLiveAdmin(users) && IsTarget(users, 2) && users[2].webId == Some("ceo")
    ensures !CanReset(users, true) && !CanReset(users, false)
  {
    var gone := User(Some("admin"), SUPER_ADMIN, "active", true, hash, false, None, true, Some(2));
    users := map[1 := gone, 2 := gone.(webId := Some("ceo"), deleted := false, deletedBy := None)];
    assert users[1].deleted && 1 in users;
    ResetSucceedsIff(users, true);
    ResetSucceedsIff(users, false);
  }

  /** A reset that went through can always be repeated, and goes to the same account. */
  lemma ResetCanBeRepeated(users: Users, id: int, hash: string)
    requires ResetsTo(users, id)
    ensures forall k :: ResetsTo(Reset(users, id, hash), k) <==> k == id
    ensures CanReset(Reset(users, id, hash), true)
  {
    var after := Reset(users, id, hash);
    assert NamedAdmin(after[id]);
    assert forall k :: k in after && k != id ==>
             after[k].webId == users[k].webId && (users[k].deleted ==> after[k].deleted);
    assert ResetsTo(after, id);
  }

  /** After a reset exactly one live super_admin is in the table; it is active under the name admin with the
      given credential, which it has to change. */
  lemma OneSuperAdmin(users: Users, id: int, hash: string)
    requires ResetsTo(users, id)
    ensures var after := Reset(users, id, hash);
      && (forall k :: k in after && !after[k].deleted && after[k].role == SUPER_ADMIN <==> k == id)
      && after[id].status == "active" && after[id].webId == Some("admin") && after[id].emailVerified
      && after[id].passwordHash == hash && after[id].mustChangePassword
      && after.Keys == users.Keys + {id}
  {
  }

  /** Everybody else is left as they were. */
  predicate Touched(users: Users, id: int, k: int) {
    k in users && (k == id || (!users[k].deleted && users[k].role == SUPER_ADMIN))
  }

  lemma ResetTouches(users: Users, id: int, hash: string)
    ensures forall k :: k in users ==>
              Reset(users, id, hash)[k] == users[k] || Touched(users, id, k)
    ensures forall k :: Touched(users, id, k) ==>
              VersionOf(Reset(users, id, hash)[k]) == VersionOf(users[k]) + 1
  {
  }

  // ── Tokens ──

  /** The claims of a token; no version counts as the first, and no role is not compared. */
  datatype Claims = Claims(sub: int, role: Option<string>, version: Option<int>)

  function ClaimedVersion(claims: Claims): int {
    if claims.version.Some? then claims.version.value else 1
  }

  datatype Verdict = Accepted(role: string) | Missing | Inactive | StaleToken | RoleChanged

  /** verifyClaims against the account as it is now. */
  function VerifyClaims(users: Users, claims: Claims): Verdict {
    if claims.sub !in users || users[claims.sub].deleted then Missing
    else
      var user := users[claims.sub];
      if user.status != "active" then Inactive
      else if ClaimedVersion(claims) != VersionOf(user) then StaleToken
      else if claims.role.Some? && claims.role.value != "" && claims.role.value != user.role then RoleChanged
      else Accepted(user.role)
  }

  datatype World = World(users: Users, tokens: set<Claims>)

  /** A token is issued for an account as it stands, an account is created or written by a service, or the
      script resets. A service that revokes writes the version it has read and one more; one that does not
      leaves the column alone. */
  datatype Event =
    | Issue(id: int)
    | Create(id: int, user: User)
    | Write(id: int, user: User, read: Option<int>)
    | ResetTo(id: int, hash: string)

  /** A service reads the account under its lock; the script takes another lock, so that one reset may fall
      between the reading and the writing, and no more. */
  ghost predicate Enabled(w: World, e: Event) {
    match e
    case Issue(id) => id in w.users
    case Create(id, _) => id !in w.users
    case Write(id, _, read) => id in w.users && (read.Some? ==> VersionOf(w.users[id]) <= read.value + 1)
    case ResetTo(id, _) => ResetsTo(w.users, id)
  }

  /** What a service leaves of the version. */
  function Written(before: User, user: User, read: Option<int>): User {
    user.(version := if read.Some? then Some(read.value + 1) else before.version)
  }

  function Apply(w: World, e: Event): World
    requires e.Issue? || e.Write? ==> e.id in w.users
  {
    match e
    case Issue(id) => w.(tokens := w.tokens + {Claims(id, Some(w.users[id].role), Some(VersionOf(w.users[id])))})
    case Create(id, user) => w.(users := w.users[id := user])
    case Write(id, user, read) => w.(users := w.users[id := Written(w.users[id], user, read)])
    case ResetTo(id, hash) => w.(users := Reset(w.users, id, hash))
  }

  ghost function Run(w: World, events: seq<Event>): World
    decreases |events|
  {
    if events == [] then w
    else
      var v := Run(w, events[..|events| - 1]);
      var e := events[|events| - 1];
      if Enabled(v, e) then Apply(v, e) else v
  }

  /** No token is ahead of its account. */
  predicate TokensBehind(w: World) {
    forall t :: t in w.tokens ==>
      t.sub in w.users && t.version.Some? && t.version.value <= VersionOf(w.users[t.sub])
  }

  predicate VersionsGrow(a: Users, b: Users) {
    forall k :: k in a ==> k in b && VersionOf(a[k]) <= VersionOf(b[k])
  }

  lemma StepGrows(w: World, e: Event)
    requires TokensBehind(w) && Enabled(w, e)
    ensures TokensBehind(Apply(w, e)) && VersionsGrow(w.users, Apply(w, e).users)
  {
    if e.ResetTo? {
      ResetTouches(w.users, e.id, e.hash);
    }
  }

  lemma {:induction false} RunGrows(w: World, events: seq<Event>)
    requires TokensBehind(w)
    ensures TokensBehind(Run(w, events)) && VersionsGrow(w.users, Run(w, events).users)
    decreases |events|
  {
    if events != [] {
      var v, e := Run(w, events[..|events| - 1]), events[|events| - 1];
      RunGrows(w, events[..|events| - 1]);
      if Enabled(v, e) {
        StepGrows(v, e);
      }
    }
  }

  /** In any history from an empty table, a token issued before a reset for an account the reset touched
      is refused in every state after it. */
  lemma ResetRevokesForEver(before: seq<Event>, reset: Event, after: seq<Event>, token: Claims)
    requires var w := Run(World(map[], {}), before);
      && reset.ResetTo? && Enabled(w, reset)
      && token in w.tokens && Touched(w.users, reset.id, token.sub)
    ensures var w := Run(World(map[], {}), before);
      !VerifyClaims(Run(Apply(w, reset), after).users, token).Accepted?
  {
    var w := Run(World(map[], {}), before);
    RunGrows(World(map[], {}), before);
    ResetTouches(w.users, reset.id, reset.hash);
    StepGrows(w, reset);
    RunGrows(Apply(w, reset), after);
  }

  /** A write that has missed more than one new version brings a stale token back, and only such a write does:
      the one whose version it writes again. */
  lemma StaleWriteRevivesIff(users: Users, id: int, user: User, read: int)
    requires id in users && !users[id].deleted && users[id].status == "active"
    requires !user.deleted && user.status == "active"
    ensures (exists token: Claims ::
              && token.sub == id && VerifyClaims(users, token) == StaleToken
              && ClaimedVersion(token) < VersionOf(users[id])
              && VerifyClaims(users[id := Written(users[id], user, Some(read))], token).Accepted?)
       <==> read + 1 < VersionOf(users[id])
  {
    if read + 1 < VersionOf(users[id]) {
      var token := Claims(id, None, Some(read + 1));
      assert VerifyClaims(users, token) == StaleToken;
      assert VerifyClaims(users[id := Written(users[id], user, Some(read))], token).Accepted?;
    }
  }

  /** And nobody else notices: a token of an account the reset did not touch fares as before. */
  lemma {:induction false} ResetSparesTheRest(users: Users, id: int, hash: string, token: Claims)
    requires token.sub in users && !Touched(users, id, token.sub)
    ensures VerifyClaims(Reset(users, id, hash), token) == VerifyClaims(users, token)
  {
    ResetTouches(users, id, hash);
  }
}
