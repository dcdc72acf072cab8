/** `lockTargets`: which advisory locks a unit of work takes, and in which order. */
module LockOrder {

  datatype Kind =
    | Instructor | Room | Student | Session | User | LoginIdentity | ProfileRequest | VerificationChallenge
    | Series | ParentIntake | SignupChallenge | CounselForm | Payout | Course | Subject | Parent | Roadmap
    | Payment | Report | SignupPhoneChallenge | Enrollment | ReportTemplate | Permission | ReportTemplateScope

  /** LOCK_KIND. Payout and course share class 13. */
  function ClassId(kind: Kind): nat {
    match kind
    case Instructor => 1
    case Room => 2
    case Student => 3
    case Session => 4
    case User => 5
    case LoginIdentity => 6
    case ProfileRequest => 7
    case VerificationChallenge => 8
    case Series => 9
    case ParentIntake => 10
    case SignupChallenge => 11
    case CounselForm => 12
    case Payout => 13
    case Course => 13
    case Subject => 14
    case Parent => 15
    case Roadmap => 16
    case Payment => 17
    case Report => 18
    case SignupPhoneChallenge => 19
    case Enrollment => 20
    case ReportTemplate => 21
    case Permission => 22
    case ReportTemplateScope => 23
  }

  /** A requested id: null or undefined, a value that is no finite number, or a number. */
  datatype Id = Missing | NotFinite | Finite(n: int)

  datatype Request = Request(kind: Kind, id: Id)

  /** An advisory lock: (classid, objid). */
  datatype Key = Key(classid: int, objid: int)

  /** `a.classid - b.classid || a.objid - b.objid` is negative. */
  predicate Less(a: Key, b: Key) {
    a.classid < b.classid || (a.classid == b.classid && a.objid < b.objid)
  }

  predicate StrictlyAscending(keys: seq<Key>) {
    forall i, j :: 0 <= i < j < |keys| ==> Less(keys[i], keys[j])
  }

  function KeyOf(r: Request): Key
    requires r.id.Finite?
  {
    Key(ClassId(r.kind), r.id.n)
  }

  /** The locks a list of requests names. */
  ghost function Named(requests: seq<Request>): set<Key> {
    set r | r in requests && r.id.Finite? :: KeyOf(r)
  }

  lemma EmptyAlike(a: seq<Key>, b: seq<Key>)
    requires forall k :: k in a <==> k in b
    ensures a == [] <==> b == []
  {
    if a != [] {
      assert a[0] in b;
    }
    if b != [] {
      assert b[0] in a;
    }
  }

  /** An ascending list is determined by its elements. */
  lemma {:induction false} AscendingIsUnique(a: seq<Key>, b: seq<Key>)
    requires StrictlyAscending(a) && StrictlyAscending(b)
    requires forall k :: k in a <==> k in b
    ensures a == b
  {
    EmptyAlike(a, b);
    if a != [] {
      assert a[0] in b;
      assert b[0] in a;
      var i :| 0 <= i < |b| && b[i] == a[0];
      var j :| 0 <= j < |a| && a[j] == b[0];
      assert a[0] == b[0];
      forall k
        ensures k in a[1..] <==> k in b[1..]
      {
        assert k in a <==> k == a[0] || k in a[1..];
        assert k in b <==> k == b[0] || k in b[1..];
        assert forall n :: 0 < n < |a| ==> Less(a[0], a[n]);
        assert forall n :: 0 < n < |b| ==> Less(b[0], b[n]);
      }
      AscendingIsUnique(a[1..], b[1..]);
      assert a == [a[0]] + a[1..] && b == [b[0]] + b[1..];
    }
  }

  /** One insertion of the sort, the list having no equal key. */
  method InsertKey(sorted: seq<Key>, key: Key) returns (out: seq<Key>)
    requires StrictlyAscending(sorted) && key !in sorted
    ensures StrictlyAscending(out) && forall k :: k in out <==> k in sorted || k == key
  {
    var i := 0;
    while i < |sorted| && Less(sorted[i], key)
      invariant 0 <= i <= |sorted|
      invariant forall j :: 0 <= j < i ==> Less(sorted[j], key)
    {
      i := i + 1;
    }
    out := sorted[..i] + [key] + sorted[i..];
    assert forall k :: k in sorted <==> k in sorted[..i] || k in sorted[i..];
    forall j | i <= j < |sorted|
      ensures Less(key, sorted[j])
    {
      assert sorted[i] != key && sorted[j] in sorted;
    }
  }

  /** The locks are asked for one by one in the order of `acquired`. */
  method LockTargets(ready: bool, requests: seq<Request>) returns (acquired: seq<Key>)
    ensures !ready ==> acquired == []
    ensures StrictlyAscending(acquired)
    ensures ready ==> forall k :: k in acquired <==> k in Named(requests)
  {
    acquired := [];
    if !ready || requests == [] {
      return;
    }
    var uniq: seq<Key> := [];
    for i := 0 to |requests|
      invariant forall k :: k in uniq <==> k in Named(requests[..i])
      invariant forall a, b :: 0 <= a < b < |uniq| ==> uniq[a] != uniq[b]
    {
      assert requests[..i + 1] == requests[..i] + [requests[i]];
      if requests[i].id.Finite? && KeyOf(requests[i]) !in uniq {
        uniq := uniq + [KeyOf(requests[i])];
      }
    }
    assert requests[..|requests|] == requests;
    for i := 0 to |uniq|
      invariant StrictlyAscending(acquired)
      invariant forall k :: k in acquired <==> k in uniq[..i]
    {
      assert uniq[i] !in uniq[..i];
      acquired := InsertKey(acquired, uniq[i]);
      assert uniq[..i + 1] == uniq[..i] + [uniq[i]];
    }
    assert uniq[..|uniq|] == uniq;
  }

  /** `sessionAccountingLockKeys`: session keys, then report keys, absent ids left out. */
  function SessionAccountingLockKeys(sessionIds: seq<Id>, reportIds: seq<Id>): seq<Request> {
    Requests(Session, sessionIds) + Requests(Report, reportIds)
  }

  function Requests(kind: Kind, ids: seq<Id>): (rs: seq<Request>)
    ensures forall r :: r in rs <==> r.kind == kind && r.id != Missing && r.id in ids
  {
    if ids == [] then []
    else (if ids[0] == Missing then [] else [Request(kind, ids[0])]) + Requests(kind, ids[1..])
  }

  /** Attendance, report and schedule writers that share sessions or reports share locks, and no lock
      of one kind is ever mistaken for one of the other. */
  lemma AccountingWritersMeet(s1: seq<Id>, r1: seq<Id>, s2: seq<Id>, r2: seq<Id>, n: int)
    ensures Key(4, n) in Named(SessionAccountingLockKeys(s1, r1)) * Named(SessionAccountingLockKeys(s2, r2))
      <==> Finite(n) in s1 && Finite(n) in s2
    ensures Key(18, n) in Named(SessionAccountingLockKeys(s1, r1)) * Named(SessionAccountingLockKeys(s2, r2))
      <==> Finite(n) in r1 && Finite(n) in r2
  {
    AccountingKey(s1, r1, n);
    AccountingKey(s2, r2, n);
  }

  lemma AccountingKey(sessionIds: seq<Id>, reportIds: seq<Id>, n: int)
    ensures Key(4, n) in Named(SessionAccountingLockKeys(sessionIds, reportIds)) <==> Finite(n) in sessionIds
    ensures Key(18, n) in Named(SessionAccountingLockKeys(sessionIds, reportIds)) <==> Finite(n) in reportIds
  {
    var rs := SessionAccountingLockKeys(sessionIds, reportIds);
    if Finite(n) in sessionIds {
      assert Request(Session, Finite(n)) in rs;
    }
    if Finite(n) in reportIds {
      assert Request(Report, Finite(n)) in rs;
    }
  }
}
