/** The database integrity report: active duplicates, gaps in interest priorities, and the two-way
    relation of paid flags. */
module IntegrityReport {
  import opened Rows

  // ── Active duplicates ──

  /** A row by the columns of one uniqueness rule; None is null or undefined. */
  datatype Keyed = Keyed(id: int, parts: seq<Option<string>>)

  /** Rows with a null or empty part are passed over. */
  predicate Full(row: Keyed) {
    forall i :: 0 <= i < |row.parts| ==> row.parts[i].Some? && row.parts[i].value != ""
  }

  /** The key columns, lowered where the rule ignores case. */
  function Tuple(row: Keyed, lower: string -> string): (t: seq<string>)
    requires Full(row)
    ensures |t| == |row.parts|
  {
    seq(|row.parts|, i requires 0 <= i < |row.parts| => lower(row.parts[i].value))
  }

  const SEPARATOR := '\U{A6}'

  /** `join`. */
  function Join(t: seq<string>): string {
    if t == [] then ""
    else if |t| == 1 then t[0]
    else t[0] + [SEPARATOR] + Join(t[1..])
  }

  function Key(row: Keyed, lower: string -> string): string
    requires Full(row)
  {
    Join(Tuple(row, lower))
  }

  datatype Duplicate = Duplicate(id: int, prior: int)

  function FullRows(rows: seq<Keyed>): nat {
    if rows == [] then 0 else FullRows(rows[..|rows| - 1]) + if Full(rows[|rows| - 1]) then 1 else 0
  }

  /** The first row with this key. */
  function FirstWith(rows: seq<Keyed>, key: string, lower: string -> string): Option<int> {
    if rows == [] then None
    else
      var last := rows[|rows| - 1];
      var earlier := FirstWith(rows[..|rows| - 1], key, lower);
      if earlier.Some? then earlier
      else if Full(last) && Key(last, lower) == key then Some(last.id)
      else None
  }

  /** One issue for every full row whose key an earlier full row has, naming the first such row. */
  function Duplicates(rows: seq<Keyed>, lower: string -> string): seq<Duplicate> {
    if rows == [] then []
    else
      var before, last := rows[..|rows| - 1], rows[|rows| - 1];
      if Full(last) && FirstWith(before, Key(last, lower), lower).Some?
      then Duplicates(before, lower) + [Duplicate(last.id, FirstWith(before, Key(last, lower), lower).value)]
      else Duplicates(before, lower)
  }

  method ScanDuplicates(rows: seq<Keyed>, lower: string -> string) returns (issues: seq<Duplicate>)
    ensures issues == Duplicates(rows, lower)
  {
    issues := [];
    var seen: map<string, int> := map[];
    for n := 0 to |rows|
      invariant issues == Duplicates(rows[..n], lower)
      invariant forall key :: key in seen <==> FirstWith(rows[..n], key, lower).Some?
      invariant forall key :: key in seen ==> FirstWith(rows[..n], key, lower).value == seen[key]
    {
      assert rows[..n + 1][..n] == rows[..n];
      var row := rows[n];
      if !Full(row) {
        continue;
      }
      var key := Key(row, lower);
      if key in seen {
        issues := issues + [Duplicate(row.id, seen[key])];
      } else {
        seen := seen[key := row.id];
      }
    }
    assert rows[..|rows|] == rows;
  }

  ghost function Tuples(rows: seq<Keyed>, lower: string -> string): set<seq<string>> {
    set row | row in rows && Full(row) :: Tuple(row, lower)
  }

  ghost function Keys(rows: seq<Keyed>, lower: string -> string): set<string> {
    Joins(Tuples(rows, lower))
  }

  ghost function Joins(ts: set<seq<string>>): set<string> {
    set t | t in ts :: Join(t)
  }

  lemma {:induction false} FirstWithIff(rows: seq<Keyed>, key: string, lower: string -> string)
    ensures FirstWith(rows, key, lower).Some? <==>
              exists i :: 0 <= i < |rows| && Full(rows[i]) && Key(rows[i], lower) == key
  {
    if rows != [] {
      var before := rows[..|rows| - 1];
      FirstWithIff(before, key, lower);
      if i :| 0 <= i < |before| && Full(before[i]) && Key(before[i], lower) == key {
        assert rows[i] == before[i];
      }
    }
  }

  lemma SeenIffKey(rows: seq<Keyed>, key: string, lower: string -> string)
    ensures FirstWith(rows, key, lower).Some? <==> key in Keys(rows, lower)
  {
    FirstWithIff(rows, key, lower);
    if i :| 0 <= i < |rows| && Full(rows[i]) && Key(rows[i], lower) == key {
      assert Tuple(rows[i], lower) in Tuples(rows, lower);
    }
    if key in Keys(rows, lower) {
      var row :| row in rows && Full(row) && Join(Tuple(row, lower)) == key;
      var i :| 0 <= i < |rows| && rows[i] == row;
      assert Full(rows[i]) && Key(rows[i], lower) == key;
    }
  }

  lemma TuplesNext(before: seq<Keyed>, last: Keyed, lower: string -> string)
    ensures Tuples(before + [last], lower) == Tuples(before, lower) + if Full(last) then {Tuple(last, lower)} else {}
    ensures Keys(before + [last], lower) == Keys(before, lower) + if Full(last) then {Key(last, lower)} else {}
  {
    var rows := before + [last];
    assert forall row :: row in rows <==> row in before || row == last;
  }

  /** The report names one row for every full row beyond the distinct keys. */
  lemma {:induction false} DuplicatesCount(rows: seq<Keyed>, lower: string -> string)
    ensures |Duplicates(rows, lower)| == FullRows(rows) - |Keys(rows, lower)|
  {
    if rows != [] {
      var before, last := rows[..|rows| - 1], rows[|rows| - 1];
      assert rows == before + [last];
      DuplicatesCount(before, lower);
      TuplesNext(before, last, lower);
      if Full(last) {
        SeenIffKey(before, Key(last, lower), lower);
      }
    }
  }

  /** Different tuples have different joins. */
  ghost predicate Tells(ts: set<seq<string>>) {
    forall a, b :: a in ts && b in ts && Join(a) == Join(b) ==> a == b
  }

  lemma {:induction false} JoinsOf(ts: set<seq<string>>)
    ensures |Joins(ts)| <= |ts| && (|Joins(ts)| == |ts| <==> Tells(ts))
  {
    if ts != {} {
      var t := Pick(ts);
      var rest := ts - {t};
      JoinsOf(rest);
      assert Joins(ts) == Joins(rest) + {Join(t)};
      if Join(t) in Joins(rest) {
        assert Joins(ts) == Joins(rest);
        var x :| x in rest && Join(x) == Join(t);
        assert x in ts && t in ts;
      } else {
        assert |Joins(ts)| == |Joins(rest)| + 1;
        TellsMore(rest, t);
        assert rest + {t} == ts;
      }
    }
  }

  lemma TellsMore(ts: set<seq<string>>, t: seq<string>)
    requires t !in ts && Join(t) !in Joins(ts)
    ensures Tells(ts + {t}) <==> Tells(ts)
  {
    if Tells(ts) {
      forall a, b | a in ts + {t} && b in ts + {t} && Join(a) == Join(b)
        ensures a == b
      {
        assert a in ts ==> Join(a) in Joins(ts);
        assert b in ts ==> Join(b) in Joins(ts);
      }
    }
  }

  /** The report names exactly as many rows as there are full rows beyond the distinct tuples if and only if
      no two different tuples of the table have one join. */
  lemma DuplicatesAreExact(rows: seq<Keyed>, lower: string -> string)
    ensures |Duplicates(rows, lower)| == FullRows(rows) - |Tuples(rows, lower)| <==> Tells(Tuples(rows, lower))
  {
    DuplicatesCount(rows, lower);
    JoinsOf(Tuples(rows, lower));
  }

  // ── Which tuples share their join with another ──

  predicate FullTuple(t: seq<string>) {
    t != [] && forall i :: 0 <= i < |t| ==> t[i] != ""
  }

  /** A separator inside a part can take the place of the cut after it, or of the cut before it, and leave
      no part empty. */
  predicate Movable(t: seq<string>) {
    || (exists k, i :: 0 <= k < |t| - 1 && 1 <= i < |t[k]| && t[k][i] == SEPARATOR)
    || (exists k, i :: 1 <= k < |t| && 0 <= i < |t[k]| - 1 && t[k][i] == SEPARATOR)
  }

  /** Where the i-th cut stands in the join; the first part begins after cut 0. */
  function Cut(t: seq<string>, i: nat): int
    requires i <= |t|
  {
    if i == 0 then -1 else Cut(t, i - 1) + 1 + |t[i - 1]|
  }

  lemma {:induction false} CutTail(t: seq<string>, i: nat)
    requires 0 < i <= |t|
    ensures Cut(t, i) == |t[0]| + 1 + Cut(t[1..], i - 1)
  {
    if i > 1 {
      CutTail(t, i - 1);
    }
  }

  /** Where the parts and the cuts stand in the join. */
  lemma {:induction false} Layout(t: seq<string>, i: nat)
    requires i < |t|
    ensures 0 <= Cut(t, i) + 1 <= Cut(t, i + 1) <= |Join(t)| && Join(t)[Cut(t, i) + 1..Cut(t, i + 1)] == t[i]
    ensures i + 1 < |t| ==> Cut(t, i + 1) < |Join(t)| && Join(t)[Cut(t, i + 1)] == SEPARATOR
    ensures i + 1 == |t| ==> Cut(t, i + 1) == |Join(t)|
  {
    if |t| > 1 {
      var rest := t[1..];
      assert Join(t) == t[0] + [SEPARATOR] + Join(rest);
      if i > 0 {
        Layout(rest, i - 1);
        CutTail(t, i);
        CutTail(t, i + 1);
        var from, to := Cut(rest, i - 1) + 1, Cut(rest, i);
        assert Join(t)[Cut(t, i) + 1..Cut(t, i + 1)] == Join(rest)[from..to];
      }
    }
  }

  /** Every cut but the outermost is a separator, and no two are adjacent. */
  lemma Cuts(t: seq<string>, i: nat)
    requires FullTuple(t) && i < |t|
    ensures 1 <= Cut(t, i) + 2 <= Cut(t, i + 1) <= |Join(t)|
    ensures i + 1 < |t| ==> Cut(t, i + 1) < |Join(t)| && Join(t)[Cut(t, i + 1)] == SEPARATOR
    ensures i + 1 == |t| ==> Cut(t, i + 1) == |Join(t)|
    ensures forall p :: Cut(t, i) < p < Cut(t, i + 1) ==> Join(t)[p] == t[i][p - Cut(t, i) - 1]
  {
    Layout(t, i);
    forall p | Cut(t, i) < p < Cut(t, i + 1)
      ensures Join(t)[p] == t[i][p - Cut(t, i) - 1]
    {
      assert Join(t)[Cut(t, i) + 1..Cut(t, i + 1)][p - Cut(t, i) - 1] == Join(t)[p];
    }
  }

  /** Cuts that cannot move back are the earliest. */
  lemma {:induction false} NoEarlierCut(t: seq<string>, u: seq<string>, i: nat)
    requires FullTuple(t) && FullTuple(u) && |u| == |t| && Join(u) == Join(t) && !Movable(t) && i <= |t|
    ensures Cut(t, i) <= Cut(u, i)
  {
    if i > 0 {
      NoEarlierCut(t, u, i - 1);
      Cuts(t, i - 1);
      Cuts(u, i - 1);
    }
  }

  /** Cuts that cannot move on are the latest. */
  lemma {:induction false} NoLaterCut(t: seq<string>, u: seq<string>, i: nat)
    requires FullTuple(t) && FullTuple(u) && |u| == |t| && Join(u) == Join(t) && !Movable(t) && i <= |t|
    ensures Cut(u, i) <= Cut(t, i)
    decreases |t| - i
  {
    if i == |t| {
      Cuts(t, i - 1);
      Cuts(u, i - 1);
    } else if i > 0 {
      NoLaterCut(t, u, i + 1);
      Cuts(t, i);
      Cuts(u, i);
      Cuts(u, i - 1);
    }
  }

  lemma UnmovableIsAlone(t: seq<string>, u: seq<string>)
    requires FullTuple(t) && FullTuple(u) && |u| == |t| && Join(u) == Join(t) && !Movable(t)
    ensures u == t
  {
    forall i | 0 <= i < |t|
      ensures u[i] == t[i]
    {
      NoEarlierCut(t, u, i);
      NoLaterCut(t, u, i);
      NoEarlierCut(t, u, i + 1);
      NoLaterCut(t, u, i + 1);
      Layout(t, i);
      Layout(u, i);
    }
  }

  lemma {:induction false} JoinFrom(a: seq<string>, b: seq<string>)
    requires b != []
    ensures Join(a + b) == if a == [] then Join(b) else Join(a) + [SEPARATOR] + Join(b)
  {
    if a == [] {
      assert a + b == b;
    } else {
      assert (a + b)[1..] == a[1..] + b;
      JoinFrom(a[1..], b);
    }
  }

  /** Two neighbours may share out what is between them in any way that keeps the separator. */
  lemma Recut(t: seq<string>, k: nat, x: string, y: string)
    requires k + 1 < |t| && x + [SEPARATOR] + y == t[k] + [SEPARATOR] + t[k + 1]
    ensures Join(t[k := x][k + 1 := y]) == Join(t)
  {
    var u := t[k := x][k + 1 := y];
    var a, b := t[..k], t[k + 2..];
    assert t == a + ([t[k], t[k + 1]] + b) && u == a + ([x, y] + b);
    JoinFrom(a, [t[k], t[k + 1]] + b);
    JoinFrom(a, [x, y] + b);
    PairFirst(t[k], t[k + 1], b);
    PairFirst(x, y, b);
  }

  lemma PairFirst(x: string, y: string, b: seq<string>)
    ensures Join([x, y] + b) == if b == [] then x + [SEPARATOR] + y else x + [SEPARATOR] + y + [SEPARATOR] + Join(b)
  {
    assert ([x, y] + b)[1..] == [y] + b;
    if b != [] {
      assert ([y] + b)[1..] == b;
    }
  }

  /** A cut that can move does. */
  lemma MovedCut(t: seq<string>) returns (u: seq<string>)
    requires FullTuple(t) && Movable(t)
    ensures FullTuple(u) && |u| == |t| && u != t && Join(u) == Join(t)
  {
    if k, i :| 0 <= k < |t| - 1 && 1 <= i < |t[k]| && t[k][i] == SEPARATOR {
      var x, y := t[k][..i], t[k][i + 1..] + [SEPARATOR] + t[k + 1];
      assert t[k] == x + [SEPARATOR] + t[k][i + 1..];
      Recut(t, k, x, y);
      u := t[k := x][k + 1 := y];
      assert u[k] != t[k];
    } else {
      var k, i :| 1 <= k < |t| && 0 <= i < |t[k]| - 1 && t[k][i] == SEPARATOR;
      var x, y := t[k - 1] + [SEPARATOR] + t[k][..i], t[k][i + 1..];
      assert t[k] == t[k][..i] + [SEPARATOR] + y;
      Recut(t, k - 1, x, y);
      u := t[k - 1 := x][k := y];
      assert |u[k]| < |t[k]|;
    }
  }

  /** A full tuple shares its join with another full tuple of its arity exactly when one of its cuts can
      move; with one column there is no cut to move. */
  lemma SharesJoinIff(t: seq<string>)
    requires FullTuple(t)
    ensures Movable(t) <==> exists u :: FullTuple(u) && |u| == |t| && u != t && Join(u) == Join(t)
    ensures |t| == 1 ==> !Movable(t)
  {
    if Movable(t) {
      var u := MovedCut(t);
    } else if u :| FullTuple(u) && |u| == |t| && u != t && Join(u) == Join(t) {
      UnmovableIsAlone(t, u);
    }
  }

  /** A table none of whose tuples has a cut that can move is reported exactly; lowering never empties a
      value. */
  lemma ExactWithoutMovableCuts(rows: seq<Keyed>, lower: string -> string, arity: nat)
    requires arity > 0 && forall i :: 0 <= i < |rows| ==> |rows[i].parts| == arity
    requires forall s :: s != "" ==> lower(s) != ""
    requires forall t :: t in Tuples(rows, lower) ==> !Movable(t)
    ensures |Duplicates(rows, lower)| == FullRows(rows) - |Tuples(rows, lower)|
  {
    forall a, b | a in Tuples(rows, lower) && b in Tuples(rows, lower) && Join(a) == Join(b)
      ensures a == b
    {
      assert FullTuple(a) && FullTuple(b) && |a| == |b| == arity;
      UnmovableIsAlone(a, b);
    }
    DuplicatesAreExact(rows, lower);
  }

  /** With the separator in a value, two rows that differ in both columns are reported as one. */
  lemma SeparatorMisleads(lower: string -> string)
    requires forall s :: lower(s) == s
    ensures var rows := [Keyed(1, [Some("a" + [SEPARATOR] + "b"), Some("c")]),
                         Keyed(2, [Some("a"), Some("b" + [SEPARATOR] + "c")])];
      && |Tuples(rows, lower)| == 2
      && Duplicates(rows, lower) == [Duplicate(2, 1)]
  {
    var first, second := Keyed(1, [Some("a" + [SEPARATOR] + "b"), Some("c")]),
                         Keyed(2, [Some("a"), Some("b" + [SEPARATOR] + "c")]);
    var rows := [first, second];
    var t, u := ["a" + [SEPARATOR] + "b", "c"], ["a", "b" + [SEPARATOR] + "c"];
    assert Tuple(first, lower) == t && Tuple(second, lower) == u;
    assert t[1..] == ["c"] && u[1..] == ["b" + [SEPARATOR] + "c"];
    assert Join(t) == "a" + [SEPARATOR] + "b" + [SEPARATOR] + "c";
    assert Join(u) == "a" + [SEPARATOR] + ("b" + [SEPARATOR] + "c");
    assert Join(t) == Join(u);
    assert rows[..1] == [first] && [first][..0] == [];
    assert FirstWith([first], Join(u), lower) == Some(1);
    assert Duplicates([first], lower) == [];
    assert Tuples(rows, lower) == {t, u};
    assert |"a" + [SEPARATOR] + "b"| == 3;
  }

  // ── Interest priorities ──

  datatype Interest = Interest(studentId: int, priority: int)

  function PrioritiesOf(interests: seq<Interest>, student: int): seq<int> {
    if interests == [] then []
    else
      var last := interests[|interests| - 1];
      var before := PrioritiesOf(interests[..|interests| - 1], student);
      if last.studentId == student then before + [last.priority] else before
  }

  function Insert(sorted: seq<int>, x: int): seq<int> {
    if sorted == [] then [x]
    else if x < sorted[0] then [x] + sorted
    else [sorted[0]] + Insert(sorted[1..], x)
  }

  /** `sort((a, b) => a - b)`. */
  function Sorted(s: seq<int>): seq<int> {
    if s == [] then [] else Insert(Sorted(s[..|s| - 1]), s[|s| - 1])
  }

  predicate Ascending(s: seq<int>) {
    forall i, j :: 0 <= i < j < |s| ==> s[i] <= s[j]
  }

  lemma {:induction false} InsertKeepsAll(s: seq<int>, x: int)
    ensures multiset(Insert(s, x)) == multiset(s) + multiset{x}
  {
    if s != [] && s[0] <= x {
      assert s == [s[0]] + s[1..];
      InsertKeepsAll(s[1..], x);
    }
  }

  lemma {:induction false} InsertAscends(s: seq<int>, x: int)
    requires Ascending(s)
    ensures Ascending(Insert(s, x)) && |Insert(s, x)| == |s| + 1
    ensures forall i :: 0 <= i < |Insert(s, x)| ==> Insert(s, x)[i] >= if s != [] && s[0] <= x then s[0] else x
  {
    if s != [] && s[0] <= x {
      InsertAscends(s[1..], x);
    }
  }

  lemma {:induction false} SortedOk(s: seq<int>)
    ensures Ascending(Sorted(s)) && multiset(Sorted(s)) == multiset(s) && |Sorted(s)| == |s|
  {
    if s != [] {
      assert s == s[..|s| - 1] + [s[|s| - 1]];
      SortedOk(s[..|s| - 1]);
      InsertKeepsAll(Sorted(s[..|s| - 1]), s[|s| - 1]);
      InsertAscends(Sorted(s[..|s| - 1]), s[|s| - 1]);
    }
  }

  /** One to `n`. */
  function UpTo(n: nat): (s: seq<int>)
    ensures |s| == n && forall i :: 0 <= i < n ==> s[i] == i + 1
  {
    seq(n, i => i + 1)
  }

  /** Some sorted priority is not one more than its place. */
  predicate HasGap(priorities: seq<int>) {
    var sorted := Sorted(priorities);
    exists i :: 0 <= i < |sorted| && sorted[i] != i + 1
  }

  lemma LastIsLargest(s: seq<int>, x: int)
    requires Ascending(s) && x in multiset(s)
    ensures s != [] && x <= s[|s| - 1]
  {
    var i :| 0 <= i < |s| && s[i] == x;
  }

  lemma DropLast(s: seq<int>)
    requires s != []
    ensures multiset(s[..|s| - 1]) == multiset(s) - multiset{s[|s| - 1]}
  {
    assert s == s[..|s| - 1] + [s[|s| - 1]];
  }

  lemma SameLength(a: seq<int>, b: seq<int>)
    requires multiset(a) == multiset(b)
    ensures |a| == |b|
  {
    assert |multiset(a)| == |a| && |multiset(b)| == |b|;
  }

  lemma SameLast(a: seq<int>, b: seq<int>)
    requires Ascending(a) && Ascending(b) && multiset(a) == multiset(b) && a != [] && b != []
    ensures a[|a| - 1] == b[|b| - 1]
  {
    var x, y := a[|a| - 1], b[|b| - 1];
    assert x in multiset(a) by {
      assert x in a;
    }
    assert y in multiset(b) by {
      assert y in b;
    }
    LastIsLargest(b, x);
    LastIsLargest(a, y);
  }

  lemma {:induction false} AscendingIsUnique(a: seq<int>, b: seq<int>)
    requires Ascending(a) && Ascending(b) && multiset(a) == multiset(b)
    ensures a == b
  {
    SameLength(a, b);
    if a != [] {
      var n := |a| - 1;
      SameLast(a, b);
      DropLast(a);
      DropLast(b);
      AscendingIsUnique(a[..n], b[..n]);
      assert a == a[..n] + [a[n]];
      assert b == b[..n] + [b[n]];
    }
  }

  /** There is no gap exactly when the priorities are the numbers one to `n`, each once, in any order. */
  lemma GapFreeIff(priorities: seq<int>)
    ensures !HasGap(priorities) <==> multiset(priorities) == multiset(UpTo(|priorities|))
  {
    SortedOk(priorities);
    var n := |priorities|;
    if !HasGap(priorities) {
      assert Sorted(priorities) == UpTo(n);
    } else if multiset(priorities) == multiset(UpTo(n)) {
      AscendingIsUnique(Sorted(priorities), UpTo(n));
    }
  }

  /** The students the report names, grouping the interests once and then going over the students. */
  method ScanPriorities(interests: seq<Interest>, students: seq<int>) returns (gaps: seq<int>)
    ensures forall s :: s in gaps <==> s in students && HasGap(PrioritiesOf(interests, s))
  {
    var byStudent: map<int, seq<int>> := map[];
    for n := 0 to |interests|
      invariant forall s :: PrioritiesOf(interests[..n], s) == if s in byStudent then byStudent[s] else []
    {
      assert interests[..n + 1][..n] == interests[..n];
      var interest := interests[n];
      var owned := if interest.studentId in byStudent then byStudent[interest.studentId] else [];
      byStudent := byStudent[interest.studentId := owned + [interest.priority]];
    }
    assert interests[..|interests|] == interests;
    gaps := [];
    for n := 0 to |students|
      invariant forall s :: s in gaps <==> s in students[..n] && HasGap(PrioritiesOf(interests, s))
    {
      var s := students[n];
      assert students[..n + 1] == students[..n] + [s];
      if HasGap(if s in byStudent then byStudent[s] else []) {
        gaps := gaps + [s];
      }
    }
    assert students[..|students|] == students;
  }

  // ── Paid flags ──

  datatype Session = Session(id: int, isPaid: Option<bool>, payoutId: Option<int>)
  datatype Payout = Payout(id: int, status: string, lines: Option<seq<int>>)

  datatype PaidIssue = Orphan(session: int) | Mismatch(session: int) | Missing(session: int, payout: int)

  predicate DistinctSessions(sessions: seq<Session>) {
    forall i, j :: 0 <= i < j < |sessions| ==> sessions[i].id != sessions[j].id
  }

  predicate DistinctPayouts(payouts: seq<Payout>) {
    forall i, j :: 0 <= i < j < |payouts| ==> payouts[i].id != payouts[j].id
  }

  function FindSession(sessions: seq<Session>, id: int): Option<Session> {
    if sessions == [] then None
    else if sessions[|sessions| - 1].id == id then Some(sessions[|sessions| - 1])
    else FindSession(sessions[..|sessions| - 1], id)
  }

  function FindPayout(payouts: seq<Payout>, id: int): Option<Payout> {
    if payouts == [] then None
    else if payouts[|payouts| - 1].id == id then Some(payouts[|payouts| - 1])
    else FindPayout(payouts[..|payouts| - 1], id)
  }

  /** `Number(payoutId)`: null counts as 0. */
  function NumberOf(payoutId: Option<int>): int {
    if payoutId.Some? then payoutId.value else 0
  }

  function LinesOf(payout: Payout): seq<int> {
    if payout.lines.Some? then payout.lines.value else []
  }

  /** What the report says of a session flagged paid. */
  function FlagIssue(s: Session, payouts: seq<Payout>): seq<PaidIssue> {
    if s.isPaid != Some(true) then []
    else if s.payoutId.None? || FindPayout(payouts, s.payoutId.value).None? then [Orphan(s.id)]
    else if FindPayout(payouts, s.payoutId.value).value.status != "paid" then [Mismatch(s.id)]
    else []
  }

  function FlagIssues(sessions: seq<Session>, payouts: seq<Payout>): seq<PaidIssue> {
    if sessions == [] then []
    else FlagIssues(sessions[..|sessions| - 1], payouts) + FlagIssue(sessions[|sessions| - 1], payouts)
  }

  /** What it says of one line of a paid payout. */
  function LineIssue(line: int, payout: int, sessions: seq<Session>): seq<PaidIssue> {
    var s := FindSession(sessions, line);
    if s.Some? && (s.value.isPaid != Some(true) || NumberOf(s.value.payoutId) != payout)
    then [Missing(line, payout)]
    else []
  }

  function LineIssues(lines: seq<int>, payout: int, sessions: seq<Session>): seq<PaidIssue> {
    if lines == [] then []
    else LineIssues(lines[..|lines| - 1], payout, sessions) + LineIssue(lines[|lines| - 1], payout, sessions)
  }

  function PayoutIssues(payouts: seq<Payout>, sessions: seq<Session>): seq<PaidIssue> {
    if payouts == [] then []
    else
      var last := payouts[|payouts| - 1];
      PayoutIssues(payouts[..|payouts| - 1], sessions)
        + if last.status == "paid" then LineIssues(LinesOf(last), last.id, sessions) else []
  }

  method IndexSessions(sessions: seq<Session>) returns (byId: map<int, Session>)
    ensures forall id :: FindSession(sessions, id) == if id in byId then Some(byId[id]) else None
  {
    byId := map[];
    for n := 0 to |sessions|
      invariant forall id :: FindSession(sessions[..n], id) == if id in byId then Some(byId[id]) else None
    {
      assert sessions[..n + 1][..n] == sessions[..n];
      byId := byId[sessions[n].id := sessions[n]];
    }
    assert sessions[..|sessions|] == sessions;
  }

  method IndexPayouts(payouts: seq<Payout>) returns (byId: map<int, Payout>)
    ensures forall id :: FindPayout(payouts, id) == if id in byId then Some(byId[id]) else None
  {
    byId := map[];
    for n := 0 to |payouts|
      invariant forall id :: FindPayout(payouts[..n], id) == if id in byId then Some(byId[id]) else None
    {
      assert payouts[..n + 1][..n] == payouts[..n];
      byId := byId[payouts[n].id := payouts[n]];
    }
    assert payouts[..|payouts|] == payouts;
  }

  method ScanSessions(sessions: seq<Session>, payouts: seq<Payout>) returns (issues: seq<PaidIssue>)
    ensures issues == FlagIssues(sessions, payouts)
  {
    var payoutById := IndexPayouts(payouts);
    issues := [];
    for n := 0 to |sessions|
      invariant issues == FlagIssues(sessions[..n], payouts)
    {
      assert sessions[..n + 1][..n] == sessions[..n];
      var s := sessions[n];
      if s.isPaid == Some(true) {
        if s.payoutId.None? || s.payoutId.value !in payoutById {
          issues := issues + [Orphan(s.id)];
        } else if payoutById[s.payoutId.value].status != "paid" {
          issues := issues + [Mismatch(s.id)];
        }
      }
    }
    assert sessions[..|sessions|] == sessions;
  }

  method ScanPayouts(sessions: seq<Session>, payouts: seq<Payout>) returns (issues: seq<PaidIssue>)
    ensures issues == PayoutIssues(payouts, sessions)
  {
    var sessionById := IndexSessions(sessions);
    issues := [];
    for n := 0 to |payouts|
      invariant issues == PayoutIssues(payouts[..n], sessions)
    {
      assert payouts[..n + 1][..n] == payouts[..n];
      if payouts[n].status == "paid" {
        var more := ScanLines(LinesOf(payouts[n]), payouts[n].id, sessions, sessionById);
        issues := issues + more;
      }
    }
    assert payouts[..|payouts|] == payouts;
  }

  /** The two loops of the report, over maps by id. */
  method ScanPaidFlags(sessions: seq<Session>, payouts: seq<Payout>) returns (issues: seq<PaidIssue>)
    requires DistinctSessions(sessions) && DistinctPayouts(payouts)
    ensures issues == FlagIssues(sessions, payouts) + PayoutIssues(payouts, sessions)
  {
    issues := ScanSessions(sessions, payouts);
    var more := ScanPayouts(sessions, payouts);
    issues := issues + more;
  }

  method ScanLines(lines: seq<int>, payout: int, ghost sessions: seq<Session>, sessionById: map<int, Session>)
    returns (issues: seq<PaidIssue>)
    requires forall id :: FindSession(sessions, id) == if id in sessionById then Some(sessionById[id]) else None
    ensures issues == LineIssues(lines, payout, sessions)
  {
    issues := [];
    for k := 0 to |lines|
      invariant issues == LineIssues(lines[..k], payout, sessions)
    {
      assert lines[..k + 1][..k] == lines[..k];
      if lines[k] in sessionById {
        var s := sessionById[lines[k]];
        if s.isPaid != Some(true) || NumberOf(s.payoutId) != payout {
          issues := issues + [Missing(lines[k], payout)];
        }
      }
    }
    assert lines[..|lines|] == lines;
  }

  /** A session flagged paid is linked to a paid payout, and every session a paid payout lists is flagged
      paid and linked to it. */
  ghost predicate PaidRelation(sessions: seq<Session>, payouts: seq<Payout>) {
    && (forall s :: s in sessions && s.isPaid == Some(true) ==>
          exists p :: p in payouts && s.payoutId == Some(p.id) && p.status == "paid")
    && (forall s, p :: s in sessions && p in payouts && p.status == "paid" && s.id in LinesOf(p) ==>
          s.isPaid == Some(true) && s.payoutId == Some(p.id))
  }

  lemma {:induction false} FindSessionIff(sessions: seq<Session>, s: Session)
    requires DistinctSessions(sessions)
    ensures s in sessions <==> FindSession(sessions, s.id) == Some(s)
  {
    if sessions != [] {
      var n := |sessions| - 1;
      FindSessionIff(sessions[..n], s);
      assert sessions == sessions[..n] + [sessions[n]];
    }
  }

  lemma {:induction false} FindSessionId(sessions: seq<Session>, id: int)
    ensures FindSession(sessions, id).Some? ==> FindSession(sessions, id).value.id == id
  {
    if sessions != [] {
      FindSessionId(sessions[..|sessions| - 1], id);
    }
  }

  lemma {:induction false} FindPayoutIff(payouts: seq<Payout>, p: Payout)
    requires DistinctPayouts(payouts)
    ensures p in payouts <==> FindPayout(payouts, p.id) == Some(p)
  {
    if payouts != [] {
      var n := |payouts| - 1;
      FindPayoutIff(payouts[..n], p);
      assert payouts == payouts[..n] + [payouts[n]];
    }
  }

  lemma {:induction false} FindPayoutId(payouts: seq<Payout>, id: int)
    ensures FindPayout(payouts, id).Some? ==> FindPayout(payouts, id).value.id == id
  {
    if payouts != [] {
      FindPayoutId(payouts[..|payouts| - 1], id);
    }
  }

  lemma {:induction false} NoFlagIssue(sessions: seq<Session>, payouts: seq<Payout>)
    ensures FlagIssues(sessions, payouts) == [] <==> forall s :: s in sessions ==> FlagIssue(s, payouts) == []
  {
    if sessions != [] {
      var n := |sessions| - 1;
      NoFlagIssue(sessions[..n], payouts);
      assert sessions == sessions[..n] + [sessions[n]];
    }
  }

  lemma {:induction false} NoLineIssue(lines: seq<int>, payout: int, sessions: seq<Session>)
    ensures LineIssues(lines, payout, sessions) == [] <==> forall l :: l in lines ==> LineIssue(l, payout, sessions) == []
  {
    if lines != [] {
      var n := |lines| - 1;
      NoLineIssue(lines[..n], payout, sessions);
      assert lines == lines[..n] + [lines[n]];
    }
  }

  lemma {:induction false} NoPayoutIssue(payouts: seq<Payout>, sessions: seq<Session>)
    ensures PayoutIssues(payouts, sessions) == [] <==>
              forall p, l :: p in payouts && p.status == "paid" && l in LinesOf(p) ==> LineIssue(l, p.id, sessions) == []
  {
    if payouts != [] {
      var n := |payouts| - 1;
      NoPayoutIssue(payouts[..n], sessions);
      NoLineIssue(LinesOf(payouts[n]), payouts[n].id, sessions);
      assert payouts == payouts[..n] + [payouts[n]];
    }
  }

  lemma FlagIssueIff(s: Session, payouts: seq<Payout>)
    requires DistinctPayouts(payouts)
    ensures FlagIssue(s, payouts) == [] <==>
              (s.isPaid == Some(true) ==> exists p :: p in payouts && s.payoutId == Some(p.id) && p.status == "paid")
  {
    if s.payoutId.Some? {
      var found := FindPayout(payouts, s.payoutId.value);
      FindPayoutId(payouts, s.payoutId.value);
      if found.Some? {
        FindPayoutIff(payouts, found.value);
      }
      if p :| p in payouts && s.payoutId == Some(p.id) && p.status == "paid" {
        FindPayoutIff(payouts, p);
      }
    }
  }

  lemma FlagsCleanIff(sessions: seq<Session>, payouts: seq<Payout>)
    requires DistinctPayouts(payouts)
    ensures FlagIssues(sessions, payouts) == [] <==>
              forall s :: s in sessions && s.isPaid == Some(true) ==>
                exists p :: p in payouts && s.payoutId == Some(p.id) && p.status == "paid"
  {
    NoFlagIssue(sessions, payouts);
    forall s | s in sessions
      ensures FlagIssue(s, payouts) == [] <==>
                (s.isPaid == Some(true) ==> exists p :: p in payouts && s.payoutId == Some(p.id) && p.status == "paid")
    {
      FlagIssueIff(s, payouts);
    }
  }

  lemma LineIssueIff(line: int, payout: int, sessions: seq<Session>)
    requires DistinctSessions(sessions)
    ensures LineIssue(line, payout, sessions) == [] <==>
              forall s :: s in sessions && s.id == line ==> s.isPaid == Some(true) && NumberOf(s.payoutId) == payout
  {
    FindSessionId(sessions, line);
    var found := FindSession(sessions, line);
    if found.Some? {
      FindSessionIff(sessions, found.value);
    }
    forall s | s in sessions && s.id == line
      ensures found == Some(s)
    {
      FindSessionIff(sessions, s);
    }
  }

  lemma LinesCleanIff(sessions: seq<Session>, payouts: seq<Payout>)
    requires DistinctSessions(sessions)
    ensures PayoutIssues(payouts, sessions) == [] <==>
              forall s, p :: s in sessions && p in payouts && p.status == "paid" && s.id in LinesOf(p) ==>
                s.isPaid == Some(true) && NumberOf(s.payoutId) == p.id
  {
    NoPayoutIssue(payouts, sessions);
    forall p, l | p in payouts && p.status == "paid" && l in LinesOf(p)
      ensures LineIssue(l, p.id, sessions) == [] <==>
                forall s :: s in sessions && s.id == l ==> s.isPaid == Some(true) && NumberOf(s.payoutId) == p.id
    {
      LineIssueIff(l, p.id, sessions);
    }
  }

  /** The paid-flag checks are silent exactly when the two-way relation holds. A payout with id 0, which
      an unlinked session's null would be taken for, changes nothing: the first loop catches that. */
  lemma PaidFlagsCleanIff(sessions: seq<Session>, payouts: seq<Payout>)
    requires DistinctSessions(sessions) && DistinctPayouts(payouts)
    ensures FlagIssues(sessions, payouts) + PayoutIssues(payouts, sessions) == [] <==> PaidRelation(sessions, payouts)
  {
    FlagsCleanIff(sessions, payouts);
    LinesCleanIff(sessions, payouts);
    assert FlagIssues(sessions, payouts) + PayoutIssues(payouts, sessions) == [] <==>
           FlagIssues(sessions, payouts) == [] && PayoutIssues(payouts, sessions) == [];
  }

  /** A clean report leaves no live session on two paid payouts. */
  lemma CleanMeansPaidOnce(sessions: seq<Session>, payouts: seq<Payout>, s: Session, p: Payout, q: Payout)
    requires DistinctSessions(sessions) && DistinctPayouts(payouts)
    requires FlagIssues(sessions, payouts) + PayoutIssues(payouts, sessions) == []
    requires s in sessions && p in payouts && q in payouts && p.status == "paid" && q.status == "paid"
    requires s.id in LinesOf(p) && s.id in LinesOf(q)
    ensures p == q
  {
    PaidFlagsCleanIff(sessions, payouts);
    FindPayoutIff(payouts, p);
    FindPayoutIff(payouts, q);
  }
}
