/** Refresh-token replacement chains: the recursive cycle query of the integrity migration, and the links
    that keep its answer empty. */
module RefreshChain {
  import opened Rows

  /** `auth_refresh_tokens` by id, as far as the query looks: `replaced_by_id`. */
  type Links = map<int, Option<int>>

  // ── The recursive query ──

  datatype ChainRow = ChainRow(root: int, id: int, next: Option<int>, path: seq<int>, cycle: bool)

  /** The non-recursive term. */
  function Seeds(t: Links): set<ChainRow> {
    set id | id in t :: ChainRow(id, id, t[id], [id], false)
  }

  /** The row joins a successor and has not closed a cycle. */
  predicate Joins(t: Links, row: ChainRow) {
    row.next.Some? && row.next.value in t && !row.cycle
  }

  function Joined(t: Links, row: ChainRow): ChainRow
    requires Joins(t, row)
  {
    var id := row.next.value;
    ChainRow(row.root, id, t[id], row.path + [id], id in row.path)
  }

  /** The working table of the `n`-th round of the recursive term. */
  function Round(t: Links, n: nat): set<ChainRow> {
    if n == 0 then Seeds(t)
    else
      var previous := Round(t, n - 1);
      set row | row in previous && Joins(t, row) :: Joined(t, row)
  }

  /** What the query collects in its first `n` rounds: the roots it counts. */
  function FlaggedWithin(t: Links, n: nat): set<int> {
    if n == 0 then {}
    else
      var round := Round(t, n - 1);
      FlaggedWithin(t, n - 1) + set row | row in round && row.cycle :: row.root
  }

  /** The query's answer; `QueryEnds` shows that later rounds are empty. */
  function Flagged(t: Links): set<int> {
    FlaggedWithin(t, |t| + 1)
  }

  // ── What it is meant to find ──

  /** The `k`-th successor, if the chain gets that far. */
  function Follow(t: Links, id: int, k: nat): Option<int>
    decreases k
  {
    if id !in t then None
    else if k == 0 then Some(id)
    else if t[id].None? then None
    else Follow(t, t[id].value, k - 1)
  }

  ghost predicate NeverEnds(t: Links, id: int) {
    forall k: nat :: Follow(t, id, k).Some?
  }

  ghost predicate Reaches(t: Links, from: int, to: int) {
    exists k: nat :: Follow(t, from, k) == Some(to)
  }

  // ── Termination and exactness ──

  predicate Distinct(s: seq<int>) {
    forall i, j :: 0 <= i < j < |s| ==> s[i] != s[j]
  }

  /** What every row of the `n`-th round looks like. */
  ghost predicate RowOk(t: Links, n: nat, row: ChainRow) {
    && |row.path| == n + 1 && row.path[0] == row.root && row.path[n] == row.id
    && (forall i :: 0 <= i <= n ==> row.path[i] in t)
    && (forall i :: 0 <= i < n ==> t[row.path[i]] == Some(row.path[i + 1]))
    && row.next == t[row.id]
    && Distinct(row.path[..n])
    && (row.cycle <==> row.id in row.path[..n])
  }

  lemma DistinctGrows(s: seq<int>, x: int)
    requires Distinct(s) && x !in s
    ensures Distinct(s + [x])
  {
  }

  lemma JoinedOk(t: Links, n: nat, row: ChainRow)
    requires RowOk(t, n, row) && Joins(t, row)
    ensures RowOk(t, n + 1, Joined(t, row))
  {
    var joined := Joined(t, row);
    assert row.path == row.path[..n] + [row.id];
    DistinctGrows(row.path[..n], row.id);
    assert joined.path[..n + 1] == row.path;
  }

  lemma {:induction false} RoundRowsOk(t: Links, n: nat, row: ChainRow)
    requires row in Round(t, n)
    ensures RowOk(t, n, row)
  {
    if n != 0 {
      var previous :| previous in Round(t, n - 1) && Joins(t, previous) && Joined(t, previous) == row;
      RoundRowsOk(t, n - 1, previous);
      JoinedOk(t, n - 1, previous);
    }
  }

  lemma {:induction false} DistinctFits(s: seq<int>, within: set<int>)
    requires Distinct(s) && forall i :: 0 <= i < |s| ==> s[i] in within
    ensures |s| <= |within|
  {
    if s != [] {
      var last := s[|s| - 1];
      DistinctFits(s[..|s| - 1], within - {last});
    }
  }

  /** A row of the `n`-th round has walked over `n` rows of the table. */
  lemma RowsBound(t: Links, n: nat, row: ChainRow)
    requires row in Round(t, n)
    ensures n <= |t|
  {
    RoundRowsOk(t, n, row);
    assert |t.Keys| == |t|;
    DistinctFits(row.path[..n], t.Keys);
  }

  /** The recursion stops by itself: after as many rounds as the table has rows, the working table is
      empty for good. */
  lemma {:induction false} QueryEnds(t: Links, n: nat)
    requires n > |t|
    ensures Round(t, n) == {}
    ensures FlaggedWithin(t, n) == Flagged(t)
  {
    if Round(t, n) != {} {
      var row := Pick(Round(t, n));
      RowsBound(t, n, row);
    }
    if n > |t| + 1 {
      QueryEnds(t, n - 1);
    }
  }

  lemma {:induction false} FlaggedHasRow(t: Links, n: nat, root: int) returns (k: nat, row: ChainRow)
    requires root in FlaggedWithin(t, n)
    ensures k < n && row in Round(t, k) && row.cycle && row.root == root
  {
    if root in FlaggedWithin(t, n - 1) {
      k, row := FlaggedHasRow(t, n - 1, root);
    } else {
      k := n - 1;
      row :| row in Round(t, k) && row.cycle && row.root == root;
    }
  }

  /** A set every member of which has its successor in the set keeps the chain for ever. */
  lemma {:induction false} ClosedNeverEnds(t: Links, s: set<int>, id: int, k: nat)
    requires id in s
    requires forall x :: x in s ==> x in t && t[x].Some? && t[x].value in s
    ensures Follow(t, id, k).Some?
    decreases k
  {
    if k != 0 {
      ClosedNeverEnds(t, s, t[id].value, k - 1);
    }
  }

  lemma FlaggedNeverEnds(t: Links, root: int)
    requires root in Flagged(t)
    ensures NeverEnds(t, root)
  {
    var n, row := FlaggedHasRow(t, |t| + 1, root);
    RoundRowsOk(t, n, row);
    var s := set x | x in row.path[..n];
    forall x | x in s
      ensures x in t && t[x].Some? && t[x].value in s
    {
      var i :| 0 <= i < n && row.path[..n][i] == x;
      assert i + 1 < n ==> row.path[..n][i + 1] == row.path[i + 1];
    }
    assert row.path[..n][0] == root;
    forall k: nat
      ensures Follow(t, root, k).Some?
    {
      ClosedNeverEnds(t, s, root, k);
    }
  }

  lemma {:induction false} FollowPath(t: Links, path: seq<int>, k: nat)
    requires k < |path| && forall i :: 0 <= i < |path| ==> path[i] in t
    requires forall i :: 0 <= i < |path| - 1 ==> t[path[i]] == Some(path[i + 1])
    ensures Follow(t, path[0], k) == Some(path[k])
    decreases k
  {
    if k != 0 {
      FollowPath(t, path[1..], k - 1);
    }
  }

  lemma {:induction false} FollowOn(t: Links, id: int, k: nat)
    ensures Follow(t, id, k).Some? ==> Follow(t, id, k).value in t
    ensures Follow(t, id, k + 1) == if Follow(t, id, k).None? then None else Follow(t, Follow(t, id, k).value, 1)
    decreases k
  {
    if k != 0 && id in t && t[id].Some? {
      FollowOn(t, t[id].value, k - 1);
    }
  }

  /** A chain that goes on is in every round until it closes. */
  lemma {:induction false} StillThere(t: Links, root: int, n: nat) returns (row: ChainRow)
    requires NeverEnds(t, root) && root !in FlaggedWithin(t, n)
    ensures row in Round(t, n) && row.root == root
  {
    if n == 0 {
      assert Follow(t, root, 0).Some?;
      row := ChainRow(root, root, t[root], [root], false);
    } else {
      var previous := StillThere(t, root, n - 1);
      RoundRowsOk(t, n - 1, previous);
      FollowPath(t, previous.path, n - 1);
      FollowOn(t, root, n - 1);
      assert Follow(t, root, n).Some?;
      row := Joined(t, previous);
    }
  }

  /** The query flags a row exactly when following `replaced_by_id` from it never comes to an end. */
  lemma FlaggedIffNeverEnds(t: Links, root: int)
    ensures root in Flagged(t) <==> NeverEnds(t, root)
  {
    if root in Flagged(t) {
      FlaggedNeverEnds(t, root);
    } else if NeverEnds(t, root) {
      var row := StillThere(t, root, |t| + 1);
      QueryEnds(t, |t| + 1);
      assert false;
    }
  }

  // ── Links that keep the answer empty ──

  /** Two tables that differ at `at` alone carry a chain alike as long as it stays clear of `at`. */
  lemma {:induction false} SameUntil(u: Links, t: Links, x: int, at: int, k: nat)
    requires forall y :: y != at ==> (y in u <==> y in t) && (y in u ==> u[y] == t[y])
    requires forall j :: 0 <= j <= k ==> Follow(u, x, j).Some? && Follow(u, x, j) != Some(at)
    ensures Follow(t, x, k) == Follow(u, x, k)
    decreases k
  {
    assert Follow(u, x, 0) == Some(x);
    if k != 0 {
      assert Follow(u, x, 1).Some?;
      forall j | 0 <= j <= k - 1
        ensures Follow(u, u[x].value, j) == Follow(u, x, j + 1)
      {
      }
      SameUntil(u, t, u[x].value, at, k - 1);
    }
  }

  lemma {:induction false} FollowSplit(t: Links, id: int, j: nat, k: nat)
    requires Follow(t, id, j).Some?
    ensures Follow(t, id, j + k) == Follow(t, Follow(t, id, j).value, k)
    decreases j
  {
    if j != 0 {
      FollowSplit(t, t[id].value, j - 1, k);
    }
  }

  /** A chain that never ends in `u` and keeps clear of `at`, where alone `t` differs, never ends in `t`. */
  lemma ClearNeverEnds(u: Links, t: Links, x: int, at: int)
    requires forall y :: y != at ==> (y in u <==> y in t) && (y in u ==> u[y] == t[y])
    requires NeverEnds(u, x) && !Reaches(u, x, at)
    ensures NeverEnds(t, x)
  {
    forall k: nat
      ensures Follow(t, x, k).Some?
    {
      SameUntil(u, t, x, at, k);
    }
  }

  lemma UnlinkedEnds(t: Links, x: int, end: int)
    requires end in t && t[end].None? && Reaches(t, x, end)
    ensures !NeverEnds(t, x)
  {
    var k: nat :| Follow(t, x, k) == Some(end);
    FollowOn(t, x, k);
    assert Follow(t, x, k + 1).None?;
  }

  lemma UnlinkedReaches(t: Links, from: int, to: int)
    requires from in t && t[from].None?
    ensures Reaches(t, from, to) <==> from == to
  {
    assert Follow(t, from, 0) == Some(from);
  }

  /** Inserting a row without a link adds no finding, even where another row dangled to its id. */
  lemma InsertKeepsClean(t: Links, id: int)
    requires Flagged(t) == {} && id !in t
    ensures Flagged(t[id := None]) == {}
  {
    var u := t[id := None];
    if Flagged(u) != {} {
      var x := Pick(Flagged(u));
      FlaggedIffNeverEnds(u, x);
      if Reaches(u, x, id) {
        UnlinkedEnds(u, x, id);
      } else {
        ClearNeverEnds(u, t, x, id);
        FlaggedIffNeverEnds(t, x);
      }
    }
  }

  /** Setting the link of an unlinked row keeps the answer empty exactly when its new successor does not
      lead back to it. */
  lemma LinkKeepsCleanIff(t: Links, from: int, to: int)
    requires Flagged(t) == {} && from in t && t[from].None?
    ensures Flagged(t[from := Some(to)]) == {} <==> !Reaches(t, to, from)
  {
    if Reaches(t, to, from) {
      ClosingLink(t, from, to);
    } else {
      OpenLink(t, from, to);
    }
  }

  lemma ClosingLink(t: Links, from: int, to: int)
    requires from in t && t[from].None? && Reaches(t, to, from)
    ensures Flagged(t[from := Some(to)]) != {}
  {
    var u := t[from := Some(to)];
    var k: nat :| Follow(t, to, k) == Some(from);
    var s := set j: nat | j <= k && Follow(t, to, j).Some? :: Follow(t, to, j).value;
    forall x | x in s
      ensures x in u && u[x].Some? && u[x].value in s
    {
      var j: nat :| j <= k && Follow(t, to, j) == Some(x);
      FollowOn(t, to, j);
      if x != from {
        FollowSplit(t, to, j, k - j);
        assert Follow(t, to, j + 1) == Follow(t, x, 1);
        assert j < k;
        OnTheWay(t, to, j + 1, k);
        assert t[x].Some? && Follow(t, to, j + 1) == Some(t[x].value);
      } else {
        assert Follow(t, to, 0) == Some(to);
      }
    }
    assert from in s;
    forall i: nat
      ensures Follow(u, from, i).Some?
    {
      ClosedNeverEnds(u, s, from, i);
    }
    FlaggedIffNeverEnds(u, from);
  }

  /** What a chain gets to, it gets to by way of all before. */
  lemma {:induction false} OnTheWay(t: Links, id: int, j: nat, k: nat)
    requires j <= k && Follow(t, id, k).Some?
    ensures Follow(t, id, j).Some?
    decreases k
  {
    if j != 0 {
      OnTheWay(t, t[id].value, j - 1, k - 1);
    }
  }

  lemma OpenLink(t: Links, from: int, to: int)
    requires Flagged(t) == {} && from in t && t[from].None? && !Reaches(t, to, from)
    ensures Flagged(t[from := Some(to)]) == {}
  {
    var u := t[from := Some(to)];
    if Flagged(u) != {} {
      var x := Pick(Flagged(u));
      FlaggedIffNeverEnds(u, x);
      if Reaches(u, x, from) {
        var k: nat :| Follow(u, x, k) == Some(from);
        forall i: nat
          ensures Follow(u, to, i).Some?
        {
          FollowSplit(u, x, k, i + 1);
          assert Follow(u, x, k + (i + 1)).Some?;
        }
        FirstVisit(u, t, to, from);
        FlaggedIffNeverEnds(t, to);
      } else {
        ClearNeverEnds(u, t, x, from);
        FlaggedIffNeverEnds(t, x);
      }
    }
  }

  /** If a chain of `u` comes to `at`, where alone `t` differs, then the chain of `t` does so too. */
  lemma {:induction false} VisitsAlike(u: Links, t: Links, x: int, at: int, k: nat)
    requires at in t && forall y :: y != at ==> (y in u <==> y in t) && (y in u ==> u[y] == t[y])
    requires Follow(u, x, k) == Some(at)
    ensures Reaches(t, x, at)
    decreases k
  {
    if x == at {
      assert Follow(t, x, 0) == Some(at);
    } else {
      VisitsAlike(u, t, u[x].value, at, k - 1);
      var i: nat :| Follow(t, u[x].value, i) == Some(at);
      assert Follow(t, x, i + 1) == Some(at);
    }
  }

  lemma FirstVisit(u: Links, t: Links, x: int, at: int)
    requires at in t && forall y :: y != at ==> (y in u <==> y in t) && (y in u ==> u[y] == t[y])
    requires NeverEnds(u, x) && !Reaches(t, x, at)
    ensures NeverEnds(t, x)
  {
    if Reaches(u, x, at) {
      var k: nat :| Follow(u, x, k) == Some(at);
      VisitsAlike(u, t, x, at, k);
    } else {
      ClearNeverEnds(u, t, x, at);
    }
  }

  /** Dropping a link closes no cycle. */
  lemma UnlinkKeepsClean(t: Links, id: int)
    requires Flagged(t) == {} && id in t
    ensures Flagged(t[id := None]) == {}
  {
    var u := t[id := None];
    if Flagged(u) != {} {
      var x := Pick(Flagged(u));
      FlaggedIffNeverEnds(u, x);
      if Reaches(u, x, id) {
        UnlinkedEnds(u, x, id);
      } else {
        ClearNeverEnds(u, t, x, id);
        FlaggedIffNeverEnds(t, x);
      }
    }
  }

  /** Linking any row, linked before or not, to a row inserted for it adds no finding. */
  lemma RotationKeepsClean(t: Links, id: int, newId: int)
    requires Flagged(t) == {} && id in t && newId !in t
    ensures Flagged(t[newId := None][id := Some(newId)]) == {}
  {
    InsertKeepsClean(t, newId);
    UnlinkKeepsClean(t[newId := None], id);
    var u := t[newId := None][id := None];
    UnlinkedReaches(u, newId, id);
    LinkKeepsCleanIff(u, id, newId);
    assert u[id := Some(newId)] == t[newId := None][id := Some(newId)];
  }
}
