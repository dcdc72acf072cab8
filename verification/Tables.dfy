/** Tables and their in-memory mirrors as values: what each statement of the store does to a table, what
    the store then does to the collection, and when the two stay in agreement. */
module Tables {
  import opened Rows

  /** A collection's table: its business columns, and the constants some of them default to. */
  datatype Spec = Spec(table: string, columns: set<string>, defaults: Fields, skipMemoryWhenDurable: bool)

  /** A table, and the last value of its id sequence. */
  datatype Table = Table(rows: map<int, RowData>, serial: int)

  /** A statement that the database or a guard rejected leaves everything as it was. */
  datatype Outcome<+T> = Done(value: T) | Rejected

  ghost predicate TableOk(spec: Spec, t: Table) {
    forall id :: id in t.rows ==>
      && t.rows[id].id == id <= t.serial
      && t.rows[id].fields.Keys == spec.columns
      && t.rows[id].deletedAt != Undefined && t.rows[id].deletedBy != Undefined
  }

  /** `fromDbRow`: instants lose what is below the millisecond. */
  function FromDb(row: RowData): RowData {
    row.(createdAt := Ms(row.createdAt), updatedAt := Ms(row.updatedAt),
         deletedAt := if row.deletedAt.Num? then Num(Ms(row.deletedAt.n)) else row.deletedAt)
  }

  /** Equal but for the instants `updatedAt` and `deletedAt`, which two clocks wrote. */
  predicate SameRow(m: RowData, d: RowData) {
    && m.id == d.id && m.fields == d.fields && m.createdAt == Ms(d.createdAt)
    && m.Active() == d.Active()
    && (m.deletedBy == d.deletedBy || (m.deletedBy.Nullish() && d.deletedBy.Nullish()))
  }

  /** The memory collection mirrors the table. */
  ghost predicate Mirrors(view: seq<RowData>, rows: map<int, RowData>) {
    && DistinctIds(view)
    && (forall i :: 0 <= i < |view| ==> view[i].id in rows && SameRow(view[i], rows[view[i].id]))
    && (forall id :: id in rows ==> HasRow(view, id))
  }

  // ── The database side ──

  /** `toDbPayload`: undefined values are dropped. */
  function Payload(data: Fields): Fields {
    map k | k in data && data[k] != Undefined :: data[k]
  }

  /** A row as INSERT ... RETURNING * gives it back: a column without a value takes its default, or null. */
  function NewRow(spec: Spec, id: int, payload: Fields, now: int): RowData {
    RowData(id, map c | c in spec.columns ::
      if c in Filled(spec, payload) then Filled(spec, payload)[c] else Null, now, now, Null, Null)
  }

  /** The values an INSERT gives its columns, defaults included. */
  function Filled(spec: Spec, payload: Fields): Fields {
    (map c | c in spec.columns && c in spec.defaults :: spec.defaults[c]) + payload
  }

  /** UPDATE ... WHERE id = $n AND deleted_at IS [NOT] NULL. */
  function DbChange(rows: map<int, RowData>, id: int, change: Change, now: int): map<int, RowData> {
    if DbTouches(rows, id, change) then rows[id := change.Apply(rows[id], now)] else rows
  }

  /** SQL `column = value`: never true of a null. */
  predicate SqlEquals(row: RowData, field: Field, value: Value) {
    !value.Nullish() && row.Get(field) == value
  }

  /** The same in `updateIf`, where `updated_at` is compared to the millisecond. */
  predicate StillEquals(row: RowData, field: Field, value: Value) {
    if field == UpdatedAt then value.Num? && Ms(row.updatedAt) == Ms(value.n) else SqlEquals(row, field, value)
  }

  /** The WHERE clause of `updateIf`; undefined expectations are dropped. */
  predicate DbExpects(row: RowData, expected: map<Field, Value>) {
    row.Active() && forall f :: f in expected && expected[f] != Undefined ==> StillEquals(row, f, expected[f])
  }

  /** The memory path of `updateIf`: strict equality, undefined and null included. */
  predicate MemoryExpects(row: RowData, expected: map<Field, Value>) {
    row.Active() && forall f :: f in expected ==> row.Get(f) == expected[f]
  }

  /** Every compared field is a column; any other name is an SQL error. */
  predicate KnownFields(spec: Spec, expected: map<Field, Value>) {
    forall f :: f in expected && expected[f] != Undefined ==> KnownField(spec, f)
  }

  predicate KnownField(spec: Spec, field: Field) {
    field.Business? ==> field.name in spec.columns
  }

  function DbUpdateIf(rows: map<int, RowData>, id: int, expected: map<Field, Value>, payload: Fields, now: int)
    : map<int, RowData>
  {
    if id in rows && DbExpects(rows[id], expected) then DbChange(rows, id, Patch(payload), now) else rows
  }

  /** UPDATE ... SET deleted_at = NULL, deleted_by = NULL, <patch> WHERE deleted_at IS NOT NULL. */
  function DbRestore(rows: map<int, RowData>, id: int, payload: Fields, now: int): map<int, RowData> {
    if DbTouches(rows, id, Change.Restore)
    then DbChange(DbChange(rows, id, Change.Restore, now), id, Patch(payload), now)
    else rows
  }

  predicate DbTouches(rows: map<int, RowData>, id: int, change: Change) {
    id in rows && change.Touches(rows[id], id)
  }

  lemma {:induction false} HasLeast(ids: set<int>)
    requires ids != {}
    ensures exists m :: m in ids && forall x :: x in ids ==> m <= x
  {
    var m := Pick(ids);
    var rest := ids - {m};
    assert forall x :: x in ids ==> x == m || x in rest;
    if rest == {} {
      assert m in ids && forall x :: x in ids ==> m <= x;
    } else {
      HasLeast(rest);
      var r :| r in rest && forall x :: x in rest ==> r <= x;
      var least := if m < r then m else r;
      assert least in ids && forall x :: x in ids ==> least <= x;
    }
  }

  function Least(rows: map<int, RowData>): (first: int)
    requires rows != map[]
    ensures first in rows && forall x :: x in rows ==> first <= x
  {
    assert rows.Keys != {};
    HasLeast(rows.Keys);
    var first :| first in rows && forall x :: x in rows ==> first <= x;
    first
  }

  function Without(rows: map<int, RowData>, id: int): (rest: map<int, RowData>)
    requires id in rows
    ensures rest.Keys == rows.Keys - {id} && |rest| == |rows| - 1
    ensures forall x :: x in rest ==> rest[x] == rows[x]
  {
    var rest := map x | x in rows && x != id :: rows[x];
    assert rest.Keys == rows.Keys - {id};
    rest
  }

  /** SELECT * ... ORDER BY id ASC. */
  function OrderById(rows: map<int, RowData>): (listed: seq<RowData>)
    ensures |listed| == |rows|
    ensures forall r :: r in listed <==> exists id :: id in rows && rows[id] == r
    decreases |rows|
  {
    if rows == map[] then []
    else
      var first := Least(rows);
      assert forall id :: id in rows ==> id == first || id in Without(rows, first);
      [rows[first]] + OrderById(Without(rows, first))
  }

  predicate Ascending(rows: seq<RowData>) {
    forall i, j :: 0 <= i < j < |rows| ==> rows[i].id < rows[j].id
  }

  lemma FirstBelow(rest: map<int, RowData>, first: RowData)
    requires forall id :: id in rest ==> rest[id].id == id && first.id < id
    requires Ascending(OrderById(rest))
    ensures Ascending([first] + OrderById(rest))
  {
    var listed := OrderById(rest);
    forall j | 0 <= j < |listed|
      ensures first.id < listed[j].id
    {
      assert listed[j] in listed;
    }
  }

  lemma {:induction false} OrderedById(rows: map<int, RowData>)
    requires forall id :: id in rows ==> rows[id].id == id
    ensures Ascending(OrderById(rows))
    decreases |rows|
  {
    if rows != map[] {
      var first := Least(rows);
      var rest := Without(rows, first);
      OrderedById(rest);
      FirstBelow(rest, rows[first]);
    }
  }

  /** The active rows a statement with WHERE column = value reaches. */
  function Matching(rows: map<int, RowData>, field: Field, value: Value): map<int, RowData> {
    map id | id in rows && rows[id].Active() && SqlEquals(rows[id], field, value) :: rows[id]
  }

  /** UPDATE ... SET deleted_at = now() ... for the rows in `ids`. */
  function DbRemoveAll(rows: map<int, RowData>, ids: set<int>, actor: Value, now: int): map<int, RowData> {
    map id | id in rows :: if id in ids then Change.Remove(actor).Apply(rows[id], now) else rows[id]
  }

  function IdsOf(rows: seq<RowData>): set<int> {
    set r | r in rows :: r.id
  }

  lemma IdsOfNext(rows: seq<RowData>, k: nat)
    requires k < |rows|
    ensures IdsOf(rows[..k + 1]) == IdsOf(rows[..k]) + {rows[k].id}
  {
    assert rows[..k + 1] == rows[..k] + [rows[k]];
  }

  lemma OrderedIds(rows: map<int, RowData>)
    requires forall id :: id in rows ==> rows[id].id == id
    ensures Ascending(OrderById(rows)) && IdsOf(OrderById(rows)) == rows.Keys
  {
    OrderedById(rows);
    forall id | id in rows
      ensures id in IdsOf(OrderById(rows))
    {
      assert rows[id] in OrderById(rows);
    }
  }

  /** A row that ON CONFLICT (fields) WHERE deleted_at IS NULL finds; a null never conflicts. */
  predicate Conflicts(row: RowData, conflictFields: set<string>, values: Fields) {
    row.Active() && forall f :: f in conflictFields ==> f in values && SqlEquals(row, Business(f), values[f])
  }

  function ConflictsOf(spec: Spec, rows: map<int, RowData>, conflictFields: set<string>, payload: Fields): map<int, RowData> {
    map id | id in rows && Conflicts(rows[id], conflictFields, Filled(spec, payload)) :: rows[id]
  }

  /** The row the conflict branch updates. */
  function Target(spec: Spec, rows: map<int, RowData>, conflictFields: set<string>, payload: Fields): (target: RowData)
    requires ConflictsOf(spec, rows, conflictFields, payload) != map[]
    requires forall id :: id in rows ==> rows[id].id == id
    ensures target.id in ConflictsOf(spec, rows, conflictFields, payload) && rows[target.id] == target
  {
    var listed := OrderById(ConflictsOf(spec, rows, conflictFields, payload));
    assert listed[0] in listed;
    listed[0]
  }

  /** The rows of `ids` removed from a collection. */
  function RemoveIds(view: seq<RowData>, ids: set<int>, actor: Value, now: int): seq<RowData> {
    seq(|view|, i requires 0 <= i < |view| =>
      if view[i].id in ids && view[i].Active() then Change.Remove(actor).Apply(view[i], now) else view[i])
  }

  /** The ids of the active rows a collection holds for `field === value`. */
  function ActiveIds(view: seq<RowData>, field: Field, value: Value): set<int> {
    set r | r in view && r.Active() && r.Get(field) == value :: r.id
  }

  lemma RemoveIdsNext(view: seq<RowData>, gone: set<int>, id: int, actor: Value, now: int)
    requires id !in gone
    ensures Changed(RemoveIds(view, gone, actor, now), id, Change.Remove(actor), now)
         == RemoveIds(view, gone + {id}, actor, now)
    ensures (exists r :: r in view && r.Active() && r.id == id) ==>
      Touched(RemoveIds(view, gone, actor, now), id, Change.Remove(actor))
  {
    if r :| r in view && r.Active() && r.id == id {
      var i :| 0 <= i < |view| && view[i] == r;
      assert Change.Remove(actor).Touches(RemoveIds(view, gone, actor, now)[i], id);
    }
  }

  /** The memory path of `restore`: nothing happens to a row that is not deleted. */
  function Revived(view: seq<RowData>, id: int, patch: Fields, now: int): seq<RowData> {
    if Touched(view, id, Change.Restore)
    then Changed(Changed(view, id, Change.Restore, now), id, Patch(patch), now)
    else view
  }

  lemma RestoredIsActive(view: seq<RowData>, id: int, patch: Fields, now: int)
    ensures Touched(view, id, Change.Restore) ==>
      Touched(Changed(view, id, Change.Restore, now), id, Patch(patch))
    ensures !Touched(view, id, Change.Restore) ==> Changed(view, id, Change.Restore, now) == view
  {
    if i :| 0 <= i < |view| && Change.Restore.Touches(view[i], id) {
      assert Patch(patch).Touches(Changed(view, id, Change.Restore, now)[i], id);
    }
  }

  // ── Mirror lemmas ──

  /** `rows.map(fromDbRow)`. */
  function Parsed(rows: seq<RowData>): (parsed: seq<RowData>)
    ensures |parsed| == |rows|
  {
    seq(|rows|, i requires 0 <= i < |rows| => FromDb(rows[i]))
  }

  /** The rows of a hydrating SELECT. */
  function Listed(rows: map<int, RowData>): (listed: seq<RowData>) {
    Parsed(OrderById(rows))
  }

  lemma HydratedMirrors(rows: map<int, RowData>)
    requires forall id :: id in rows ==> rows[id].id == id
    ensures Mirrors(Listed(rows), rows)
  {
    OrderedById(rows);
    var ordered, listed := OrderById(rows), Listed(rows);
    forall i | 0 <= i < |listed|
      ensures listed[i].id in rows && SameRow(listed[i], rows[listed[i].id])
    {
      assert ordered[i] in ordered;
    }
    forall id | id in rows
      ensures HasRow(listed, id)
    {
      assert rows[id] in ordered;
      var i :| 0 <= i < |ordered| && ordered[i] == rows[id];
      assert listed[i].id == id;
    }
  }

  /** The mirror's touch is the database's touch. */
  lemma TouchedTogether(view: seq<RowData>, rows: map<int, RowData>, id: int, change: Change)
    requires Mirrors(view, rows)
    ensures Touched(view, id, change) <==> DbTouches(rows, id, change)
  {
    if DbTouches(rows, id, change) {
      assert HasRow(view, id);
      var i :| 0 <= i < |view| && view[i].id == id;
      assert SameRow(view[i], rows[view[i].id]);
      assert change.Touches(view[i], id);
    }
  }

  /** Two changes that agree on the fields keep the mirror, whatever the two clocks say. */
  lemma MirrorsChange(view: seq<RowData>, rows: map<int, RowData>, id: int,
                      inMemory: Change, inTable: Change, memoryNow: int, tableNow: int)
    requires Mirrors(view, rows)
    requires inMemory == inTable ||
             (inMemory.Patch? && inTable.Patch? &&
              (id in rows ==> inMemory.fields == rows[id].fields + inTable.fields))
    ensures Mirrors(Changed(view, id, inMemory, memoryNow), DbChange(rows, id, inTable, tableNow))
  {
    TouchedTogether(view, rows, id, inMemory);
    var view', rows' := Changed(view, id, inMemory, memoryNow), DbChange(rows, id, inTable, tableNow);
    forall i | 0 <= i < |view'|
      ensures view'[i].id == view[i].id && view'[i].id in rows' && SameRow(view'[i], rows'[view'[i].id])
    {
      assert SameRow(view[i], rows[view[i].id]);
    }
    forall k | k in rows'
      ensures HasRow(view', k)
    {
      assert HasRow(view, k);
      var i :| 0 <= i < |view| && view[i].id == k;
      assert view'[i].id == k;
    }
  }

  lemma MirrorsInsert(view: seq<RowData>, rows: map<int, RowData>, row: RowData)
    requires Mirrors(view, rows) && row.id !in rows
    ensures !HasRow(view, row.id)
    ensures Seeded(view, [FromDb(row)]) == view + [FromDb(row)]
    ensures Mirrors(view + [FromDb(row)], rows[row.id := row])
  {
    assert Seeded(view, []) == view;
    var view' := view + [FromDb(row)];
    forall k | k in rows[row.id := row]
      ensures HasRow(view', k)
    {
      if k == row.id {
        assert view'[|view|].id == k;
      } else {
        assert HasRow(view, k);
        var i :| 0 <= i < |view| && view[i].id == k;
        assert view'[i].id == k;
      }
    }
  }

  /** The guard that refuses a statement: the table is not there and may not be created. */
  predicate Missing(spec: Spec, tables: map<string, Table>, ddlEnabled: bool) {
    spec.table !in tables && !ddlEnabled
  }

  datatype Readiness = MemoryOnly | Durable | FailClosed

  lemma {:induction false} StaleAfterUpsert(view: seq<RowData>, rows: map<int, RowData>, saved: RowData)
    requires Mirrors(view, rows) && saved.id in rows
    requires SameRow(FromDb(rows[saved.id]), saved.(fields := rows[saved.id].fields))
    ensures Seeded(view, [FromDb(saved)]) == view
    ensures Mirrors(view, rows[saved.id := saved]) <==> saved.fields == rows[saved.id].fields
  {
    assert Seeded(view, []) == view;
    assert HasRow(view, saved.id);
    var i :| 0 <= i < |view| && view[i].id == saved.id;
    assert SameRow(view[i], rows[view[i].id]);
    var rows' := rows[saved.id := saved];
    if saved.fields == rows[saved.id].fields {
      forall j | 0 <= j < |view|
        ensures view[j].id in rows' && SameRow(view[j], rows'[view[j].id])
      {
        assert SameRow(view[j], rows[view[j].id]);
      }
    } else {
      assert !SameRow(view[i], rows'[view[i].id]);
    }
  }

  lemma OneRowAgrees(spec: Spec, row: RowData)
    requires row.fields.Keys == spec.columns && row.createdAt == Ms(row.createdAt)
    requires row.deletedAt != Undefined && row.deletedBy != Undefined
    ensures Agree(spec, [row], Table(map[row.id := row], row.id))
  {
    assert [row][0].id == row.id;
  }

  // ── Writes ──

  /** A write the database accepted, with the two clocks. `Swap` without expectations is `update`. */
  datatype Write =
    | Add(payload: Fields, now: int)
    | Swap(id: int, expected: map<Field, Value>, payload: Fields, now: int, memoryNow: int)
    | Delete(id: int, deletedBy: Option<int>, now: int, memoryNow: int)
    | Revive(id: int, payload: Fields, now: int, memoryNow: int)
    | DeleteBy(field: Field, value: Value, deletedBy: Option<int>, now: int, memoryNow: int)
    | Upsert(conflictFields: set<string>, payload: Fields, now: int)

  /** INSERT needs at least one column, and every column has to be there. */
  predicate Insertable(spec: Spec, payload: Fields) {
    payload != map[] && payload.Keys <= spec.columns
  }

  /** An upsert also needs a column to update, and conflict columns that are there. */
  predicate Upsertable(spec: Spec, conflictFields: set<string>, payload: Fields) {
    !(payload.Keys <= conflictFields) && payload.Keys <= spec.columns && conflictFields <= spec.columns
  }

  predicate Accepted(spec: Spec, w: Write) {
    (w.Add? || w.Swap? || w.Revive? || w.Upsert?) ==> w.payload.Keys <= spec.columns
  }

  /** What INSERT ... ON CONFLICT ... RETURNING * gives back. */
  function Upserted(spec: Spec, t: Table, conflictFields: set<string>, payload: Fields, now: int): RowData
    requires TableOk(spec, t)
  {
    if ConflictsOf(spec, t.rows, conflictFields, payload) == map[] then NewRow(spec, t.serial + 1, payload, now)
    else Patch(payload - conflictFields).Apply(Target(spec, t.rows, conflictFields, payload), now)
  }

  /** What the statement does to the table; an upsert spends a sequence value on either branch. */
  function OnTable(spec: Spec, t: Table, w: Write): Table
    requires TableOk(spec, t)
  {
    match w
    case Add(payload, now) =>
      Table(t.rows[t.serial + 1 := NewRow(spec, t.serial + 1, payload, now)], t.serial + 1)
    case Swap(id, expected, payload, now, _) => t.(rows := DbUpdateIf(t.rows, id, expected, payload, now))
    case Delete(id, deletedBy, now, _) => t.(rows := DbChange(t.rows, id, Change.Remove(Actor(deletedBy)), now))
    case Revive(id, payload, now, _) => t.(rows := DbRestore(t.rows, id, payload, now))
    case DeleteBy(field, value, deletedBy, now, _) =>
      t.(rows := DbRemoveAll(t.rows, Matching(t.rows, field, value).Keys, Actor(deletedBy), now))
    case Upsert(conflictFields, payload, now) =>
      var saved := Upserted(spec, t, conflictFields, payload, now);
      Table(t.rows[saved.id := saved], t.serial + 1)
  }

  lemma OnTableOk(spec: Spec, t: Table, w: Write)
    requires TableOk(spec, t) && Accepted(spec, w)
    ensures TableOk(spec, OnTable(spec, t, w))
  {
    var t' := OnTable(spec, t, w);
    forall id | id in t'.rows
      ensures t'.rows[id].id == id <= t'.serial && t'.rows[id].fields.Keys == spec.columns
      ensures t'.rows[id].deletedAt != Undefined && t'.rows[id].deletedBy != Undefined
    {
      match w
      case Upsert(conflictFields, payload, now) => UpsertedOk(spec, t, w);
      case _ =>
    }
  }

  lemma UpsertedOk(spec: Spec, t: Table, w: Write)
    requires TableOk(spec, t) && w.Upsert? && Accepted(spec, w)
    ensures TableOk(spec, OnTable(spec, t, w))
  {
  }

  /** What the store then does to the collection, with the rows the statement returned. */
  function OnView(spec: Spec, view: seq<RowData>, t: Table, w: Write): seq<RowData>
    requires TableOk(spec, t)
  {
    match w
    case Add(payload, now) =>
      if spec.skipMemoryWhenDurable then view else Seeded(view, [FromDb(NewRow(spec, t.serial + 1, payload, now))])
    case Swap(id, expected, payload, _, memoryNow) =>
      if id in t.rows && DbExpects(t.rows[id], expected)
      then Changed(view, id, Patch(t.rows[id].fields + payload), memoryNow) else view
    case Delete(id, deletedBy, _, memoryNow) =>
      if DbTouches(t.rows, id, Change.Remove(Actor(deletedBy)))
      then Changed(view, id, Change.Remove(Actor(deletedBy)), memoryNow) else view
    case Revive(id, payload, _, memoryNow) =>
      if DbTouches(t.rows, id, Change.Restore)
      then Changed(Changed(view, id, Change.Restore, memoryNow), id, Patch(t.rows[id].fields + payload), memoryNow)
      else view
    case DeleteBy(field, value, deletedBy, _, memoryNow) =>
      RemoveIds(view, Matching(t.rows, field, value).Keys, Actor(deletedBy), memoryNow)
    case Upsert(conflictFields, payload, now) =>
      Seeded(view, [FromDb(Upserted(spec, t, conflictFields, payload, now))])
  }

  /** The write `w` led from one pair of stores to another. */
  ghost predicate Wrote(spec: Spec, view: seq<RowData>, t: Table, w: Write, view': seq<RowData>, t': Table) {
    TableOk(spec, t) && view' == OnView(spec, view, t, w) && t' == OnTable(spec, t, w)
  }

  ghost predicate Agree(spec: Spec, view: seq<RowData>, t: Table) {
    TableOk(spec, t) && Mirrors(view, t.rows)
  }

  /** The upsert inserts, or the row it conflicts with already holds every value it would write there. */
  predicate NothingNew(spec: Spec, rows: map<int, RowData>, conflictFields: set<string>, payload: Fields)
    requires forall id :: id in rows ==> rows[id].id == id
  {
    ConflictsOf(spec, rows, conflictFields, payload) != map[] ==>
      forall f :: f in payload && f !in conflictFields ==>
        Target(spec, rows, conflictFields, payload).Get(Business(f)) == payload[f]
  }

  /** The collection learns of every effect of the write. */
  predicate Seen(spec: Spec, t: Table, w: Write)
    requires forall id :: id in t.rows ==> t.rows[id].id == id
  {
    match w
    case Add(_, _) => !spec.skipMemoryWhenDurable
    case Upsert(conflictFields, payload, _) => NothingNew(spec, t.rows, conflictFields, payload)
    case _ => true
  }

  lemma AddKeepsIff(spec: Spec, view: seq<RowData>, t: Table, w: Write)
    requires Agree(spec, view, t) && w.Add? && Accepted(spec, w)
    ensures Agree(spec, OnView(spec, view, t, w), OnTable(spec, t, w)) <==> Seen(spec, t, w)
  {
    var row := NewRow(spec, t.serial + 1, w.payload, w.now);
    MirrorsInsert(view, t.rows, row);
    assert row.id in OnTable(spec, t, w).rows;
  }

  lemma SwapKeeps(spec: Spec, view: seq<RowData>, t: Table, w: Write)
    requires Agree(spec, view, t) && w.Swap? && Accepted(spec, w)
    ensures Agree(spec, OnView(spec, view, t, w), OnTable(spec, t, w))
  {
    if w.id in t.rows && DbExpects(t.rows[w.id], w.expected) {
      MirrorsChange(view, t.rows, w.id, Patch(t.rows[w.id].fields + w.payload), Patch(w.payload), w.memoryNow, w.now);
    }
  }

  lemma DeleteKeeps(spec: Spec, view: seq<RowData>, t: Table, w: Write)
    requires Agree(spec, view, t) && w.Delete?
    ensures Agree(spec, OnView(spec, view, t, w), OnTable(spec, t, w))
  {
    var change := Change.Remove(Actor(w.deletedBy));
    MirrorsChange(view, t.rows, w.id, change, change, w.memoryNow, w.now);
  }

  lemma ReviveKeeps(spec: Spec, view: seq<RowData>, t: Table, w: Write)
    requires Agree(spec, view, t) && w.Revive? && Accepted(spec, w)
    ensures Agree(spec, OnView(spec, view, t, w), OnTable(spec, t, w))
  {
    if DbTouches(t.rows, w.id, Change.Restore) {
      var revived := DbChange(t.rows, w.id, Change.Restore, w.now);
      MirrorsChange(view, t.rows, w.id, Change.Restore, Change.Restore, w.memoryNow, w.now);
      assert revived[w.id].fields == t.rows[w.id].fields;
      MirrorsChange(Changed(view, w.id, Change.Restore, w.memoryNow), revived, w.id,
                    Patch(t.rows[w.id].fields + w.payload), Patch(w.payload), w.memoryNow, w.now);
    }
  }

  lemma DeleteByKeeps(spec: Spec, view: seq<RowData>, t: Table, w: Write)
    requires Agree(spec, view, t) && w.DeleteBy?
    ensures Agree(spec, OnView(spec, view, t, w), OnTable(spec, t, w))
  {
    var view', rows' := OnView(spec, view, t, w), OnTable(spec, t, w).rows;
    forall i | 0 <= i < |view'|
      ensures view'[i].id == view[i].id && view'[i].id in rows' && SameRow(view'[i], rows'[view'[i].id])
    {
      assert SameRow(view[i], t.rows[view[i].id]);
    }
    forall id | id in rows'
      ensures HasRow(view', id)
    {
      assert HasRow(view, id);
      var i :| 0 <= i < |view| && view[i].id == id;
      assert view'[i].id == id;
    }
  }

  /** A patch changes no field exactly when the row holds its values. */
  lemma PatchIsIdle(row: RowData, patch: Fields)
    requires patch.Keys <= row.fields.Keys
    ensures row.fields + patch == row.fields <==> forall f :: f in patch ==> row.Get(Business(f)) == patch[f]
  {
    var fields := row.fields + patch;
    if fields == row.fields {
      assert forall f :: f in patch ==> fields[f] == patch[f];
    } else {
      assert fields.Keys == row.fields.Keys;
    }
  }

  /** The row takes a patch, and the collection is seeded with it: `seedExact` skips the known id. */
  lemma OverwriteUnseen(spec: Spec, view: seq<RowData>, t: Table, row: RowData, patch: Fields, now: int)
    requires Agree(spec, view, t) && patch.Keys <= spec.columns
    requires row.id in t.rows && t.rows[row.id] == row
    ensures var saved := Patch(patch).Apply(row, now);
      && Seeded(view, [FromDb(saved)]) == view
      && (Mirrors(view, t.rows[saved.id := saved]) <==> forall f :: f in patch ==> row.Get(Business(f)) == patch[f])
  {
    PatchIsIdle(row, patch);
    StaleAfterUpsert(view, t.rows, Patch(patch).Apply(row, now));
  }

  /** An upsert that meets a row leaves the collection with the old values. */
  lemma ConflictKeepsIff(spec: Spec, view: seq<RowData>, t: Table, conflictFields: set<string>, payload: Fields, now: int)
    requires Agree(spec, view, t) && payload.Keys <= spec.columns
    requires ConflictsOf(spec, t.rows, conflictFields, payload) != map[]
    ensures var saved := Upserted(spec, t, conflictFields, payload, now);
      && Seeded(view, [FromDb(saved)]) == view
      && (Mirrors(view, t.rows[saved.id := saved]) <==> NothingNew(spec, t.rows, conflictFields, payload))
  {
    var rest := payload - conflictFields;
    assert forall f :: f in rest <==> f in payload && f !in conflictFields;
    OverwriteUnseen(spec, view, t, Target(spec, t.rows, conflictFields, payload), rest, now);
  }

  lemma UpsertKeepsIff(spec: Spec, view: seq<RowData>, t: Table, w: Write)
    requires Agree(spec, view, t) && w.Upsert? && Accepted(spec, w)
    ensures Agree(spec, OnView(spec, view, t, w), OnTable(spec, t, w)) <==> Seen(spec, t, w)
  {
    if ConflictsOf(spec, t.rows, w.conflictFields, w.payload) == map[] {
      MirrorsInsert(view, t.rows, Upserted(spec, t, w.conflictFields, w.payload, w.now));
    } else {
      ConflictKeepsIff(spec, view, t, w.conflictFields, w.payload, w.now);
    }
    OnTableOk(spec, t, w);
  }

  /** A write of the store keeps table and collection in agreement exactly when the collection learns of
      it: an upsert that changes a row it conflicts with is not noticed. */
  lemma WriteKeepsIff(spec: Spec, view: seq<RowData>, t: Table, w: Write)
    requires Agree(spec, view, t) && Accepted(spec, w)
    ensures Agree(spec, OnView(spec, view, t, w), OnTable(spec, t, w)) <==> Seen(spec, t, w)
  {
    match w
    case Add(_, _) => AddKeepsIff(spec, view, t, w);
    case Swap(_, _, _, _, _) => SwapKeeps(spec, view, t, w);
    case Delete(_, _, _, _) => DeleteKeeps(spec, view, t, w);
    case Revive(_, _, _, _) => ReviveKeeps(spec, view, t, w);
    case DeleteBy(_, _, _, _, _) => DeleteByKeeps(spec, view, t, w);
    case Upsert(_, _, _) => UpsertKeepsIff(spec, view, t, w);
  }

  function Mark(lastSeenAt: int, updatedAt: int): RowData {
    RowData(1, map["userId" := Num(5), "lastSeenAt" := Num(lastSeenAt)], 0, updatedAt, Null, Null)
  }

  lemma MirrorAfter(spec: Spec, view: seq<RowData>, t: Table, w: Write, view': seq<RowData>, t': Table)
    requires Wrote(spec, view, t, w, view', t') && Accepted(spec, w)
    ensures Mirrors(view, t.rows) ==> (Mirrors(view', t'.rows) <==> Seen(spec, t, w))
  {
    OnTableOk(spec, t, w);
    if Mirrors(view, t.rows) {
      WriteKeepsIff(spec, view, t, w);
    }
  }

  /** A menu is opened a second time: the table takes the new mark, the collection keeps the old one. */
  lemma StaleUpsertExample() returns (spec: Spec, before: Table, w: Write, view: seq<RowData>)
    ensures view == [Mark(10, 0)] && before == Table(map[1 := Mark(10, 0)], 1)
    ensures w == Upsert({"userId"}, map["userId" := Num(5), "lastSeenAt" := Num(20)], 9000)
    ensures Agree(spec, view, before) && Accepted(spec, w)
    ensures 1 in OnTable(spec, before, w).rows && OnTable(spec, before, w).rows[1] == Mark(20, 9000)
    ensures OnView(spec, view, before, w) == view && !Agree(spec, view, OnTable(spec, before, w))
  {
    spec, before := Spec("nav_seen_states", {"userId", "lastSeenAt"}, map[], false), Table(map[1 := Mark(10, 0)], 1);
    w, view := Upsert({"userId"}, map["userId" := Num(5), "lastSeenAt" := Num(20)], 9000), [Mark(10, 0)];
    OneRowAgrees(spec, Mark(10, 0));
    MarkConflicts(spec, w.payload);
    OnlyTarget(spec, Mark(10, 0), w.conflictFields, w.payload);
    MarkPatched(w.payload);
    UpsertKeepsIff(spec, view, before, w);
    ConflictKeepsIff(spec, view, before, w.conflictFields, w.payload, w.now);
  }

  lemma OnlyTarget(spec: Spec, row: RowData, conflictFields: set<string>, payload: Fields)
    requires Conflicts(row, conflictFields, Filled(spec, payload))
    ensures ConflictsOf(spec, map[row.id := row], conflictFields, payload) != map[]
    ensures Target(spec, map[row.id := row], conflictFields, payload) == row
  {
    assert row.id in ConflictsOf(spec, map[row.id := row], conflictFields, payload);
  }

  lemma MarkConflicts(spec: Spec, payload: Fields)
    requires "userId" in payload && payload["userId"] == Num(5)
    ensures Conflicts(Mark(10, 0), {"userId"}, Filled(spec, payload))
  {
  }

  lemma MarkPatched(payload: Fields)
    requires payload == map["userId" := Num(5), "lastSeenAt" := Num(20)]
    ensures Patch(payload - {"userId"}).Apply(Mark(10, 0), 9000) == Mark(20, 9000)
    ensures payload["lastSeenAt"] != Mark(10, 0).Get(Business("lastSeenAt"))
  {
    assert payload - {"userId"} == map["lastSeenAt" := Num(20)];
    assert Mark(10, 0).fields + map["lastSeenAt" := Num(20)] == Mark(20, 9000).fields;
  }

  /** The memory path's conflict test: strict equality on every conflict field. */
  predicate Agrees(row: RowData, conflictFields: set<string>, data: Fields) {
    row.Active() && forall f :: f in conflictFields ==>
      row.Get(Business(f)) == if f in data then data[f] else Undefined
  }

  function Agreeing(rows: seq<RowData>, conflictFields: set<string>, data: Fields): seq<RowData> {
    Select(rows, (r: RowData) => Agrees(r, conflictFields, data))
  }

  // ── Reads ──

  /** The filter of the memory path; undefined filters are dropped. */
  predicate MemoryMatches(row: RowData, where: map<Field, Value>) {
    row.Active() && forall f :: f in where && where[f] != Undefined ==> row.Get(f) == where[f]
  }

  function MemoryFind(view: seq<RowData>, where: map<Field, Value>): seq<RowData> {
    Select(view, (row: RowData) => MemoryMatches(row, where))
  }

  /** SELECT * ... WHERE <keep>, in id order. */
  function SqlSelect(rows: map<int, RowData>, keep: RowData -> bool): seq<RowData> {
    Parsed(Select(OrderById(rows), keep))
  }

  /** The WHERE clause of the read; undefined filters are dropped. */
  predicate SqlMatches(row: RowData, where: map<Field, Value>) {
    row.Active() && forall f :: f in where && where[f] != Undefined ==> SqlEquals(row, f, where[f])
  }

  /** SELECT * ... WHERE deleted_at IS NULL AND column = $1 AND ... */
  function SqlFind(rows: map<int, RowData>, where: map<Field, Value>): seq<RowData> {
    SqlSelect(rows, (row: RowData) => SqlMatches(row, where))
  }

  /** The batch filter of both paths: one of the requested values, nulls and undefined left out. */
  predicate MemoryHas(row: RowData, field: Field, values: seq<Value>, withDeleted: bool) {
    (withDeleted || row.Active()) && !row.Get(field).Nullish() && row.Get(field) in values
  }

  predicate SqlHas(row: RowData, field: Field, values: seq<Value>, withDeleted: bool) {
    (withDeleted || row.Active()) && exists v :: v in values && !v.Nullish() && SqlEquals(row, field, v)
  }

  lemma {:induction false} SelectNone(rows: seq<RowData>, keep: RowData -> bool)
    requires forall r :: !keep(r)
    ensures Select(rows, keep) == []
  {
    if rows != [] {
      SelectNone(rows[..|rows| - 1], keep);
    }
  }

  lemma {:induction false} SelectNoneOf(rows: seq<RowData>, keep: RowData -> bool)
    requires forall j :: 0 <= j < |rows| ==> !keep(rows[j])
    ensures Select(rows, keep) == []
  {
    if rows != [] {
      SelectNoneOf(rows[..|rows| - 1], keep);
    }
  }

  /** `rows.find(keep)`. */
  lemma {:induction false} SelectFirst(rows: seq<RowData>, i: nat, keep: RowData -> bool)
    requires i < |rows| && keep(rows[i]) && forall j :: 0 <= j < i ==> !keep(rows[j])
    ensures Select(rows, keep) != [] && Select(rows, keep)[0] == rows[i]
  {
    var init := rows[..|rows| - 1];
    if i == |rows| - 1 {
      SelectNoneOf(init, keep);
    } else {
      SelectFirst(init, i, keep);
    }
  }

  lemma AgreeingActive(view: seq<RowData>, conflictFields: set<string>, data: Fields)
    ensures Agreeing(Select(view, (r: RowData) => false || r.Active()), conflictFields, data)
         == Agreeing(view, conflictFields, data)
  {
    SelectTwice(view, (r: RowData) => false || r.Active(), (r: RowData) => Agrees(r, conflictFields, data));
  }

  /** `rows.find(...)`. */
  method FirstAgreeing(rows: seq<RowData>, conflictFields: set<string>, data: Fields) returns (first: Option<RowData>)
    ensures var agreeing := Agreeing(rows, conflictFields, data);
      first == if agreeing == [] then None else Some(agreeing[0])
  {
    var agrees := (r: RowData) => Agrees(r, conflictFields, data);
    for i := 0 to |rows|
      invariant forall j :: 0 <= j < i ==> !agrees(rows[j])
    {
      if agrees(rows[i]) {
        SelectFirst(rows, i, agrees);
        return Some(rows[i]);
      }
    }
    SelectNoneOf(rows, agrees);
    first := None;
  }

  lemma NothingRequested(view: seq<RowData>, rows: map<int, RowData>, field: Field, values: seq<Value>, withDeleted: bool)
    requires forall v :: v in values ==> v.Nullish()
    ensures Select(view, (row: RowData) => MemoryHas(row, field, values, withDeleted)) == []
    ensures SqlSelect(rows, (row: RowData) => SqlHas(row, field, values, withDeleted)) == []
  {
    SelectNone(view, (row: RowData) => MemoryHas(row, field, values, withDeleted));
    SelectNone(OrderById(rows), (row: RowData) => SqlHas(row, field, values, withDeleted));
  }

  lemma {:induction false} SelectTwice(rows: seq<RowData>, p: RowData -> bool, q: RowData -> bool)
    requires forall r :: q(r) ==> p(r)
    ensures Select(Select(rows, p), q) == Select(rows, q)
  {
    if rows != [] {
      var init, last := rows[..|rows| - 1], rows[|rows| - 1];
      SelectTwice(init, p, q);
      if p(last) {
        var kept := Select(init, p) + [last];
        assert kept[..|kept| - 1] == Select(init, p) && kept[|kept| - 1] == last;
      } else {
        assert Select(rows, p) == Select(init, p);
      }
    }
  }

  /** Filters whose meaning does not depend on a clock. */
  predicate Timeless(where: map<Field, Value>) {
    forall f :: f in where ==> f.Id? || f.Business?
  }

  lemma SqlFound(rows: map<int, RowData>, keep: RowData -> bool)
    requires forall id :: id in rows ==> rows[id].id == id
    ensures forall id :: id in IdsOf(SqlSelect(rows, keep)) <==> id in rows && keep(rows[id])
    ensures forall d :: d in SqlSelect(rows, keep) ==> d.id in rows && d == FromDb(rows[d.id])
  {
    var kept := Select(OrderById(rows), keep);
    forall id | id in rows && keep(rows[id])
      ensures id in IdsOf(Parsed(kept))
    {
      assert rows[id] in kept;
      var i :| 0 <= i < |kept| && kept[i] == rows[id];
      assert Parsed(kept)[i].id == id;
    }
    forall d | d in Parsed(kept)
      ensures d.id in rows && d == FromDb(rows[d.id]) && keep(rows[d.id])
    {
      var i :| 0 <= i < |kept| && d == FromDb(kept[i]);
      assert kept[i] in kept;
    }
  }

  /** A filter that holds of a mirror row wherever it holds of the table's row misses nothing. */
  lemma SqlWithin(view: seq<RowData>, rows: map<int, RowData>, p: RowData -> bool, q: RowData -> bool)
    requires Mirrors(view, rows) && forall id :: id in rows ==> rows[id].id == id
    requires forall i :: 0 <= i < |view| && q(rows[view[i].id]) ==> p(view[i])
    ensures IdsOf(SqlSelect(rows, q)) <= IdsOf(Select(view, p))
  {
    SqlFound(rows, q);
    forall id | id in IdsOf(SqlSelect(rows, q))
      ensures id in IdsOf(Select(view, p))
    {
      assert HasRow(view, id);
      var i :| 0 <= i < |view| && view[i].id == id;
      assert view[i] in Select(view, p);
    }
  }

  lemma MemoryWithin(view: seq<RowData>, rows: map<int, RowData>, p: RowData -> bool, q: RowData -> bool)
    requires Mirrors(view, rows) && forall id :: id in rows ==> rows[id].id == id
    requires forall i :: 0 <= i < |view| && p(view[i]) ==> q(rows[view[i].id])
    ensures IdsOf(Select(view, p)) <= IdsOf(SqlSelect(rows, q))
  {
    SqlFound(rows, q);
    forall m | m in Select(view, p)
      ensures m.id in IdsOf(SqlSelect(rows, q))
    {
      var i :| 0 <= i < |view| && view[i] == m;
    }
  }

  /** A row both paths return is one row, but for its stamps. */
  lemma SameAnswers(view: seq<RowData>, rows: map<int, RowData>, p: RowData -> bool, q: RowData -> bool)
    requires Mirrors(view, rows) && forall id :: id in rows ==> rows[id].id == id
    ensures forall m, d :: m in Select(view, p) && d in SqlSelect(rows, q) && m.id == d.id ==>
      m.id in rows && SameRow(m, rows[m.id]) && d == FromDb(rows[m.id])
  {
    SqlFound(rows, q);
    forall m, d | m in Select(view, p) && d in SqlSelect(rows, q) && m.id == d.id
      ensures SameRow(m, rows[m.id])
    {
      var i :| 0 <= i < |view| && view[i] == m;
    }
  }

  /** No filter asks for null, or the filter on the id is one that no row ever meets. */
  predicate Comparable(where: map<Field, Value>) {
    || (forall f :: f in where ==> where[f] != Null)
    || (Id in where && where[Id] != Undefined && !where[Id].Num?)
  }

  lemma SamePick(m: RowData, d: RowData, where: map<Field, Value>)
    requires SameRow(m, d) && Timeless(where)
    ensures SqlMatches(d, where) ==> MemoryMatches(m, where)
    ensures Comparable(where) && MemoryMatches(m, where) ==> SqlMatches(d, where)
  {
    assert forall f :: f in where ==> m.Get(f) == d.Get(f);
  }

  lemma ComparablePathsAgree(view: seq<RowData>, rows: map<int, RowData>, where: map<Field, Value>)
    requires Mirrors(view, rows) && Timeless(where) && Comparable(where)
    requires forall id :: id in rows ==> rows[id].id == id
    ensures IdsOf(MemoryFind(view, where)) == IdsOf(SqlFind(rows, where))
  {
    var p, q := (row: RowData) => MemoryMatches(row, where), (row: RowData) => SqlMatches(row, where);
    forall i | 0 <= i < |view|
      ensures q(rows[view[i].id]) <==> p(view[i])
    {
      SamePick(view[i], rows[view[i].id], where);
    }
    SqlWithin(view, rows, p, q);
    MemoryWithin(view, rows, p, q);
  }

  /** A row that meets every filter of `where` in the eyes of the memory path. */
  function Wanted(spec: Spec, where: map<Field, Value>): RowData {
    var id := if Id in where && where[Id].Num? then where[Id].n else 1;
    RowData(id, map c | c in spec.columns :: if Business(c) in where && where[Business(c)] != Undefined
      then where[Business(c)] else Null, 0, 0, Null, Null)
  }

  function WantedTable(spec: Spec, where: map<Field, Value>): Table {
    var row := Wanted(spec, where);
    Table(map[row.id := row], row.id)
  }

  lemma OnlyOne(row: RowData, keep: RowData -> bool)
    requires keep(row)
    ensures Select([row], keep) == [row]
  {
    assert [row][..0] == [];
    assert Select([row][..0], keep) == [];
  }

  lemma WantedFound(spec: Spec, where: map<Field, Value>)
    requires KnownFields(spec, where) && Timeless(where) && !Comparable(where)
    ensures MemoryFind([Wanted(spec, where)], where) == [Wanted(spec, where)]
  {
    assert MemoryMatches(Wanted(spec, where), where);
    OnlyOne(Wanted(spec, where), (r: RowData) => MemoryMatches(r, where));
  }

  /** With a null filter there is a mirrored table on which only the memory path finds a row. */
  lemma NullFilterSplits(spec: Spec, where: map<Field, Value>)
    requires KnownFields(spec, where) && Timeless(where) && !Comparable(where)
    ensures Agree(spec, [Wanted(spec, where)], WantedTable(spec, where))
    ensures MemoryFind([Wanted(spec, where)], where) == [Wanted(spec, where)]
    ensures SqlFind(WantedTable(spec, where).rows, where) == []
  {
    OneRowAgrees(spec, Wanted(spec, where));
    WantedFound(spec, where);
    NullFindsNone(WantedTable(spec, where).rows, where);
  }

  /** The two read paths find the same rows over every mirrored table exactly when the filters are
      comparable. */
  lemma ReadPathsAgree(spec: Spec, where: map<Field, Value>)
    requires KnownFields(spec, where) && Timeless(where)
    ensures (forall view, t :: Agree(spec, view, t) ==>
              IdsOf(MemoryFind(view, where)) == IdsOf(SqlFind(t.rows, where)))
       <==> Comparable(where)
  {
    if Comparable(where) {
      forall view, t | Agree(spec, view, t)
        ensures IdsOf(MemoryFind(view, where)) == IdsOf(SqlFind(t.rows, where))
      {
        ComparablePathsAgree(view, t.rows, where);
      }
    } else {
      var row, t := Wanted(spec, where), WantedTable(spec, where);
      NullFilterSplits(spec, where);
      assert [row][0].id in IdsOf([row]);
      assert Agree(spec, [row], t);
    }
  }

  /** Unassigned leads, asked for with `{ assigneeId: null }`: memory finds the lead, the table does not. */
  lemma NullFilterExample() returns (spec: Spec, lead: RowData, where: map<Field, Value>)
    ensures lead == RowData(1, map["assigneeId" := Null], 0, 0, Null, Null)
    ensures where == map[Business("assigneeId") := Null]
    ensures Agree(spec, [lead], Table(map[1 := lead], 1))
    ensures MemoryFind([lead], where) == [lead] && SqlFind(map[1 := lead], where) == []
  {
    spec, where := Spec("leads", {"assigneeId"}, map[], false), map[Business("assigneeId") := Null];
    UnassignedFilter(spec, where);
    NullFilterSplits(spec, where);
    lead := Wanted(spec, where);
  }

  lemma UnassignedFilter(spec: Spec, where: map<Field, Value>)
    requires spec.columns == {"assigneeId"} && where == map[Business("assigneeId") := Null]
    ensures KnownFields(spec, where) && Timeless(where) && !Comparable(where)
    ensures Wanted(spec, where) == RowData(1, map["assigneeId" := Null], 0, 0, Null, Null)
  {
    assert where[Business("assigneeId")] == Null;
    assert Wanted(spec, where).fields == map["assigneeId" := Null];
  }

  lemma NullFindsNone(rows: map<int, RowData>, where: map<Field, Value>)
    requires exists f :: f in where && where[f] == Null
    ensures SqlFind(rows, where) == []
  {
    var f :| f in where && where[f] == Null;
    assert forall row :: SqlEquals(row, f, Null) ==> false;
    SelectNone(OrderById(rows), (row: RowData) => SqlMatches(row, where));
  }

  lemma SameHas(m: RowData, d: RowData, field: Field, values: seq<Value>, withDeleted: bool)
    requires SameRow(m, d) && (field.Id? || field.Business?)
    ensures SqlHas(d, field, values, withDeleted) <==> MemoryHas(m, field, values, withDeleted)
  {
    assert m.Get(field) == d.Get(field);
  }

  /** The batch read drops nulls, so its two paths always find the same rows. */
  lemma BatchPathsAgree(view: seq<RowData>, rows: map<int, RowData>, field: Field, values: seq<Value>, withDeleted: bool)
    requires Mirrors(view, rows) && (field.Id? || field.Business?)
    requires forall id :: id in rows ==> rows[id].id == id
    ensures IdsOf(Select(view, (row: RowData) => MemoryHas(row, field, values, withDeleted)))
         == IdsOf(SqlSelect(rows, (row: RowData) => SqlHas(row, field, values, withDeleted)))
  {
    var p := (row: RowData) => MemoryHas(row, field, values, withDeleted);
    var q := (row: RowData) => SqlHas(row, field, values, withDeleted);
    forall i | 0 <= i < |view|
      ensures q(rows[view[i].id]) <==> p(view[i])
    {
      SameHas(view[i], rows[view[i].id], field, values, withDeleted);
    }
    SqlWithin(view, rows, p, q);
    MemoryWithin(view, rows, p, q);
  }
}
