/** The rows every store of the back office exchanges: business fields plus the audit fields of BaseRow. */
module Rows {

  datatype Option<+T> = None | Some(value: T)

  lemma Pick<T>(s: set<T>) returns (x: T)
    requires s != {}
    ensures x in s
  {
    x :| x in s;
  }

  method PickId<T(==)>(ids: set<T>) returns (id: T)
    requires ids != {}
    ensures id in ids
  {
    id :| id in ids;
  }

  /** A scalar column value. `Undefined` is a JavaScript field that is absent, `Null` an SQL null. */
  datatype Value = Undefined | Null | Num(n: int) | Text(s: string) | Flag(b: bool) {
    /** JavaScript `v == null`. */
    predicate Nullish() { Undefined? || Null? }
  }

  /** A field a query may name: one of the five BaseRow fields, or a business field. */
  datatype Field = Id | CreatedAt | UpdatedAt | DeletedAt | DeletedBy | Business(name: string) {
    /** The fields that `update`, `remove` and `restore` overwrite without moving index buckets. */
    predicate Stamp() { UpdatedAt? || DeletedAt? || DeletedBy? }
  }

  type Fields = map<string, Value>

  datatype RowData = RowData(
    id: int, fields: Fields, createdAt: int, updatedAt: int, deletedAt: Value, deletedBy: Value)
  {
    predicate Active() { deletedAt.Nullish() }

    /** `row[field]`; an absent business field reads as undefined. */
    function Get(field: Field): Value {
      match field
      case Id => Num(id)
      case CreatedAt => Num(createdAt)
      case UpdatedAt => Num(updatedAt)
      case DeletedAt => deletedAt
      case DeletedBy => deletedBy
      case Business(name) => if name in fields then fields[name] else Undefined
    }
  }

  /** The writes that change one row in place. */
  datatype Change = Patch(fields: Fields) | Remove(actor: Value) | Restore {
    /** `update` and `remove` act on active rows, `restore` on deleted ones. */
    predicate Touches(row: RowData, id: int) {
      row.id == id && (row.Active() <==> !Restore?)
    }

    function Apply(row: RowData, now: int): RowData {
      match this
      case Patch(patch) => row.(fields := row.fields + patch, updatedAt := now)
      case Remove(actor) => row.(deletedAt := Num(now), deletedBy := actor, updatedAt := now)
      case Restore => row.(deletedAt := Null, deletedBy := Null, updatedAt := now)
    }
  }

  /** A collection after `change` reached the row `id`, if it reached any. */
  function Changed(view: seq<RowData>, id: int, change: Change, now: int): (after: seq<RowData>)
    ensures |after| == |view|
  {
    seq(|view|, i requires 0 <= i < |view| =>
      if change.Touches(view[i], id) then change.Apply(view[i], now) else view[i])
  }

  /** A collection after the row with the id of `next` became `next`. */
  function Replaced(view: seq<RowData>, next: RowData): (after: seq<RowData>)
    ensures |after| == |view|
  {
    seq(|view|, i requires 0 <= i < |view| => if view[i].id == next.id then next else view[i])
  }

  predicate Touched(view: seq<RowData>, id: int, change: Change) {
    exists i :: 0 <= i < |view| && change.Touches(view[i], id)
  }

  /** `deletedBy ?? null`. */
  function Actor(deletedBy: Option<int>): Value {
    if deletedBy.Some? then Num(deletedBy.value) else Null
  }

  predicate HasRow(view: seq<RowData>, id: int) {
    exists i :: 0 <= i < |view| && view[i].id == id
  }

  /** A collection after loading `rows`, the ids it already has being skipped. */
  function Seeded(view: seq<RowData>, rows: seq<RowData>): seq<RowData> {
    if rows == [] then view
    else
      var seeded := Seeded(view, rows[..|rows| - 1]);
      var last := rows[|rows| - 1];
      if HasRow(seeded, last.id) then seeded else seeded + [last]
  }

  /** An instant (microseconds) as an ISO string shows it, to the millisecond. */
  function Ms(t: int): int {
    t - t % 1000
  }

  predicate DistinctIds(rows: seq<RowData>) {
    forall i, j :: 0 <= i < j < |rows| ==> rows[i].id != rows[j].id
  }

  /** `rows.reduce((max, row) => Math.max(max, row.id), 0)`. */
  function MaxId(rows: seq<RowData>): (m: int)
    ensures 0 <= m
    ensures forall i :: 0 <= i < |rows| ==> rows[i].id <= m
    ensures m == 0 || exists i :: 0 <= i < |rows| && rows[i].id == m
  {
    if rows == [] then 0
    else
      var m := MaxId(rows[..|rows| - 1]);
      var last := rows[|rows| - 1].id;
      if m < last then last else m
  }

  /** `rows.filter(keep)`. */
  function Select(rows: seq<RowData>, keep: RowData -> bool): (kept: seq<RowData>)
    ensures forall r :: r in kept <==> r in rows && keep(r)
  {
    if rows == [] then []
    else Select(rows[..|rows| - 1], keep) + if keep(rows[|rows| - 1]) then [rows[|rows| - 1]] else []
  }
}
