/** The in-memory read model: collections of shared row objects, an id index, lazily built
    secondary indexes, and the snapshot a failed transaction rolls back to. */
module InMemory {
  import opened Rows

  /** A row object. The collection and the indexes hold references to the same object. */
  class Row {
    var data: RowData

    constructor (data: RowData)
      ensures this.data == data
    {
      this.data := data;
    }
  }

  type Buckets = map<Value, set<Row>>

  /** What `structuredClone(store)` and `new Map(sequences)` capture. */
  datatype Snapshot = Snapshot(store: map<string, seq<RowData>>, sequences: map<string, int>)

  function Bucket(buckets: Buckets, v: Value): set<Row> {
    if v in buckets then buckets[v] else {}
  }

  /** The data of a list of row objects. */
  ghost function Datas(rows: seq<Row>): (ds: seq<RowData>)
    reads rows
    ensures |ds| == |rows|
    ensures forall i :: 0 <= i < |rows| ==> ds[i] == rows[i].data
  {
    seq(|rows|, i requires 0 <= i < |rows| reads rows => rows[i].data)
  }

  /** Buckets agree with a scan: every row stands in the bucket of its value, and in no other.
      The `undefined` bucket is sound but not complete, and the stamp fields are not kept. */
  ghost predicate BucketsOk(rows: seq<Row>, field: Field, buckets: Buckets)
    reads rows
  {
    && (forall v, r :: v in buckets && r in buckets[v] ==>
          r in rows && (field.Stamp() || r.data.Get(field) == v))
    && (field.Stamp() || forall r :: r in rows && r.data.Get(field) != Undefined ==>
          r in Bucket(buckets, r.data.Get(field)))
  }

  /** `BucketsOk` for the moment just before `row` takes the data `next`. */
  ghost predicate BucketsOnce(rows: seq<Row>, row: Row, next: RowData, field: Field, buckets: Buckets)
    reads rows
  {
    && (forall v, r :: v in buckets && r in buckets[v] ==>
          r in rows && (field.Stamp() || (if r == row then next else r.data).Get(field) == v))
    && (field.Stamp() || forall r :: r in rows && (if r == row then next else r.data).Get(field) != Undefined ==>
          r in Bucket(buckets, (if r == row then next else r.data).Get(field)))
  }

  function Moved(buckets: Buckets, row: Row, from: Value, to: Value): Buckets {
    var gone := if from in buckets then buckets[from := buckets[from] - {row}] else buckets;
    gone[to := Bucket(gone, to) + {row}]
  }

  function Added(buckets: Buckets, row: Row, v: Value): Buckets {
    if v == Undefined then buckets else buckets[v := Bucket(buckets, v) + {row}]
  }

  lemma AddedOk(before: seq<Row>, row: Row, field: Field, buckets: Buckets)
    requires BucketsOk(before, field, buckets)
    ensures BucketsOk(before + [row], field, Added(buckets, row, row.data.Get(field)))
  {
  }

  lemma MovedOk(rows: seq<Row>, row: Row, next: RowData, field: Field, buckets: Buckets)
    requires row in rows && BucketsOk(rows, field, buckets) && !field.Stamp()
    ensures BucketsOnce(rows, row, next, field, Moved(buckets, row, row.data.Get(field), next.Get(field)))
  {
    var moved := Moved(buckets, row, row.data.Get(field), next.Get(field));
    forall v, r | v in moved && r in moved[v]
      ensures r in rows && (if r == row then next else r.data).Get(field) == v
    {
      assert r != row ==> r in Bucket(buckets, v);
    }
    forall r | r in rows && r != row && r.data.Get(field) != Undefined
      ensures r in Bucket(moved, r.data.Get(field))
    {
      assert r in Bucket(buckets, r.data.Get(field));
    }
  }

  lemma UnmovedOk(rows: seq<Row>, row: Row, next: RowData, field: Field, buckets: Buckets)
    requires BucketsOk(rows, field, buckets)
    requires field.Stamp() || next.Get(field) == row.data.Get(field)
    ensures BucketsOnce(rows, row, next, field, buckets)
  {
  }

  ghost predicate IdsOk(rows: seq<Row>, ids: map<int, Row>)
    reads rows
  {
    forall id :: id in ids ==> ids[id] in rows && ids[id].data.id == id
  }

  /** Every row can be found by its id. */
  ghost predicate IdsFull(rows: seq<Row>, ids: map<int, Row>)
    reads rows
  {
    forall r :: r in rows ==> r.data.id in ids
  }

  ghost predicate FieldsOk(rows: seq<Row>, fields: map<Field, Buckets>)
    reads rows
  {
    forall f :: f in fields ==> BucketsOk(rows, f, fields[f])
  }

  /** Indexes of `rows`: every id, and the fields `registered`. */
  ghost predicate Indexed(rows: seq<Row>, registered: set<Field>, ids: map<int, Row>, fields: map<Field, Buckets>)
    reads rows
  {
    IdsOk(rows, ids) && IdsFull(rows, ids) && FieldsOk(rows, fields) && fields.Keys == registered
  }

  ghost predicate RowsOk(rows: seq<Row>, sequence: int)
    reads rows
  {
    && (forall i, j :: 0 <= i < j < |rows| ==> rows[i].data.id != rows[j].data.id)
    && (forall r :: r in rows ==> r.data.id <= sequence)
  }

  class InMemoryDatabase {
    var store: map<string, seq<Row>>
    var sequences: map<string, int>
    var idIndex: map<string, map<int, Row>>
    var fieldIndex: map<string, map<Field, Buckets>>

    ghost function Objects(): set<Row>
      reads this`store
    {
      set n, r | n in store && r in store[n] :: r
    }

    /** `collection(name)`: an absent collection reads as an empty one. */
    function Rows(name: string): (rows: seq<Row>)
      reads this`store
      ensures forall r :: r in rows ==> r in Objects()
    {
      if name in store then store[name] else []
    }

    function Seq(name: string): int
      reads this`sequences
    {
      if name in sequences then sequences[name] else 0
    }

    function Ids(name: string): map<int, Row>
      reads this`idIndex
    {
      if name in idIndex then idIndex[name] else map[]
    }

    function FieldsOf(name: string): map<Field, Buckets>
      reads this`fieldIndex
    {
      if name in fieldIndex then fieldIndex[name] else map[]
    }

    /** The rows of a collection, active and deleted, in collection order. */
    ghost function View(name: string): seq<RowData>
      reads this`store, Objects()
    {
      Datas(Rows(name))
    }

    ghost predicate CollectionOk(name: string)
      reads this, Objects()
    {
      && RowsOk(Rows(name), Seq(name))
      && IdsOk(Rows(name), Ids(name))
      && FieldsOk(Rows(name), FieldsOf(name))
    }

    /** No row object belongs to two collections. */
    ghost predicate Separate()
      reads this`store
    {
      forall n, m, r :: r in Rows(n) && r in Rows(m) ==> n == m
    }

    ghost predicate Valid()
      reads this, Objects()
    {
      Separate() && forall n :: CollectionOk(n)
    }

    constructor ()
      ensures Valid() && Objects() == {} && store == map[] && sequences == map[]
    {
      store, sequences, idIndex, fieldIndex := map[], map[], map[], map[];
    }

    /** The view and the row objects show the same data. */
    lemma ViewHas(name: string)
      ensures forall r :: r in Rows(name) ==> r.data in View(name)
      ensures forall d :: d in View(name) ==> exists r :: r in Rows(name) && r.data == d
    {
      forall r | r in Rows(name)
        ensures r.data in View(name)
      {
        var i :| 0 <= i < |Rows(name)| && Rows(name)[i] == r;
        assert View(name)[i] == r.data;
      }
      forall d | d in View(name)
        ensures exists r :: r in Rows(name) && r.data == d
      {
        var i :| 0 <= i < |View(name)| && View(name)[i] == d;
        assert Rows(name)[i].data == d;
      }
    }

    lemma DistinctView(name: string)
      requires Valid()
      ensures DistinctIds(View(name))
    {
      assert CollectionOk(name);
      assert forall i :: 0 <= i < |View(name)| ==> View(name)[i] == Rows(name)[i].data;
    }

    /** What a full scan of `name` for `field === value` returns. */
    ghost function Scan(name: string, field: Field, value: Value): set<Row>
      reads this`store, Objects()
    {
      set r | r in Rows(name) && r.data.Active() && r.data.Get(field) == value
    }

    /** Collection `n` is as it was. */
    twostate predicate Same(n: string)
      reads this, Objects()
    {
      && Rows(n) == old(Rows(n)) && Seq(n) == old(Seq(n))
      && Ids(n) == old(Ids(n)) && FieldsOf(n) == old(FieldsOf(n))
      && forall r :: r in Rows(n) ==> old(allocated(r)) && r.data == old(r.data)
    }

    twostate lemma SameFields(n: string)
      requires old(FieldsOk(Rows(n), FieldsOf(n))) && Same(n)
      ensures FieldsOk(Rows(n), FieldsOf(n))
    {
      forall f | f in FieldsOf(n)
        ensures BucketsOk(Rows(n), f, FieldsOf(n)[f])
      {
        assert old(BucketsOk(Rows(n), f, FieldsOf(n)[f]));
      }
    }

    twostate lemma SameOk(n: string)
      requires old(CollectionOk(n)) && Same(n)
      ensures CollectionOk(n)
    {
      SameFields(n);
    }

    /** A change confined to one collection keeps the database valid when that collection is. */
    twostate lemma Confined(name: string)
      requires old(Valid())
      requires Separate() && CollectionOk(name)
      requires forall n :: n != name ==> Same(n)
      ensures Valid() && forall n :: n != name ==> View(n) == old(View(n))
    {
      forall n | n != name
        ensures CollectionOk(n) && View(n) == old(View(n))
      {
        SameOk(n);
      }
    }

    /** Allocating objects elsewhere changes nothing here. */
    twostate lemma Untouched()
      requires old(Valid())
      requires store == old(store) && sequences == old(sequences)
      requires idIndex == old(idIndex) && fieldIndex == old(fieldIndex)
      requires forall r :: r in old(Objects()) ==> r.data == old(r.data)
      ensures Valid() && forall n :: View(n) == old(View(n))
    {
      forall n
        ensures CollectionOk(n) && View(n) == old(View(n))
      {
        SameOk(n);
      }
    }

    /** New indexes of one collection change no row. */
    twostate lemma Reindexed(name: string)
      requires old(Valid()) && store == old(store) && sequences == old(sequences)
      requires forall r :: r in old(Objects()) ==> r.data == old(r.data)
      requires forall n :: n != name ==> Ids(n) == old(Ids(n)) && FieldsOf(n) == old(FieldsOf(n))
      requires IdsOk(Rows(name), Ids(name)) && FieldsOk(Rows(name), FieldsOf(name))
      ensures Valid() && forall n :: View(n) == old(View(n))
    {
      assert old(CollectionOk(name));
      assert forall r :: r in Rows(name) ==> r in old(Objects());
      Confined(name);
    }

    static method BuildBuckets(rows: seq<Row>, field: Field) returns (buckets: Buckets)
      ensures BucketsOk(rows, field, buckets)
    {
      buckets := map[];
      for i := 0 to |rows|
        invariant BucketsOk(rows[..i], field, buckets)
      {
        AddedOk(rows[..i], rows[i], field, buckets);
        buckets := Added(buckets, rows[i], rows[i].data.Get(field));
        assert rows[..i + 1] == rows[..i] + [rows[i]];
      }
      assert rows[..|rows|] == rows;
    }

    static lemma OneMoreField(rows: seq<Row>, fields: map<Field, Buckets>, field: Field, buckets: Buckets)
      requires FieldsOk(rows, fields) && BucketsOk(rows, field, buckets)
      ensures FieldsOk(rows, fields[field := buckets])
    {
    }

    /** Builds the index of a field on first use; an index that is there stays. */
    method EnsureFieldIndex(name: string, field: Field) returns (buckets: Buckets)
      requires Valid()
      modifies this`fieldIndex
      ensures Valid() && forall n :: View(n) == old(View(n))
      ensures FieldsOf(name) == old(FieldsOf(name))[field := buckets]
      ensures field in old(FieldsOf(name)) ==> buckets == old(FieldsOf(name))[field]
      ensures forall n :: n != name ==> FieldsOf(n) == old(FieldsOf(n))
    {
      if field in FieldsOf(name) {
        return FieldsOf(name)[field];
      }
      buckets := BuildBuckets(Rows(name), field);
      assert CollectionOk(name);
      OneMoreField(Rows(name), FieldsOf(name), field, buckets);
      fieldIndex := fieldIndex[name := FieldsOf(name)[field := buckets]];
      Reindexed(name);
    }

    method FindByField(name: string, field: Field, value: Value) returns (found: set<Row>)
      requires Valid()
      modifies this`fieldIndex
      ensures Valid() && forall n :: View(n) == old(View(n))
      ensures forall r :: r in found ==> r in Rows(name) && r.data.Active()
      ensures !field.Stamp() ==> found <= Scan(name, field, value)
      ensures !field.Stamp() && value != Undefined ==> found == Scan(name, field, value)
    {
      var buckets := EnsureFieldIndex(name, field);
      var rows := Bucket(buckets, value);
      assert CollectionOk(name) && field in FieldsOf(name);
      assert BucketsOk(Rows(name), field, buckets);
      found := set r | r in rows && r.data.Active();
    }

    method FindAll(name: string, withDeleted: bool) returns (found: seq<RowData>)
      requires Valid()
      ensures found == Select(View(name), (r: RowData) => withDeleted || r.Active())
    {
      found := [];
      var rows := Rows(name);
      for i := 0 to |rows|
        invariant found == Select(View(name)[..i], (r: RowData) => withDeleted || r.Active())
      {
        assert View(name)[..i + 1][..i] == View(name)[..i];
        if withDeleted || rows[i].data.Active() {
          found := found + [rows[i].data];
        }
      }
      assert View(name)[..|rows|] == View(name);
    }

    /** Puts a row a scan found back into the id index. */
    method Mend(name: string, row: Row)
      requires Valid() && row in Rows(name)
      modifies this`idIndex
      ensures Valid() && Ids(name) == old(Ids(name))[row.data.id := row]
      ensures forall n :: n != name ==> Ids(n) == old(Ids(n))
    {
      assert CollectionOk(name);
      idIndex := idIndex[name := Ids(name)[row.data.id := row]];
      Reindexed(name);
    }

    /** The index entry, or else a scan that repairs the index. */
    method FindById(name: string, id: int, withDeleted: bool) returns (found: Option<Row>)
      requires Valid()
      modifies this`idIndex
      ensures Valid()
      ensures found.Some? ==>
        && found.value in Rows(name) && found.value.data.id == id
        && (withDeleted || found.value.data.Active())
      ensures forall r :: r in Rows(name) && r.data.id == id ==> id in Ids(name)
      ensures forall k :: k != id ==>
        (k in Ids(name) <==> k in old(Ids(name))) && (k in Ids(name) ==> Ids(name)[k] == old(Ids(name))[k])
      ensures forall n :: n != name ==> Ids(n) == old(Ids(n))
      ensures found.None? ==>
        forall r :: r in Rows(name) && r.data.id == id ==> !withDeleted && !r.data.Active()
    {
      assert CollectionOk(name);
      if id in Ids(name) {
        var hit := Ids(name)[id];
        return if withDeleted || hit.data.Active() then Some(hit) else None;
      }
      var rows := Rows(name);
      for i := 0 to |rows|
        invariant idIndex == old(idIndex)
        invariant forall j :: 0 <= j < i ==> rows[j].data.id != id
      {
        if rows[i].data.id == id {
          Mend(name, rows[i]);
          return if withDeleted || rows[i].data.Active() then Some(rows[i]) else None;
        }
      }
      found := None;
    }

    // ── Index maintenance ──

    static method BuildIds(rows: seq<Row>) returns (ids: map<int, Row>)
      ensures IdsOk(rows, ids) && IdsFull(rows, ids)
    {
      ids := map[];
      for i := 0 to |rows|
        invariant IdsOk(rows, ids) && IdsFull(rows[..i], ids)
      {
        ids := ids[rows[i].data.id := rows[i]];
      }
    }

    static method BuildFields(rows: seq<Row>, registered: set<Field>) returns (fields: map<Field, Buckets>)
      ensures fields.Keys == registered && FieldsOk(rows, fields)
    {
      fields := map[];
      var todo := registered;
      while todo != {}
        invariant todo <= registered && fields.Keys == registered - todo
        invariant FieldsOk(rows, fields)
        decreases |todo|
      {
        var f :| f in todo;
        var buckets := BuildBuckets(rows, f);
        fields := fields[f := buckets];
        todo := todo - {f};
      }
    }

    /** Every registered bucket gains `row`, unless the row lacks the field. */
    static method AddToFields(ghost before: seq<Row>, row: Row, fields: map<Field, Buckets>)
      returns (added: map<Field, Buckets>)
      requires FieldsOk(before, fields)
      ensures FieldsOk(before + [row], added)
    {
      added := fields;
      var todo := fields.Keys;
      while todo != {}
        invariant todo <= fields.Keys && added.Keys == fields.Keys
        invariant forall f :: f in todo ==> added[f] == fields[f]
        invariant forall f :: f in fields.Keys && f !in todo ==> BucketsOk(before + [row], f, added[f])
        decreases |todo|
      {
        var f :| f in todo;
        AddedOk(before, row, f, fields[f]);
        added := added[f := Added(added[f], row, row.data.Get(f))];
        todo := todo - {f};
      }
    }

    method IndexAdd(name: string, row: Row, ghost before: seq<Row>)
      requires Rows(name) == before + [row]
      requires IdsOk(before, Ids(name)) && FieldsOk(before, FieldsOf(name))
      modifies this`idIndex, this`fieldIndex
      ensures IdsOk(Rows(name), Ids(name)) && FieldsOk(Rows(name), FieldsOf(name))
      ensures forall n :: n != name ==> Ids(n) == old(Ids(n)) && FieldsOf(n) == old(FieldsOf(n))
    {
      idIndex := idIndex[name := Ids(name)[row.data.id := row]];
      var added := AddToFields(before, row, FieldsOf(name));
      fieldIndex := fieldIndex[name := added];
    }

    /** The bucket move of one field. */
    static method MoveInField(ghost rows: seq<Row>, row: Row, patch: Fields, ghost next: RowData,
                              field: Field, buckets: Buckets)
      returns (moved: Buckets)
      requires row in rows && BucketsOk(rows, field, buckets)
      requires next == Patch(patch).Apply(row.data, next.updatedAt)
      ensures BucketsOnce(rows, row, next, field, moved)
    {
      if field.Business? && field.name in patch {
        MovedOk(rows, row, next, field, buckets);
        moved := Moved(buckets, row, row.data.Get(field), patch[field.name]);
      } else {
        UnmovedOk(rows, row, next, field, buckets);
        moved := buckets;
      }
    }

    /** Moves `row`, about to take the data `next`, between the buckets of the patched fields. */
    static method MoveInFields(ghost rows: seq<Row>, row: Row, patch: Fields, ghost next: RowData,
                               fields: map<Field, Buckets>)
      returns (moved: map<Field, Buckets>)
      requires row in rows && FieldsOk(rows, fields)
      requires next == Patch(patch).Apply(row.data, next.updatedAt)
      ensures forall f :: f in moved ==> BucketsOnce(rows, row, next, f, moved[f])
    {
      moved := fields;
      var todo := fields.Keys;
      while todo != {}
        invariant todo <= fields.Keys && moved.Keys == fields.Keys
        invariant forall f :: f in todo ==> moved[f] == fields[f]
        invariant forall f :: f in fields.Keys && f !in todo ==> BucketsOnce(rows, row, next, f, moved[f])
        decreases |todo|
      {
        var f :| f in todo;
        var one := MoveInField(rows, row, patch, next, f, fields[f]);
        moved := moved[f := one];
        todo := todo - {f};
      }
    }

    method ReindexForPatch(name: string, row: Row, patch: Fields, ghost next: RowData)
      requires row in Rows(name) && FieldsOk(Rows(name), FieldsOf(name))
      requires next == Patch(patch).Apply(row.data, next.updatedAt)
      modifies this`fieldIndex
      ensures forall f :: f in FieldsOf(name) ==> BucketsOnce(Rows(name), row, next, f, FieldsOf(name)[f])
      ensures forall n :: n != name ==> FieldsOf(n) == old(FieldsOf(n))
    {
      var moved := MoveInFields(Rows(name), row, patch, next, FieldsOf(name));
      fieldIndex := fieldIndex[name := moved];
    }

    // ── Writes ──

    /** `ids(name).has(id) || collection.some(row => row.id === id)`. */
    predicate HasId(name: string, id: int)
      reads this, Objects()
    {
      id in Ids(name) || exists r :: r in Rows(name) && r.data.id == id
    }

    lemma HasIdSeen(name: string, id: int)
      requires Valid()
      ensures HasId(name, id) <==> HasRow(View(name), id)
    {
      assert CollectionOk(name);
      if HasId(name, id) {
        var r :| r in Rows(name) && r.data.id == id;
        var i :| 0 <= i < |Rows(name)| && Rows(name)[i] == r;
        assert View(name)[i].id == id;
      }
      if HasRow(View(name), id) {
        var i :| 0 <= i < |View(name)| && View(name)[i].id == id;
        assert Rows(name)[i].data.id == id;
      }
    }

    twostate lemma Pushed(name: string, new row: Row)
      requires old(Separate()) && row !in old(Objects())
      requires Rows(name) == old(Rows(name)) + [row]
      requires forall n :: n != name ==> Rows(n) == old(Rows(n))
      ensures Separate() && Objects() == old(Objects()) + {row}
    {
      forall r
        ensures r in Objects() <==> r in old(Objects()) || r == row
      {
        if r in old(Objects()) {
          var n :| n in old(store) && r in old(store[n]);
          assert r in Rows(n);
        }
        if r == row {
          assert r in Rows(name);
        }
        if r in Objects() {
          var n :| n in store && r in store[n];
          assert r in Rows(n);
        }
      }
      forall n, m, r | r in Rows(n) && r in Rows(m)
        ensures n == m
      {
        assert r == row || (r in old(Rows(n)) && r in old(Rows(m)));
      }
    }

    /** `collection(name).push(row)`. */
    method Append(name: string, data: RowData) returns (row: Row)
      requires Separate()
      modifies this`store
      ensures fresh(row) && row.data == data && Objects() == old(Objects()) + {row}
      ensures Separate() && Rows(name) == old(Rows(name)) + [row]
      ensures forall n :: n != name ==> Rows(n) == old(Rows(n))
      ensures View(name) == old(View(name)) + [data]
    {
      row := new Row(data);
      store := store[name := Rows(name) + [row]];
      Pushed(name, row);
    }

    /** A row with a new id, no larger than the sequence, keeps the ids in order. */
    static lemma OneMoreRow(before: seq<Row>, row: Row, last: int)
      requires RowsOk(before, last) && row.data.id <= last
      requires forall r :: r in before ==> r.data.id != row.data.id
      ensures RowsOk(before + [row], last)
    {
    }

    /** `collection(name).push(row)` and `indexAdd(name, row)`. */
    method Push(name: string, data: RowData) returns (row: Row)
      requires Valid() && !HasRow(View(name), data.id) && data.id <= Seq(name)
      modifies this`store, this`idIndex, this`fieldIndex
      ensures Valid() && fresh(row) && row.data == data && Objects() == old(Objects()) + {row}
      ensures Rows(name) == old(Rows(name)) + [row]
      ensures View(name) == old(View(name)) + [row.data]
      ensures forall n :: n != name ==> View(n) == old(View(n))
    {
      ghost var before := Rows(name);
      assert CollectionOk(name);
      forall r | r in before
        ensures r.data.id != data.id
      {
        var i :| 0 <= i < |before| && before[i] == r;
        assert View(name)[i].id == r.data.id;
      }
      row := Append(name, data);
      OneMoreRow(before, row, Seq(name));
      IndexAdd(name, row, before);
      Confined(name);
    }

    /** A collection's sequence may only rise. */
    method RaiseSequence(name: string, to: int)
      requires Valid() && Seq(name) <= to
      modifies this`sequences
      ensures Valid() && Seq(name) == to
      ensures forall n :: View(n) == old(View(n))
    {
      assert CollectionOk(name);
      sequences := sequences[name := to];
      Confined(name);
    }

    // ── Writes ──

    method Insert(name: string, data: Fields, now: int) returns (row: Row)
      requires Valid()
      modifies this
      ensures Valid() && fresh(row) && Objects() == old(Objects()) + {row}
      ensures row.data == RowData(old(Seq(name)) + 1, data, now, now, Undefined, Undefined)
      ensures forall r :: r in old(Rows(name)) ==> r.data.id < row.data.id
      ensures Rows(name) == old(Rows(name)) + [row]
      ensures View(name) == old(View(name)) + [row.data]
      ensures forall n :: n != name ==> View(n) == old(View(n))
      ensures Seq(name) == old(Seq(name)) + 1
    {
      assert CollectionOk(name);
      RaiseSequence(name, Seq(name) + 1);
      row := Push(name, RowData(Seq(name), data, now, now, Undefined, Undefined));
    }

    /** `Object.assign(row, ...)`, once the buckets suit the new data. */
    method Overwrite(name: string, row: Row, next: RowData)
      requires Separate() && row in Rows(name) && next.id == row.data.id
      requires RowsOk(Rows(name), Seq(name)) && IdsOk(Rows(name), Ids(name))
      requires forall f :: f in FieldsOf(name) ==> BucketsOnce(Rows(name), row, next, f, FieldsOf(name)[f])
      modifies row
      ensures CollectionOk(name) && View(name) == Replaced(old(View(name)), next)
      ensures forall n :: n != name ==> Same(n)
    {
      row.data := next;
      forall f | f in FieldsOf(name)
        ensures BucketsOk(Rows(name), f, FieldsOf(name)[f])
      {
        assert old(BucketsOnce(Rows(name), row, next, f, FieldsOf(name)[f]));
      }
    }

    /** An overwrite that leaves every indexed field but the stamps as it was. */
    method Restamp(name: string, row: Row, next: RowData)
      requires Valid() && row in Rows(name)
      requires forall f: Field :: !f.Stamp() ==> next.Get(f) == row.data.Get(f)
      modifies row
      ensures Valid() && View(name) == Replaced(old(View(name)), next)
      ensures forall n :: n != name ==> View(n) == old(View(n))
    {
      assert CollectionOk(name);
      assert next.Get(Id) == row.data.Get(Id);
      forall f | f in FieldsOf(name)
        ensures BucketsOnce(Rows(name), row, next, f, FieldsOf(name)[f])
      {
        UnmovedOk(Rows(name), row, next, f, FieldsOf(name)[f]);
      }
      Overwrite(name, row, next);
      Confined(name);
    }

    method Repatch(name: string, row: Row, patch: Fields, now: int)
      requires Valid() && row in Rows(name)
      modifies this`fieldIndex, row
      ensures Valid() && View(name) == Replaced(old(View(name)), Patch(patch).Apply(old(row.data), now))
      ensures forall n :: n != name ==> View(n) == old(View(n))
    {
      assert CollectionOk(name);
      var next := Patch(patch).Apply(row.data, now);
      ReindexForPatch(name, row, patch, next);
      Overwrite(name, row, next);
      Confined(name);
    }

    /** The row `change` reaches, as the view shows it. */
    lemma Reached(name: string, row: Row, change: Change, now: int)
      requires Valid() && row in Rows(name) && change.Touches(row.data, row.data.id)
      ensures Touched(View(name), row.data.id, change)
      ensures Replaced(View(name), change.Apply(row.data, now)) == Changed(View(name), row.data.id, change, now)
    {
      assert CollectionOk(name);
      var i :| 0 <= i < |Rows(name)| && Rows(name)[i] == row;
      assert View(name)[i] == row.data;
    }

    lemma Unreached(name: string, id: int, change: Change, now: int)
      requires Valid()
      requires forall r :: r in Rows(name) && r.data.id == id ==> !change.Touches(r.data, id)
      ensures !Touched(View(name), id, change)
      ensures Changed(View(name), id, change, now) == View(name)
    {
      forall i | 0 <= i < |View(name)|
        ensures !change.Touches(View(name)[i], id)
      {
        assert View(name)[i] == Rows(name)[i].data;
      }
    }

    method Update(name: string, id: int, patch: Fields, now: int) returns (found: Option<Row>)
      requires Valid()
      modifies this`idIndex, this`fieldIndex, Objects()
      ensures Valid()
      ensures found.Some? <==> Touched(old(View(name)), id, Patch(patch))
      ensures found.Some? ==> found.value in Rows(name) && found.value.data.id == id
      ensures View(name) == Changed(old(View(name)), id, Patch(patch), now)
      ensures forall n :: n != name ==> View(n) == old(View(n))
    {
      found := FindById(name, id, false);
      if found.None? {
        Unreached(name, id, Patch(patch), now);
        return;
      }
      Reached(name, found.value, Patch(patch), now);
      Repatch(name, found.value, patch, now);
    }

    method Remove(name: string, id: int, deletedBy: Option<int>, now: int) returns (removed: bool)
      requires Valid()
      modifies this`idIndex, Objects()
      ensures Valid()
      ensures removed <==> Touched(old(View(name)), id, Change.Remove(Actor(deletedBy)))
      ensures View(name) == Changed(old(View(name)), id, Change.Remove(Actor(deletedBy)), now)
      ensures forall n :: n != name ==> View(n) == old(View(n))
    {
      var change := Change.Remove(Actor(deletedBy));
      var found := FindById(name, id, false);
      removed := found.Some?;
      if removed {
        Reached(name, found.value, change, now);
        Restamp(name, found.value, change.Apply(found.value.data, now));
      } else {
        Unreached(name, id, change, now);
      }
    }

    method Restore(name: string, id: int, now: int) returns (restored: bool)
      requires Valid()
      modifies this`idIndex, Objects()
      ensures Valid()
      ensures restored <==> Touched(old(View(name)), id, Change.Restore)
      ensures View(name) == Changed(old(View(name)), id, Change.Restore, now)
      ensures forall n :: n != name ==> View(n) == old(View(n))
    {
      var found := FindById(name, id, true);
      restored := found.Some? && !found.value.data.Active();
      if restored {
        Reached(name, found.value, Change.Restore, now);
        Restamp(name, found.value, Change.Restore.Apply(found.value.data, now));
      } else {
        assert CollectionOk(name);
        Unreached(name, id, Change.Restore, now);
      }
    }

    method SeedOne(name: string, r: RowData) returns (inserted: seq<Row>)
      requires Valid()
      modifies this
      ensures Valid() && Objects() == old(Objects()) + (set row | row in inserted)
      ensures fresh(set row | row in inserted)
      ensures View(name) == old(View(name)) + if HasRow(old(View(name)), r.id) then [] else [r]
      ensures forall n :: n != name ==> View(n) == old(View(n))
    {
      HasIdSeen(name, r.id);
      if HasId(name, r.id) {
        return [];
      }
      RaiseSequence(name, if Seq(name) < r.id then r.id else Seq(name));
      var row := Push(name, r);
      inserted := [row];
    }

    /** Loads rows with their own ids, skipping every id the collection already has. */
    method SeedExact(name: string, rows: seq<RowData>) returns (inserted: seq<Row>)
      requires Valid()
      modifies this
      ensures Valid() && fresh(Objects() - old(Objects()))
      ensures View(name) == Seeded(old(View(name)), rows)
      ensures forall n :: n != name ==> View(n) == old(View(n))
    {
      inserted := [];
      for k := 0 to |rows|
        invariant Valid() && fresh(Objects() - old(Objects()))
        invariant View(name) == Seeded(old(View(name)), rows[..k])
        invariant forall n :: n != name ==> View(n) == old(View(n))
      {
        assert rows[..k + 1] == rows[..k] + [rows[k]];
        var one := SeedOne(name, rows[k]);
        inserted := inserted + one;
      }
      assert rows[..|rows|] == rows;
    }

    // ── Whole collections ──

    /** `structuredClone` of a list of rows: fresh, pairwise distinct objects. */
    static method CloneRows(datas: seq<RowData>) returns (rows: seq<Row>)
      ensures Datas(rows) == datas && fresh(set r | r in rows)
    {
      rows := [];
      for i := 0 to |datas|
        invariant |rows| == i && fresh(set r | r in rows)
        invariant forall j :: 0 <= j < i ==> rows[j].data == datas[j]
      {
        var row := new Row(datas[i]);
        rows := rows + [row];
      }
    }

    static method BuildBoth(rows: seq<Row>, registered: set<Field>)
      returns (ids: map<int, Row>, fields: map<Field, Buckets>)
      ensures Indexed(rows, registered, ids, fields)
    {
      ids := BuildIds(rows);
      fields := BuildFields(rows, registered);
    }

    /** `rebuildCollectionIndexes`: the id index and the registered secondary indexes of one collection. */
    method RebuildCollectionIndexes(name: string)
      modifies this`idIndex, this`fieldIndex
      ensures Indexed(Rows(name), old(FieldsOf(name)).Keys, Ids(name), FieldsOf(name))
      ensures forall n :: n != name ==> Ids(n) == old(Ids(n)) && FieldsOf(n) == old(FieldsOf(n))
    {
      var ids, fields := BuildBoth(Rows(name), FieldsOf(name).Keys);
      idIndex, fieldIndex := idIndex[name := ids], fieldIndex[name := fields];
      assert Indexed(Rows(name), old(FieldsOf(name)).Keys, ids, fields);
      assert Ids(name) == ids && FieldsOf(name) == fields;
    }

    twostate lemma Swapped(name: string)
      requires old(Separate())
      requires forall n :: n != name ==> Rows(n) == old(Rows(n))
      requires forall r :: r in Rows(name) ==> r !in old(Objects())
      ensures Separate() && Objects() <= old(Objects()) + (set r | r in Rows(name))
    {
      forall n, m, r | r in Rows(n) && r in Rows(m)
        ensures n == m
      {
        assert n != name ==> r in old(Rows(n));
        assert m != name ==> r in old(Rows(m));
      }
      forall r | r in Objects()
        ensures r in old(Objects()) || r in Rows(name)
      {
        var n :| n in store && r in store[n];
        assert n != name ==> Rows(n) == old(Rows(n));
        assert r in Rows(n);
      }
    }

    /** A whole collection was replaced, with its indexes. */
    twostate lemma Installed(name: string)
      requires old(Valid())
      requires forall n :: n != name ==> Rows(n) == old(Rows(n)) && Seq(n) == old(Seq(n))
      requires forall n :: n != name ==> Ids(n) == old(Ids(n)) && FieldsOf(n) == old(FieldsOf(n))
      requires forall r :: r in old(Objects()) ==> r.data == old(r.data)
      requires forall r :: r in Rows(name) ==> r !in old(Objects())
      requires RowsOk(Rows(name), Seq(name)) && Indexed(Rows(name), FieldsOf(name).Keys, Ids(name), FieldsOf(name))
      ensures Valid() && Objects() <= old(Objects()) + (set r | r in Rows(name))
      ensures forall n :: n != name ==> View(n) == old(View(n))
    {
      Swapped(name);
      forall n | n != name
        ensures Same(n)
      {
        assert forall r :: r in Rows(n) ==> r in old(Objects());
      }
      Confined(name);
    }

    method Install(name: string, rows: seq<Row>, last: int)
      requires Valid() && RowsOk(rows, last)
      requires forall r :: r in rows ==> r !in Objects()
      modifies this
      ensures Valid() && Rows(name) == rows && Seq(name) == last
      ensures Objects() <= old(Objects()) + (set r | r in rows)
      ensures forall n :: n != name ==> View(n) == old(View(n))
    {
      store, sequences := store[name := rows], sequences[name := last];
      assert Rows(name) == rows && RowsOk(Rows(name), Seq(name));
      RebuildCollectionIndexes(name);
      Installed(name);
    }

    static lemma ClonesOk(rows: seq<Row>, datas: seq<RowData>)
      requires Datas(rows) == datas && DistinctIds(datas)
      ensures RowsOk(rows, MaxId(datas))
    {
      assert |rows| == |datas|;
      assert forall i :: 0 <= i < |rows| ==> rows[i].data == datas[i];
    }

    /** The database snapshot takes the place of the whole collection. Primary keys are distinct. */
    method ReplaceExact(name: string, rows: seq<RowData>)
      requires Valid() && DistinctIds(rows)
      modifies this
      ensures Valid() && fresh(Objects() - old(Objects()))
      ensures View(name) == rows && Seq(name) == MaxId(rows)
      ensures forall n :: n != name ==> View(n) == old(View(n))
    {
      var replaced := CloneRows(rows);
      ClonesOk(replaced, rows);
      Untouched();
      Install(name, replaced, MaxId(rows));
    }

    ghost predicate SnapshotOk(s: Snapshot) {
      forall n :: n in s.store ==>
        && DistinctIds(s.store[n])
        && forall i :: 0 <= i < |s.store[n]| ==>
             s.store[n][i].id <= if n in s.sequences then s.sequences[n] else 0
    }

    static function SnapshotView(s: Snapshot, name: string): seq<RowData> {
      if name in s.store then s.store[name] else []
    }

    /** The deep copy `transaction` keeps while its body runs. */
    method TakeSnapshot() returns (s: Snapshot)
      requires Valid()
      ensures SnapshotOk(s) && s.sequences == sequences
      ensures forall n :: SnapshotView(s, n) == View(n)
    {
      var copies: map<string, seq<RowData>> := map[];
      var todo := store.Keys;
      while todo != {}
        invariant todo <= store.Keys && copies.Keys == store.Keys - todo
        invariant forall n :: n in copies ==> copies[n] == View(n)
        decreases |todo|
      {
        var n :| n in todo;
        var copy: seq<RowData> := [];
        var rows := store[n];
        for i := 0 to |rows|
          invariant |copy| == i && forall j :: 0 <= j < i ==> copy[j] == rows[j].data
        {
          copy := copy + [rows[i].data];
        }
        assert copy == View(n);
        copies := copies[n := copy];
        todo := todo - {n};
      }
      s := Snapshot(copies, sequences);
      forall n | n in s.store
        ensures DistinctIds(s.store[n])
        ensures forall i :: 0 <= i < |s.store[n]| ==> s.store[n][i].id <= Seq(n)
      {
        assert CollectionOk(n);
        assert forall i :: 0 <= i < |View(n)| ==> View(n)[i] == Rows(n)[i].data;
      }
    }

    static function FieldSet(registered: map<string, set<Field>>, name: string): set<Field> {
      if name in registered then registered[name] else {}
    }

    /** The secondary indexes that there are. */
    function Registered(): map<string, set<Field>>
      reads this`fieldIndex
    {
      map n | n in fieldIndex :: fieldIndex[n].Keys
    }

    /** Every row of the collection can be found by its id, and the fields `registered` have an index. */
    ghost predicate Rebuilt(name: string, registered: map<string, set<Field>>)
      reads this`store, this`idIndex, this`fieldIndex, Objects()
    {
      IdsFull(Rows(name), Ids(name)) && FieldsOf(name).Keys == FieldSet(registered, name)
    }

    /** The indexes of one collection. */
    method RebuildOne(name: string, registered: map<string, set<Field>>)
      requires Valid()
      modifies this`idIndex, this`fieldIndex
      ensures Valid() && Rebuilt(name, registered)
      ensures forall n :: n != name && old(Rebuilt(n, registered)) ==> Rebuilt(n, registered)
      ensures forall n :: n != name ==> FieldsOf(n) == old(FieldsOf(n))
    {
      var ids, fields := BuildBoth(Rows(name), FieldSet(registered, name));
      idIndex, fieldIndex := idIndex[name := ids], fieldIndex[name := fields];
      Reindexed(name);
    }

    method Forget()
      requires Separate() && forall n :: RowsOk(Rows(n), Seq(n))
      modifies this`idIndex, this`fieldIndex
      ensures Valid() && forall n :: FieldsOf(n) == map[]
    {
      idIndex, fieldIndex := map[], map[];
      forall n
        ensures CollectionOk(n)
      {
        assert RowsOk(Rows(n), Seq(n));
      }
    }

    /** `rebuildIndexes`: every id index, and the secondary indexes registered before, for the collections
        that are there. */
    method RebuildIndexes()
      requires Separate() && forall n :: RowsOk(Rows(n), Seq(n))
      modifies this`idIndex, this`fieldIndex
      ensures Valid() && forall n :: n in store ==> Rebuilt(n, old(Registered()))
      ensures forall n :: n !in store ==> FieldsOf(n) == map[]
    {
      var registered := Registered();
      Forget();
      var todo := store.Keys;
      while todo != {}
        invariant Valid() && todo <= store.Keys
        invariant forall n :: n in store && n !in todo ==> Rebuilt(n, registered)
        invariant forall n :: n !in store ==> FieldsOf(n) == map[]
        decreases |todo|
      {
        var name :| name in todo;
        RebuildOne(name, registered);
        todo := todo - {name};
      }
    }

    /** The row objects of a snapshot: fresh, and no two names share one. */
    static method Thaw(copies: map<string, seq<RowData>>) returns (thawed: map<string, seq<Row>>)
      ensures thawed.Keys == copies.Keys
      ensures forall n, r :: n in thawed && r in thawed[n] ==> fresh(r)
      ensures forall n :: n in thawed ==> Datas(thawed[n]) == copies[n]
      ensures forall n, m, r :: n in thawed && m in thawed && r in thawed[n] && r in thawed[m] ==> n == m
    {
      thawed := map[];
      var todo := copies.Keys;
      while todo != {}
        invariant todo <= copies.Keys && thawed.Keys == copies.Keys - todo
        invariant forall n, r :: n in thawed && r in thawed[n] ==> fresh(r)
        invariant forall n :: n in thawed ==> Datas(thawed[n]) == copies[n]
        invariant forall n, m, r :: n in thawed && m in thawed && r in thawed[n] && r in thawed[m] ==> n == m
        decreases |todo|
      {
        var n :| n in todo;
        var rows := CloneRows(copies[n]);
        thawed := thawed[n := rows];
        todo := todo - {n};
      }
    }

    /** The rows of the snapshot, as new objects. */
    method Reload(s: Snapshot)
      requires SnapshotOk(s)
      modifies this`store, this`sequences
      ensures Separate() && fresh(Objects()) && store.Keys == s.store.Keys && sequences == s.sequences
      ensures forall n :: RowsOk(Rows(n), Seq(n)) && View(n) == SnapshotView(s, n)
    {
      var thawed := Thaw(s.store);
      store, sequences := thawed, s.sequences;
      forall n
        ensures RowsOk(Rows(n), Seq(n)) && View(n) == SnapshotView(s, n)
      {
        assert n in store ==> Datas(Rows(n)) == s.store[n];
        assert forall i :: 0 <= i < |Rows(n)| ==> Rows(n)[i].data == View(n)[i];
      }
    }

    /** What `transaction` does when its body throws. */
    method Rollback(s: Snapshot)
      requires SnapshotOk(s)
      modifies this
      ensures Valid() && fresh(Objects())
      ensures sequences == s.sequences
      ensures forall n :: View(n) == SnapshotView(s, n)
      ensures forall n :: n in store ==> Rebuilt(n, old(Registered()))
      ensures forall n :: n !in store ==> FieldsOf(n) == map[]
    {
      Reload(s);
      RebuildIndexes();
    }
  }
}
