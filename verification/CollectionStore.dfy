/** The write-through store: every write goes to the PostgreSQL table first, and the row the
    database returns is then copied into the in-memory mirror. */
module CollectionStore {
  import opened Rows
  import opened InMemory
  import opened Tables

  /** The connection: whether it is ready, whether runtime DDL is allowed, and the tables. */
  class Postgres {
    var ready: bool
    var ddlEnabled: bool
    var tables: map<string, Table>

    constructor (ready: bool, ddlEnabled: bool, tables: map<string, Table>)
      ensures this.ready == ready && this.ddlEnabled == ddlEnabled && this.tables == tables
    {
      this.ready, this.ddlEnabled, this.tables := ready, ddlEnabled, tables;
    }

    /** A table that is not there yet reads as an empty one. */
    function TableOf(spec: Spec): Table
      reads this
    {
      if spec.table in tables then tables[spec.table] else Table(map[], 0)
    }

    function RowsOf(spec: Spec): map<int, RowData>
      reads this
    {
      TableOf(spec).rows
    }
  }

  class PostgresCollectionStore {
    const memory: InMemoryDatabase
    const postgres: Postgres
    var readyTables: set<string>

    constructor (memory: InMemoryDatabase, postgres: Postgres)
      ensures this.memory == memory && this.postgres == postgres && readyTables == {}
    {
      this.memory, this.postgres, this.readyTables := memory, postgres, {};
    }

    ghost predicate Valid(spec: Spec)
      reads this, memory, memory.Objects(), postgres
    {
      && memory.Valid()
      && (forall r :: r in memory.Objects() ==> r as object != postgres && r as object != this)
      && readyTables <= postgres.tables.Keys
      && TableOk(spec, postgres.TableOf(spec))
    }

    ghost predicate Mirrored(spec: Spec)
      reads memory, memory.Objects(), postgres
    {
      Mirrors(memory.View(spec.table), postgres.RowsOf(spec))
    }

    /** No other table and no other collection moved. */
    twostate predicate OnlyTable(spec: Spec)
      reads memory, memory.Objects(), postgres
    {
      && postgres.ready == old(postgres.ready) && postgres.ddlEnabled == old(postgres.ddlEnabled)
      && (forall n :: n != spec.table ==> memory.View(n) == old(memory.View(n)))
      && (forall n :: n != spec.table ==>
            (n in postgres.tables <==> n in old(postgres.tables)) &&
            (n in postgres.tables ==> postgres.tables[n] == old(postgres.tables)[n]))
    }

    /** Neither the table nor its collection moved; a refused INSERT may have spent a sequence value. */
    twostate predicate Still(spec: Spec)
      reads memory, memory.Objects(), postgres
    {
      && postgres.RowsOf(spec) == old(postgres.RowsOf(spec)) && memory.View(spec.table) == old(memory.View(spec.table))
      && old(postgres.TableOf(spec)).serial <= postgres.TableOf(spec).serial
    }

    /** Table and collection are as the write `w` leaves them. */
    twostate predicate After(spec: Spec, w: Write)
      reads memory, memory.Objects(), postgres
    {
      Wrote(spec, old(memory.View(spec.table)), old(postgres.TableOf(spec)), w,
            memory.View(spec.table), postgres.TableOf(spec))
    }

    /** Fails closed on a missing table where runtime DDL is off; creates it where DDL is on. */
    method EnsureReady(spec: Spec) returns (r: Readiness)
      requires Valid(spec)
      modifies this`readyTables, postgres`tables
      ensures Valid(spec)
      ensures r == MemoryOnly <==> !postgres.ready
      ensures r == FailClosed <==> (postgres.ready && Missing(spec, old(postgres.tables), postgres.ddlEnabled))
      ensures r == Durable ==> spec.table in postgres.tables
      ensures r != Durable ==> postgres.tables == old(postgres.tables)
      ensures forall n :: n in old(postgres.tables) ==> n in postgres.tables && postgres.tables[n] == old(postgres.tables)[n]
      ensures forall n :: n in postgres.tables && n !in old(postgres.tables) ==>
        n == spec.table && postgres.tables[n].rows == map[]
      ensures OnlyTable(spec) && postgres.TableOf(spec) == old(postgres.TableOf(spec))
      ensures memory.View(spec.table) == old(memory.View(spec.table))
    {
      if !postgres.ready {
        return MemoryOnly;
      }
      if spec.table in readyTables {
        return Durable;
      }
      if !postgres.ddlEnabled && spec.table !in postgres.tables {
        return FailClosed;
      }
      if spec.table !in postgres.tables {
        postgres.tables := postgres.tables[spec.table := Table(map[], 0)];
      }
      readyTables := readyTables + {spec.table};
      r := Durable;
    }

    /** SELECT * ... ORDER BY id, and `memory.replaceExact`. */
    method HydrateDurable(spec: Spec) returns (listed: seq<RowData>)
      requires Valid(spec)
      modifies memory
      ensures Valid(spec) && OnlyTable(spec) && fresh(memory.Objects() - old(memory.Objects()))
      ensures postgres.TableOf(spec) == old(postgres.TableOf(spec))
      ensures Mirrored(spec) && listed == memory.View(spec.table) == Listed(postgres.RowsOf(spec))
    {
      listed := Listed(postgres.RowsOf(spec));
      HydratedMirrors(postgres.RowsOf(spec));
      memory.ReplaceExact(spec.table, listed);
    }

    /** Fills the mirror. A table that is not there yet leaves the boot alive with an empty answer. */
    method Hydrate(spec: Spec) returns (listed: seq<RowData>)
      requires Valid(spec)
      modifies this`readyTables, postgres`tables, memory
      ensures Valid(spec) && OnlyTable(spec) && fresh(memory.Objects() - old(memory.Objects()))
      ensures postgres.TableOf(spec) == old(postgres.TableOf(spec))
      ensures postgres.ready && !Missing(spec, old(postgres.tables), postgres.ddlEnabled) ==>
        Mirrored(spec) && listed == memory.View(spec.table) == Listed(postgres.RowsOf(spec))
      ensures !(postgres.ready && !Missing(spec, old(postgres.tables), postgres.ddlEnabled)) ==>
        listed == [] && memory.View(spec.table) == old(memory.View(spec.table))
    {
      if postgres.ready && spec.table !in readyTables && Missing(spec, postgres.tables, postgres.ddlEnabled) {
        return [];
      }
      var r := EnsureReady(spec);
      if r != Durable {
        return [];
      }
      listed := HydrateDurable(spec);
    }

    /** The database takes the statement of a write. */
    method Send(spec: Spec, w: Write)
      requires Valid(spec) && spec.table in postgres.tables && Accepted(spec, w)
      modifies postgres`tables
      ensures Valid(spec) && OnlyTable(spec) && memory.View(spec.table) == old(memory.View(spec.table))
      ensures postgres.TableOf(spec) == OnTable(spec, old(postgres.TableOf(spec)), w)
    {
      OnTableOk(spec, postgres.TableOf(spec), w);
      postgres.tables := postgres.tables[spec.table := OnTable(spec, postgres.TableOf(spec), w)];
    }

    // ── insert ──

    /** `refused` is the database's own answer to the statement: a constraint, a lost connection. */
    method Insert(spec: Spec, data: Fields, refused: bool, now: int, memoryNow: int) returns (saved: Outcome<RowData>)
      requires Valid(spec)
      modifies this`readyTables, postgres`tables, memory
      ensures Valid(spec) && OnlyTable(spec) && fresh(memory.Objects() - old(memory.Objects()))
      ensures saved.Rejected? <==> (postgres.ready &&
        (Missing(spec, old(postgres.tables), postgres.ddlEnabled) || !Insertable(spec, Payload(data)) || refused))
      ensures saved.Rejected? ==> Still(spec)
      ensures postgres.ready && saved.Done? ==>
        (&& After(spec, Add(Payload(data), now))
         && saved.value == FromDb(NewRow(spec, old(postgres.TableOf(spec)).serial + 1, Payload(data), now)))
      ensures postgres.ready && old(Mirrored(spec)) && !spec.skipMemoryWhenDurable ==> Mirrored(spec)
      ensures !postgres.ready ==>
        (&& postgres.TableOf(spec) == old(postgres.TableOf(spec))
         && saved.value.fields == data
         && memory.View(spec.table) == old(memory.View(spec.table)) + [saved.value])
    {
      var r := EnsureReady(spec);
      var row: RowData;
      if r == MemoryOnly {
        row := InsertInMemory(spec, data, memoryNow);
      } else if r == FailClosed || !Insertable(spec, Payload(data)) || refused {
        return Rejected;
      } else {
        row := InsertDurable(spec, Payload(data), now);
      }
      saved := Done(row);
    }

    method InsertInMemory(spec: Spec, data: Fields, now: int) returns (row: RowData)
      requires Valid(spec)
      modifies memory
      ensures Valid(spec) && OnlyTable(spec) && fresh(memory.Objects() - old(memory.Objects()))
      ensures postgres.TableOf(spec) == old(postgres.TableOf(spec))
      ensures row.fields == data && memory.View(spec.table) == old(memory.View(spec.table)) + [row]
    {
      var added := memory.Insert(spec.table, data, now);
      row := added.data;
    }

    /** The row goes to the table, and what the table returns goes to the mirror. */
    method InsertDurable(spec: Spec, payload: Fields, now: int) returns (row: RowData)
      requires Valid(spec) && spec.table in postgres.tables && payload.Keys <= spec.columns
      modifies postgres`tables, memory
      ensures Valid(spec) && OnlyTable(spec) && fresh(memory.Objects() - old(memory.Objects()))
      ensures row == FromDb(NewRow(spec, old(postgres.TableOf(spec)).serial + 1, payload, now))
      ensures After(spec, Add(payload, now))
      ensures old(Mirrored(spec)) && !spec.skipMemoryWhenDurable ==> Mirrored(spec)
    {
      ghost var view, t := memory.View(spec.table), postgres.TableOf(spec);
      row := FromDb(NewRow(spec, postgres.TableOf(spec).serial + 1, payload, now));
      Send(spec, Add(payload, now));
      if !spec.skipMemoryWhenDurable {
        var _ := memory.SeedExact(spec.table, [row]);
      }
      MirrorAfter(spec, view, t, Add(payload, now), memory.View(spec.table), postgres.TableOf(spec));
    }

    // ── update and updateIf ──

    /** `findById(id) ?? saved`, as the row data. */
    method Answer(spec: Spec, id: int, saved: RowData) returns (row: RowData)
      requires Valid(spec)
      modifies memory`idIndex
      ensures Valid(spec) && OnlyTable(spec) && memory.View(spec.table) == old(memory.View(spec.table))
      ensures Mirrored(spec) && id in postgres.RowsOf(spec) && postgres.RowsOf(spec)[id].Active() ==>
        (saved == FromDb(postgres.RowsOf(spec)[id]) ==> SameRow(row, postgres.RowsOf(spec)[id]))
    {
      var found := FindActiveById(spec, id);
      row := if found.Some? then found.value else saved;
    }

    /** `r` is the active row with the id, if the collection has one. */
    ghost predicate IsActive(spec: Spec, id: int, r: Option<RowData>)
      reads memory, memory.Objects()
    {
      if r.Some? then r.value in memory.View(spec.table) && r.value.id == id && r.value.Active()
      else forall row :: row in memory.View(spec.table) && row.id == id ==> !row.Active()
    }

    method FindActiveById(spec: Spec, id: int) returns (r: Option<RowData>)
      requires Valid(spec)
      modifies memory`idIndex
      ensures Valid(spec) && OnlyTable(spec) && memory.View(spec.table) == old(memory.View(spec.table))
      ensures IsActive(spec, id, r)
    {
      var found := memory.FindById(spec.table, id, false);
      r := if found.Some? then Some(found.value.data) else None;
      memory.ViewHas(spec.table);
    }

    method UpdateInMemory(spec: Spec, id: int, patch: Fields, memoryNow: int) returns (r: Option<RowData>)
      requires Valid(spec)
      modifies memory`idIndex, memory`fieldIndex, memory.Objects()
      ensures Valid(spec) && OnlyTable(spec) && memory.Objects() == old(memory.Objects())
      ensures postgres.TableOf(spec) == old(postgres.TableOf(spec))
      ensures memory.View(spec.table) == Changed(old(memory.View(spec.table)), id, Patch(patch), memoryNow)
      ensures r.Some? <==> Touched(old(memory.View(spec.table)), id, Patch(patch))
      ensures r.Some? ==> r.value in memory.View(spec.table) && r.value.id == id
    {
      var found := memory.Update(spec.table, id, patch, memoryNow);
      r := if found.Some? then Some(found.value.data) else None;
      memory.ViewHas(spec.table);
    }

    /** What the statement returned goes to the mirror; a statement that hit no row changes neither. */
    method PatchDurable(spec: Spec, w: Write) returns (r: Option<RowData>)
      requires Valid(spec) && spec.table in postgres.tables && w.Swap? && Accepted(spec, w)
      modifies postgres`tables, memory`idIndex, memory`fieldIndex, memory.Objects()
      ensures Valid(spec) && OnlyTable(spec) && After(spec, w)
      ensures r.Some? <==> w.id in old(postgres.RowsOf(spec)) && DbExpects(old(postgres.RowsOf(spec))[w.id], w.expected)
      ensures old(Mirrored(spec)) ==>
        (Mirrored(spec) && (r.Some? ==> SameRow(r.value, postgres.RowsOf(spec)[w.id])))
    {
      ghost var view, t := memory.View(spec.table), postgres.TableOf(spec);
      var hit := w.id in postgres.RowsOf(spec) && DbExpects(postgres.RowsOf(spec)[w.id], w.expected);
      Send(spec, w);
      if !hit {
        return None;
      }
      var saved := FromDb(postgres.RowsOf(spec)[w.id]);
      var _ := UpdateInMemory(spec, w.id, saved.fields, w.memoryNow);
      MirrorAfter(spec, view, t, w, memory.View(spec.table), postgres.TableOf(spec));
      var answer := Answer(spec, w.id, saved);
      r := Some(answer);
    }

    /** An empty patch sends no statement. */
    method Update(spec: Spec, id: int, patch: Fields, refused: bool, now: int, memoryNow: int)
      returns (r: Outcome<Option<RowData>>)
      requires Valid(spec)
      modifies this`readyTables, postgres`tables, memory`idIndex, memory`fieldIndex, memory.Objects()
      ensures Valid(spec) && OnlyTable(spec)
      ensures r.Rejected? <==> (postgres.ready && (Missing(spec, old(postgres.tables), postgres.ddlEnabled) ||
        (Payload(patch) != map[] && (!(Payload(patch).Keys <= spec.columns) || refused))))
      ensures r.Rejected? ==> Still(spec)
      ensures postgres.ready && r.Done? && Payload(patch) == map[] ==> Still(spec) && IsActive(spec, id, r.value)
      ensures postgres.ready && r.Done? && Payload(patch) != map[] ==>
        (&& After(spec, Swap(id, map[], Payload(patch), now, memoryNow))
         && (r.value.Some? <==> id in old(postgres.RowsOf(spec)) && old(postgres.RowsOf(spec))[id].Active())
         && (old(Mirrored(spec)) && r.value.Some? ==> SameRow(r.value.value, postgres.RowsOf(spec)[id])))
      ensures postgres.ready && old(Mirrored(spec)) ==> Mirrored(spec)
      ensures !postgres.ready ==>
        (&& postgres.TableOf(spec) == old(postgres.TableOf(spec))
         && memory.View(spec.table) == Changed(old(memory.View(spec.table)), id, Patch(patch), memoryNow)
         && (r.value.Some? <==> Touched(old(memory.View(spec.table)), id, Patch(patch))))
    {
      var ready := EnsureReady(spec);
      var answer: Option<RowData>;
      if ready == MemoryOnly {
        answer := UpdateInMemory(spec, id, patch, memoryNow);
      } else if ready == FailClosed {
        return Rejected;
      } else if Payload(patch) == map[] {
        answer := FindActiveById(spec, id);
      } else if !(Payload(patch).Keys <= spec.columns) || refused {
        return Rejected;
      } else {
        answer := PatchDurable(spec, Swap(id, map[], Payload(patch), now, memoryNow));
      }
      r := Done(answer);
    }

    method UpdateIfInMemory(spec: Spec, id: int, expected: map<Field, Value>, patch: Fields, memoryNow: int)
      returns (r: Option<RowData>)
      requires Valid(spec)
      modifies memory`idIndex, memory`fieldIndex, memory.Objects()
      ensures Valid(spec) && OnlyTable(spec) && postgres.TableOf(spec) == old(postgres.TableOf(spec))
      ensures r.Some? <==>
        exists row :: row in old(memory.View(spec.table)) && row.id == id && MemoryExpects(row, expected)
      ensures memory.View(spec.table) ==
        if r.Some? then Changed(old(memory.View(spec.table)), id, Patch(patch), memoryNow)
        else old(memory.View(spec.table))
    {
      var current := FindActiveById(spec, id);
      if current.None? {
        return None;
      }
      memory.DistinctView(spec.table);
      if !MemoryExpects(current.value, expected) {
        return None;
      }
      assert Touched(memory.View(spec.table), id, Patch(patch));
      r := UpdateInMemory(spec, id, patch, memoryNow);
    }

    /** Compare-and-swap. */
    method UpdateIf(spec: Spec, id: int, expected: map<Field, Value>, patch: Fields, refused: bool, now: int, memoryNow: int)
      returns (r: Outcome<Option<RowData>>)
      requires Valid(spec)
      modifies this`readyTables, postgres`tables, memory`idIndex, memory`fieldIndex, memory.Objects()
      ensures Valid(spec) && OnlyTable(spec)
      ensures r.Rejected? <==> (postgres.ready && (Missing(spec, old(postgres.tables), postgres.ddlEnabled) ||
        (Payload(patch) != map[] && (!(Payload(patch).Keys <= spec.columns) || !KnownFields(spec, expected) || refused))))
      ensures r.Rejected? ==> Still(spec)
      ensures postgres.ready && r.Done? && Payload(patch) == map[] ==> Still(spec) && IsActive(spec, id, r.value)
      ensures postgres.ready && r.Done? && Payload(patch) != map[] ==>
        (&& After(spec, Swap(id, expected, Payload(patch), now, memoryNow))
         && (r.value.Some? <==> id in old(postgres.RowsOf(spec)) && DbExpects(old(postgres.RowsOf(spec))[id], expected))
         && (old(Mirrored(spec)) && r.value.Some? ==> SameRow(r.value.value, postgres.RowsOf(spec)[id])))
      ensures postgres.ready && old(Mirrored(spec)) ==> Mirrored(spec)
      ensures !postgres.ready ==>
        (&& postgres.TableOf(spec) == old(postgres.TableOf(spec))
         && (r.value.Some? <==>
              exists row :: row in old(memory.View(spec.table)) && row.id == id && MemoryExpects(row, expected))
         && memory.View(spec.table) ==
              if r.value.Some? then Changed(old(memory.View(spec.table)), id, Patch(patch), memoryNow)
              else old(memory.View(spec.table)))
    {
      var ready := EnsureReady(spec);
      var answer: Option<RowData>;
      if ready == MemoryOnly {
        answer := UpdateIfInMemory(spec, id, expected, patch, memoryNow);
      } else if ready == FailClosed {
        return Rejected;
      } else if Payload(patch) == map[] {
        answer := FindActiveById(spec, id);
      } else if !(Payload(patch).Keys <= spec.columns) || !KnownFields(spec, expected) || refused {
        return Rejected;
      } else {
        answer := PatchDurable(spec, Swap(id, expected, Payload(patch), now, memoryNow));
      }
      r := Done(answer);
    }

    // ── remove and restore ──

    method RemoveDurable(spec: Spec, w: Write) returns (removed: bool)
      requires Valid(spec) && spec.table in postgres.tables && w.Delete?
      modifies postgres`tables, memory`idIndex, memory.Objects()
      ensures Valid(spec) && OnlyTable(spec) && After(spec, w)
      ensures old(Mirrored(spec)) ==>
        && Mirrored(spec)
        && (removed <==> DbTouches(old(postgres.RowsOf(spec)), w.id, Change.Remove(Actor(w.deletedBy))))
    {
      ghost var view, t := memory.View(spec.table), postgres.TableOf(spec);
      var hit := DbTouches(postgres.RowsOf(spec), w.id, Change.Remove(Actor(w.deletedBy)));
      Send(spec, w);
      if !hit {
        return false;
      }
      removed := memory.Remove(spec.table, w.id, w.deletedBy, w.memoryNow);
      MirrorAfter(spec, view, t, w, memory.View(spec.table), postgres.TableOf(spec));
      if Mirrors(view, t.rows) {
        TouchedTogether(view, t.rows, w.id, Change.Remove(Actor(w.deletedBy)));
      }
    }

    method Remove(spec: Spec, id: int, deletedBy: Option<int>, refused: bool, now: int, memoryNow: int)
      returns (r: Outcome<bool>)
      requires Valid(spec)
      modifies this`readyTables, postgres`tables, memory`idIndex, memory.Objects()
      ensures Valid(spec) && OnlyTable(spec)
      ensures r.Rejected? <==> (postgres.ready && (Missing(spec, old(postgres.tables), postgres.ddlEnabled) || refused))
      ensures r.Rejected? ==> Still(spec)
      ensures postgres.ready && r.Done? ==> After(spec, Delete(id, deletedBy, now, memoryNow))
      ensures postgres.ready && old(Mirrored(spec)) ==> Mirrored(spec)
      ensures postgres.ready && old(Mirrored(spec)) && r.Done? ==>
        (r.value <==> DbTouches(old(postgres.RowsOf(spec)), id, Change.Remove(Actor(deletedBy))))
      ensures !postgres.ready ==>
        (&& r == Done(Touched(old(memory.View(spec.table)), id, Change.Remove(Actor(deletedBy))))
         && postgres.TableOf(spec) == old(postgres.TableOf(spec))
         && memory.View(spec.table) ==
              Changed(old(memory.View(spec.table)), id, Change.Remove(Actor(deletedBy)), memoryNow))
    {
      var ready := EnsureReady(spec);
      var removed: bool;
      if ready == MemoryOnly {
        removed := memory.Remove(spec.table, id, deletedBy, memoryNow);
      } else if ready == FailClosed || refused {
        return Rejected;
      } else {
        removed := RemoveDurable(spec, Delete(id, deletedBy, now, memoryNow));
      }
      r := Done(removed);
    }

    /** `memory.restore(id)` and `memory.update(id, fields)`. */
    method ReviveInMemory(spec: Spec, id: int, fields: Fields, memoryNow: int)
      requires Valid(spec)
      modifies memory`idIndex, memory`fieldIndex, memory.Objects()
      ensures Valid(spec) && OnlyTable(spec) && postgres.TableOf(spec) == old(postgres.TableOf(spec))
      ensures memory.View(spec.table) ==
        Changed(Changed(old(memory.View(spec.table)), id, Change.Restore, memoryNow), id, Patch(fields), memoryNow)
    {
      var _ := memory.Restore(spec.table, id, memoryNow);
      var _ := memory.Update(spec.table, id, fields, memoryNow);
    }

    /** The deleted row comes back, patched, in one statement; the mirror follows in two steps. */
    method RestoreDurable(spec: Spec, w: Write) returns (r: Option<RowData>)
      requires Valid(spec) && spec.table in postgres.tables && w.Revive? && Accepted(spec, w)
      modifies postgres`tables, memory`idIndex, memory`fieldIndex, memory.Objects()
      ensures Valid(spec) && OnlyTable(spec) && After(spec, w)
      ensures r.Some? <==> DbTouches(old(postgres.RowsOf(spec)), w.id, Change.Restore)
      ensures old(Mirrored(spec)) ==>
        (Mirrored(spec) && (r.Some? ==> SameRow(r.value, postgres.RowsOf(spec)[w.id])))
    {
      ghost var view, t := memory.View(spec.table), postgres.TableOf(spec);
      var hit := DbTouches(postgres.RowsOf(spec), w.id, Change.Restore);
      Send(spec, w);
      if !hit {
        return None;
      }
      var saved := FromDb(postgres.RowsOf(spec)[w.id]);
      ReviveInMemory(spec, w.id, saved.fields, w.memoryNow);
      MirrorAfter(spec, view, t, w, memory.View(spec.table), postgres.TableOf(spec));
      var answer := Answer(spec, w.id, saved);
      r := Some(answer);
    }

    method RestoreInMemory(spec: Spec, id: int, patch: Fields, memoryNow: int) returns (r: Option<RowData>)
      requires Valid(spec)
      modifies memory`idIndex, memory`fieldIndex, memory.Objects()
      ensures Valid(spec) && OnlyTable(spec) && postgres.TableOf(spec) == old(postgres.TableOf(spec))
      ensures r.Some? <==> Touched(old(memory.View(spec.table)), id, Change.Restore)
      ensures memory.View(spec.table) == Revived(old(memory.View(spec.table)), id, patch, memoryNow)
    {
      RestoredIsActive(memory.View(spec.table), id, patch, memoryNow);
      var restored := memory.Restore(spec.table, id, memoryNow);
      if !restored {
        return None;
      }
      r := UpdateInMemory(spec, id, patch, memoryNow);
    }

    method Restore(spec: Spec, id: int, patch: Fields, refused: bool, now: int, memoryNow: int)
      returns (r: Outcome<Option<RowData>>)
      requires Valid(spec)
      modifies this`readyTables, postgres`tables, memory`idIndex, memory`fieldIndex, memory.Objects()
      ensures Valid(spec) && OnlyTable(spec)
      ensures r.Rejected? <==> (postgres.ready &&
        (Missing(spec, old(postgres.tables), postgres.ddlEnabled) || !(Payload(patch).Keys <= spec.columns) || refused))
      ensures r.Rejected? ==> Still(spec)
      ensures postgres.ready && r.Done? ==>
        (&& After(spec, Revive(id, Payload(patch), now, memoryNow))
         && (r.value.Some? <==> DbTouches(old(postgres.RowsOf(spec)), id, Change.Restore))
         && (old(Mirrored(spec)) && r.value.Some? ==> SameRow(r.value.value, postgres.RowsOf(spec)[id])))
      ensures postgres.ready && old(Mirrored(spec)) ==> Mirrored(spec)
      ensures !postgres.ready ==>
        (&& postgres.TableOf(spec) == old(postgres.TableOf(spec))
         && (r.value.Some? <==> Touched(old(memory.View(spec.table)), id, Change.Restore))
         && memory.View(spec.table) == Revived(old(memory.View(spec.table)), id, patch, memoryNow))
    {
      var ready := EnsureReady(spec);
      var answer: Option<RowData>;
      if ready == MemoryOnly {
        answer := RestoreInMemory(spec, id, patch, memoryNow);
      } else if ready == FailClosed || !(Payload(patch).Keys <= spec.columns) || refused {
        return Rejected;
      } else {
        answer := RestoreDurable(spec, Revive(id, Payload(patch), now, memoryNow));
      }
      r := Done(answer);
    }

    // ── removeByField ──

    /** The mirror follows the rows one statement removed, one by one. */
    method CopyRemoveAll(spec: Spec, returned: seq<RowData>, deletedBy: Option<int>, memoryNow: int)
      requires Valid(spec) && Ascending(returned)
      modifies memory`idIndex, memory.Objects()
      ensures Valid(spec) && OnlyTable(spec) && postgres.TableOf(spec) == old(postgres.TableOf(spec))
      ensures memory.View(spec.table)
           == RemoveIds(old(memory.View(spec.table)), IdsOf(returned), Actor(deletedBy), memoryNow)
    {
      ghost var view := memory.View(spec.table);
      assert IdsOf(returned[..0]) == {} && RemoveIds(view, {}, Actor(deletedBy), memoryNow) == view;
      for k := 0 to |returned|
        invariant Valid(spec) && OnlyTable(spec) && memory.Objects() == old(memory.Objects())
        invariant postgres.TableOf(spec) == old(postgres.TableOf(spec))
        invariant memory.View(spec.table) == RemoveIds(view, IdsOf(returned[..k]), Actor(deletedBy), memoryNow)
      {
        IdsOfNext(returned, k);
        var _ := RemoveNext(memory, spec.table, returned[k].id, deletedBy, memoryNow, view, IdsOf(returned[..k]));
      }
      assert returned[..|returned|] == returned;
    }

    method RemoveByFieldDurable(spec: Spec, w: Write) returns (count: nat)
      requires Valid(spec) && spec.table in postgres.tables && w.DeleteBy?
      modifies postgres`tables, memory`idIndex, memory.Objects()
      ensures Valid(spec) && OnlyTable(spec) && After(spec, w)
      ensures count == |Matching(old(postgres.RowsOf(spec)), w.field, w.value)|
      ensures old(Mirrored(spec)) ==> Mirrored(spec)
    {
      ghost var view, t := memory.View(spec.table), postgres.TableOf(spec);
      var hit := Matching(postgres.RowsOf(spec), w.field, w.value);
      var returned := OrderById(hit);
      OrderedIds(hit);
      Send(spec, w);
      CopyRemoveAll(spec, returned, w.deletedBy, w.memoryNow);
      MirrorAfter(spec, view, t, w, memory.View(spec.table), postgres.TableOf(spec));
      count := |returned|;
    }

    method FindIds(spec: Spec, field: Field, value: Value) returns (ids: set<int>)
      requires Valid(spec)
      modifies memory`fieldIndex
      ensures Valid(spec) && OnlyTable(spec) && memory.View(spec.table) == old(memory.View(spec.table))
      ensures forall id :: id in ids ==> exists r :: r in memory.View(spec.table) && r.Active() && r.id == id
      ensures !field.Stamp() && value != Undefined ==> ids == ActiveIds(memory.View(spec.table), field, value)
    {
      var found := memory.FindByField(spec.table, field, value);
      ids := set r | r in found :: r.data.id;
      memory.ViewHas(spec.table);
      ScanIds(memory, spec.table, field, value);
    }

    method RemoveByFieldInMemory(spec: Spec, field: Field, value: Value, deletedBy: Option<int>, memoryNow: int)
      returns (count: nat)
      requires Valid(spec)
      modifies memory`idIndex, memory`fieldIndex, memory.Objects()
      ensures Valid(spec) && OnlyTable(spec) && postgres.TableOf(spec) == old(postgres.TableOf(spec))
      ensures !field.Stamp() && value != Undefined ==>
        (&& memory.View(spec.table) == RemoveIds(old(memory.View(spec.table)),
             ActiveIds(old(memory.View(spec.table)), field, value), Actor(deletedBy), memoryNow)
         && count == |ActiveIds(old(memory.View(spec.table)), field, value)|)
    {
      var ids := FindIds(spec, field, value);
      count := RemoveEach(memory, spec.table, ids, deletedBy, memoryNow);
    }

    method RemoveByField(spec: Spec, field: Field, value: Value, deletedBy: Option<int>, refused: bool, now: int, memoryNow: int)
      returns (r: Outcome<nat>)
      requires Valid(spec)
      modifies this`readyTables, postgres`tables, memory`idIndex, memory`fieldIndex, memory.Objects()
      ensures Valid(spec) && OnlyTable(spec)
      ensures r.Rejected? <==> (postgres.ready &&
        (Missing(spec, old(postgres.tables), postgres.ddlEnabled) || !KnownField(spec, field) || refused))
      ensures r.Rejected? ==> Still(spec)
      ensures postgres.ready && r.Done? ==>
        (&& After(spec, DeleteBy(field, value, deletedBy, now, memoryNow))
         && r.value == |Matching(old(postgres.RowsOf(spec)), field, value)|)
      ensures postgres.ready && old(Mirrored(spec)) ==> Mirrored(spec)
      ensures !postgres.ready ==> postgres.TableOf(spec) == old(postgres.TableOf(spec))
      ensures !postgres.ready && !field.Stamp() && value != Undefined ==>
        (&& r == Done(|ActiveIds(old(memory.View(spec.table)), field, value)|)
         && memory.View(spec.table) == RemoveIds(old(memory.View(spec.table)),
              ActiveIds(old(memory.View(spec.table)), field, value), Actor(deletedBy), memoryNow))
    {
      var ready := EnsureReady(spec);
      var count: nat;
      if ready == MemoryOnly {
        count := RemoveByFieldInMemory(spec, field, value, deletedBy, memoryNow);
      } else if ready == FailClosed || !KnownField(spec, field) || refused {
        return Rejected;
      } else {
        count := RemoveByFieldDurable(spec, DeleteBy(field, value, deletedBy, now, memoryNow));
      }
      r := Done(count);
    }

    // ── upsertActive ──

    /** The conflict branch keeps the mirror only when it changes no field: `seedExact` skips a known id. */
    method UpsertDurable(spec: Spec, w: Write) returns (row: RowData)
      requires Valid(spec) && spec.table in postgres.tables && w.Upsert? && Accepted(spec, w)
      modifies postgres`tables, memory
      ensures Valid(spec) && OnlyTable(spec) && After(spec, w)
      ensures row == FromDb(Upserted(spec, old(postgres.TableOf(spec)), w.conflictFields, w.payload, w.now))
      ensures old(Mirrored(spec)) ==>
        (Mirrored(spec) <==> NothingNew(spec, old(postgres.RowsOf(spec)), w.conflictFields, w.payload))
    {
      ghost var view, t := memory.View(spec.table), postgres.TableOf(spec);
      row := FromDb(Upserted(spec, postgres.TableOf(spec), w.conflictFields, w.payload, w.now));
      Send(spec, w);
      var _ := memory.SeedExact(spec.table, [row]);
      MirrorAfter(spec, view, t, w, memory.View(spec.table), postgres.TableOf(spec));
    }

    /** `findAll(table).find(...)`. */
    method FindAgreeing(spec: Spec, conflictFields: set<string>, data: Fields) returns (existing: Option<RowData>)
      requires Valid(spec)
      ensures var agreeing := Agreeing(memory.View(spec.table), conflictFields, data);
        existing == if agreeing == [] then None else Some(agreeing[0])
    {
      var active := memory.FindAll(spec.table, false);
      AgreeingActive(memory.View(spec.table), conflictFields, data);
      existing := FirstAgreeing(active, conflictFields, data);
    }

    method UpsertInMemory(spec: Spec, conflictFields: set<string>, data: Fields, memoryNow: int) returns (row: RowData)
      requires Valid(spec)
      modifies memory
      modifies memory.Objects()
      ensures Valid(spec) && OnlyTable(spec) && postgres.TableOf(spec) == old(postgres.TableOf(spec))
      ensures var view := old(memory.View(spec.table));
        var agreeing := Agreeing(view, conflictFields, data);
        if agreeing == [] then memory.View(spec.table) == view + [row] && row.fields == data
        else memory.View(spec.table) == Changed(view, agreeing[0].id, Patch(data), memoryNow) && row.id == agreeing[0].id
    {
      var existing := FindAgreeing(spec, conflictFields, data);
      if existing.None? {
        row := InsertInMemory(spec, data, memoryNow);
      } else {
        var updated := UpdateInMemory(spec, existing.value.id, data, memoryNow);
        row := if updated.Some? then updated.value else existing.value;
      }
    }

    method UpsertActive(spec: Spec, conflictFields: set<string>, data: Fields, refused: bool, now: int, memoryNow: int)
      returns (r: Outcome<RowData>)
      requires Valid(spec)
      modifies this`readyTables, postgres`tables, memory, memory.Objects()
      ensures Valid(spec) && OnlyTable(spec)
      ensures r.Rejected? <==> (conflictFields == {} || (postgres.ready &&
        (Missing(spec, old(postgres.tables), postgres.ddlEnabled) || !Upsertable(spec, conflictFields, Payload(data)) || refused)))
      ensures r.Rejected? ==> Still(spec)
      ensures postgres.ready && r.Done? ==>
        (&& After(spec, Upsert(conflictFields, Payload(data), now))
         && r.value == FromDb(Upserted(spec, old(postgres.TableOf(spec)), conflictFields, Payload(data), now)))
      ensures postgres.ready && r.Done? && old(Mirrored(spec)) ==>
        (Mirrored(spec) <==> NothingNew(spec, old(postgres.RowsOf(spec)), conflictFields, Payload(data)))
      ensures !postgres.ready && r.Done? ==>
        postgres.TableOf(spec) == old(postgres.TableOf(spec)) &&
        var view := old(memory.View(spec.table));
        var agreeing := Agreeing(view, conflictFields, data);
        if agreeing == [] then memory.View(spec.table) == view + [r.value] && r.value.fields == data
        else memory.View(spec.table) == Changed(view, agreeing[0].id, Patch(data), memoryNow) && r.value.id == agreeing[0].id
    {
      if conflictFields == {} {
        return Rejected;
      }
      var ready := EnsureReady(spec);
      var row: RowData;
      if ready == MemoryOnly {
        row := UpsertInMemory(spec, conflictFields, data, memoryNow);
      } else if ready == FailClosed || !Upsertable(spec, conflictFields, Payload(data)) || refused {
        return Rejected;
      } else {
        row := UpsertDurable(spec, Upsert(conflictFields, Payload(data), now));
      }
      r := Done(row);
    }

    // ── Reads ──

    method FindActive(spec: Spec, where: map<Field, Value>, refused: bool) returns (r: Outcome<seq<RowData>>)
      requires Valid(spec)
      modifies this`readyTables, postgres`tables
      ensures Valid(spec) && OnlyTable(spec) && Still(spec)
      ensures r.Rejected? <==> (postgres.ready &&
        (Missing(spec, old(postgres.tables), postgres.ddlEnabled) || !KnownFields(spec, where) || refused))
      ensures r.Done? ==>
        r.value == if postgres.ready then SqlFind(postgres.RowsOf(spec), where)
                   else MemoryFind(memory.View(spec.table), where)
    {
      var ready := EnsureReady(spec);
      if ready == MemoryOnly {
        var active := memory.FindAll(spec.table, false);
        SelectTwice(memory.View(spec.table), (row: RowData) => false || row.Active(), (row: RowData) => MemoryMatches(row, where));
        return Done(Select(active, (row: RowData) => MemoryMatches(row, where)));
      }
      if ready == FailClosed || !KnownFields(spec, where) || refused {
        return Rejected;
      }
      r := Done(SqlFind(postgres.RowsOf(spec), where));
    }

    method FindByFieldValues(spec: Spec, field: Field, values: seq<Value>, withDeleted: bool, refused: bool)
      returns (r: Outcome<seq<RowData>>)
      requires Valid(spec)
      modifies this`readyTables, postgres`tables
      ensures Valid(spec) && OnlyTable(spec) && Still(spec)
      ensures r.Rejected? <==> ((exists v :: v in values && !v.Nullish()) && postgres.ready &&
        (Missing(spec, old(postgres.tables), postgres.ddlEnabled) || !KnownField(spec, field) || refused))
      ensures r.Done? ==>
        r.value == if postgres.ready
                   then SqlSelect(postgres.RowsOf(spec), (row: RowData) => SqlHas(row, field, values, withDeleted))
                   else Select(memory.View(spec.table), (row: RowData) => MemoryHas(row, field, values, withDeleted))
    {
      if forall v :: v in values ==> v.Nullish() {
        NothingRequested(memory.View(spec.table), postgres.RowsOf(spec), field, values, withDeleted);
        return Done([]);
      }
      var ready := EnsureReady(spec);
      if ready == MemoryOnly {
        var all := memory.FindAll(spec.table, withDeleted);
        SelectTwice(memory.View(spec.table), (row: RowData) => withDeleted || row.Active(),
                    (row: RowData) => MemoryHas(row, field, values, withDeleted));
        return Done(Select(all, (row: RowData) => MemoryHas(row, field, values, withDeleted)));
      }
      if ready == FailClosed || !KnownField(spec, field) || refused {
        return Rejected;
      }
      r := Done(SqlSelect(postgres.RowsOf(spec), (row: RowData) => SqlHas(row, field, values, withDeleted)));
    }
  }

  /** What a scan finds, told by the view. */
  lemma ScanIds(memory: InMemoryDatabase, name: string, field: Field, value: Value)
    requires memory.Valid()
    ensures (set r | r in memory.Scan(name, field, value) :: r.data.id) == ActiveIds(memory.View(name), field, value)
  {
    memory.ViewHas(name);
    forall id | id in ActiveIds(memory.View(name), field, value)
      ensures exists r :: r in memory.Scan(name, field, value) && r.data.id == id
    {
      var d :| d in memory.View(name) && d.Active() && d.Get(field) == value && d.id == id;
      var r :| r in memory.Rows(name) && r.data == d;
      assert r in memory.Scan(name, field, value);
    }
  }

  /** One turn of the removals. */
  method RemoveNext(memory: InMemoryDatabase, name: string, id: int, deletedBy: Option<int>, now: int,
                    ghost view: seq<RowData>, ghost gone: set<int>) returns (removed: bool)
    requires memory.Valid() && id !in gone && memory.View(name) == RemoveIds(view, gone, Actor(deletedBy), now)
    modifies memory`idIndex, memory.Objects()
    ensures memory.Valid() && memory.Objects() == old(memory.Objects())
    ensures memory.View(name) == RemoveIds(view, gone + {id}, Actor(deletedBy), now)
    ensures (exists r :: r in view && r.Active() && r.id == id) ==> removed
    ensures forall n :: n != name ==> memory.View(n) == old(memory.View(n))
  {
    RemoveIdsNext(view, gone, id, Actor(deletedBy), now);
    removed := memory.Remove(name, id, deletedBy, now);
  }

  /** `rows.reduce((count, row) => count + (memory.remove(...) ? 1 : 0), 0)`. */
  method RemoveEach(memory: InMemoryDatabase, name: string, ids: set<int>, deletedBy: Option<int>, now: int)
    returns (count: nat)
    requires memory.Valid()
    requires forall id :: id in ids ==> exists r :: r in memory.View(name) && r.Active() && r.id == id
    modifies memory`idIndex, memory.Objects()
    ensures memory.Valid() && memory.Objects() == old(memory.Objects()) && count == |ids|
    ensures memory.View(name) == RemoveIds(old(memory.View(name)), ids, Actor(deletedBy), now)
    ensures forall n :: n != name ==> memory.View(n) == old(memory.View(n))
  {
    ghost var view, gone: set<int> := memory.View(name), {};
    var todo := ids;
    count := 0;
    assert RemoveIds(view, {}, Actor(deletedBy), now) == view;
    while todo != {}
      invariant todo !! gone && todo + gone == ids && count == |gone|
      invariant memory.Valid() && memory.Objects() == old(memory.Objects())
      invariant memory.View(name) == RemoveIds(view, gone, Actor(deletedBy), now)
      invariant forall n :: n != name ==> memory.View(n) == old(memory.View(n))
      decreases |todo|
    {
      var id := PickId(todo);
      var removed := RemoveNext(memory, name, id, deletedBy, now, view, gone);
      count := count + if removed then 1 else 0;
      todo, gone := todo - {id}, gone + {id};
    }
    assert gone == ids;
  }
}
