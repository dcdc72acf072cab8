/** Runs of units of work whose bodies write through the store: the queue of UnitOfWork over the writes
    of CollectionStore. */
module MirroredRuns {
  import opened Rows
  import opened Tables
  import opened UnitOfWork

  /** The collections of the mirror, and the tables they mirror, by name. */
  type Views = map<string, seq<RowData>>
  type Contents = map<string, Table>

  ghost predicate AllAgree(specs: map<string, Spec>, m: Views, d: Contents) {
    && m.Keys == specs.Keys && d.Keys == specs.Keys
    && forall n :: n in specs ==> Agree(specs[n], m[n], d[n])
  }

  /** The step reads, throws, or makes one accepted write to one of the tables; what it reads may decide
      which. An upsert may not change a row it conflicts with. */
  ghost predicate Steps<L>(specs: map<string, Spec>, m: Views, d: Contents, to: Effect<Views, Contents, L>) {
    || to.Throws?
    || (to.Next? && to.m == m)
    || (to.Sql? && to.m == m && to.d == d)
    || (to.Sql? && exists n, w :: WroteTo(specs, m, d, n, w, to.m, to.d))
  }

  /** One accepted write to table `n` leads from the one pair of stores to the other. */
  ghost predicate WroteTo(specs: map<string, Spec>, m: Views, d: Contents, n: string, w: Write, m': Views, d': Contents) {
    && n in specs && n in m && n in d && n in m' && n in d' && Accepted(specs[n], w)
    && Wrote(specs[n], m[n], d[n], w, m'[n], d'[n]) && Seen(specs[n], d[n], w)
    && m' == m[n := m'[n]] && d' == d[n := d'[n]]
  }

  ghost predicate WritesThrough<L(!new)>(specs: map<string, Spec>, c: Call<Views, Contents, L>) {
    forall k, m, d, l :: 0 <= k < |c.body| && AllAgree(specs, m, d) ==> Steps(specs, m, d, c.body[k](m, d, l))
  }

  lemma WriteToKeeps(specs: map<string, Spec>, m: Views, d: Contents, n: string, w: Write, m': Views, d': Contents)
    requires AllAgree(specs, m, d) && WroteTo(specs, m, d, n, w, m', d')
    ensures AllAgree(specs, m', d')
  {
    WriteKeepsIff(specs[n], m[n], d[n], w);
    forall k | k in specs
      ensures Agree(specs[k], m'[k], d'[k])
    {
      assert k != n ==> m'[k] == m[k] && d'[k] == d[k];
    }
  }

  lemma StepKeeps<L>(specs: map<string, Spec>, m: Views, d: Contents, to: Effect<Views, Contents, L>)
    requires AllAgree(specs, m, d) && Steps(specs, m, d, to) && !to.Throws?
    ensures !to.Swallows? && AllAgree(specs, to.m, if to.Sql? then to.d else d)
  {
    if to.Sql? && (to.m != m || to.d != d) {
      var n, w :| WroteTo(specs, m, d, n, w, to.m, to.d);
      WriteToKeeps(specs, m, d, n, w, to.m, to.d);
    }
  }

  lemma {:induction false} RestKeeps<L(!new)>(specs: map<string, Spec>, c: Call<Views, Contents, L>, pc: nat, m: Views, d: Contents, l: L)
    requires WritesThrough(specs, c) && pc <= |c.body| && AllAgree(specs, m, d)
    ensures var end := Rest(c.body, pc, m, d, false, l);
      end.Some? ==> !end.value.2 && AllAgree(specs, end.value.0, end.value.1)
    decreases |c.body| - pc
  {
    if pc < |c.body| {
      var to := c.body[pc](m, d, l);
      assert Steps(specs, m, d, to);
      if !to.Throws? {
        StepKeeps(specs, m, d, to);
        RestKeeps(specs, c, pc + 1, to.m, if to.Sql? then to.d else d, to.l);
      }
    }
  }

  ghost function Agreement(specs: map<string, Spec>): (Views, Contents) -> bool {
    (m, d) => AllAgree(specs, m, d)
  }

  lemma KeepsThrough<L(!new)>(specs: map<string, Spec>, c: Call<Views, Contents, L>)
    requires WritesThrough(specs, c)
    ensures Keeps(c, Agreement(specs))
  {
    forall m, d | AllAgree(specs, m, d) && Alone(c, m, d).Some?
      ensures AllAgree(specs, Leaves(c, m, d).0, Leaves(c, m, d).1)
    {
      RestKeeps(specs, c, 0, m, d, c.start);
    }
  }

  /** Units of work that only read and write through the store, in any number, interleaving and with any
      failures, leave every collection a mirror of its table in every quiet state of every run; and what a
      running one would fall back to is a mirror too. */
  lemma StoreWritesKeepTheMirror<L(!new)>(specs: map<string, Spec>, m: Views, d: Contents, events: seq<Event<Views, Contents, L>>)
    requires AllAgree(specs, m, d)
    requires forall i :: 0 <= i < |Run(m, d, events).calls| ==> WritesThrough(specs, Run(m, d, events).calls[i])
    ensures var w := Run(m, d, events);
      && ((forall i :: 0 <= i < |w.calls| ==> !w.calls[i].phase.Running?) ==>
            forall n :: n in specs ==> n in w.mem && n in w.db && Mirrors(w.mem[n], w.db[n].rows))
      && (forall i :: 0 <= i < |w.calls| && w.calls[i].phase.Running? ==> AllAgree(specs, w.calls[i].phase.before, w.db))
  {
    var calls := Run(m, d, events).calls;
    forall i | 0 <= i < |calls|
      ensures Keeps(calls[i], Agreement(specs))
    {
      KeepsThrough(specs, calls[i]);
    }
    MirrorSurvives(m, d, events, Agreement(specs));
  }

  /** A unit of work of the one write `w` to table `n`. */
  ghost predicate OneWrite<L(!new)>(specs: map<string, Spec>, c: Call<Views, Contents, L>, n: string, w: Write) {
    && n in specs && Accepted(specs[n], w) && |c.body| == 1
    && forall m, d :: AllAgree(specs, m, d) ==>
         var to := c.body[0](m, d, c.start);
         to.Sql? && to.m == m[n := OnView(specs[n], m[n], d[n], w)] && to.d == d[n := OnTable(specs[n], d[n], w)]
  }

  lemma OneWriteLeaves<L(!new)>(specs: map<string, Spec>, c: Call<Views, Contents, L>, n: string, w: Write, m: Views, d: Contents)
    requires OneWrite(specs, c, n, w) && AllAgree(specs, m, d)
    ensures Alone(c, m, d).Some?
    ensures AllAgree(specs, Leaves(c, m, d).0, Leaves(c, m, d).1) <==> Seen(specs[n], d[n], w)
  {
    var to := c.body[0](m, d, c.start);
    assert Rest(c.body, 1, to.m, to.d, false, to.l) == Some((to.m, to.d, false));
    WriteKeepsIff(specs[n], m[n], d[n], w);
    assert AllAgree(specs, to.m, to.d) ==> Agree(specs[n], to.m[n], to.d[n]);
  }

  ghost predicate LeavesMirrors<L>(specs: map<string, Spec>, c: Call<Views, Contents, L>, m: Views, d: Contents) {
    Alone(c, m, d).Some? ==> AllAgree(specs, Leaves(c, m, d).0, Leaves(c, m, d).1)
  }

  lemma KeepsMirrorsIff<L(!new)>(specs: map<string, Spec>, c: Call<Views, Contents, L>)
    ensures Keeps(c, Agreement(specs)) <==> forall m, d :: AllAgree(specs, m, d) ==> LeavesMirrors(specs, c, m, d)
  {
    if Keeps(c, Agreement(specs)) {
      forall m, d | AllAgree(specs, m, d)
        ensures LeavesMirrors(specs, c, m, d)
      {
        assert Agreement(specs)(m, d);
      }
    }
  }

  lemma OneWriteKeepsIff<L(!new)>(specs: map<string, Spec>, c: Call<Views, Contents, L>, n: string, w: Write)
    requires OneWrite(specs, c, n, w)
    ensures Keeps(c, Agreement(specs)) <==> forall m, d :: AllAgree(specs, m, d) ==> Seen(specs[n], d[n], w)
  {
    forall m, d | AllAgree(specs, m, d)
      ensures LeavesMirrors(specs, c, m, d) <==> Seen(specs[n], d[n], w)
    {
      OneWriteLeaves(specs, c, n, w, m, d);
    }
    KeepsMirrorsIff(specs, c);
  }

  /** Runs of such units of work, one or many, always come to rest on mirrors exactly when the collection
      learns of the write whatever the tables hold. */
  lemma OneWriteSurvivesIff<L(!new)>(specs: map<string, Spec>, c: Call<Views, Contents, L>, n: string, w: Write)
    requires OneWrite(specs, c, n, w)
    ensures Survives(c, Agreement(specs)) <==> forall m, d :: AllAgree(specs, m, d) ==> Seen(specs[n], d[n], w)
  {
    MirrorSurvivesIff(c, Agreement(specs));
    OneWriteKeepsIff(specs, c, n, w);
  }
}
