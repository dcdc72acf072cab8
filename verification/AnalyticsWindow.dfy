/** The SQL prefilter of the counsel analytics against loading everything: the period window, the joins
    pushed down, and the exact filter both feed. */
module AnalyticsWindow {
  import opened CivilTime
  import Decimal
  import opened Rows

  datatype Form = Form(id: int, studentId: int, status: string, createdAt: int, deleted: bool)
  datatype Round = Round(formId: int, roundNo: int, outcome: Option<string>, completedAt: Option<int>, deleted: bool)
  datatype Interest = Interest(studentId: int, courseId: Option<int>, customLabel: Option<string>, deleted: bool)
  datatype Enrollment = Enrollment(studentId: int, courseId: int, status: string, deleted: bool)

  datatype Tables = Tables(
    forms: seq<Form>, rounds: seq<Round>, interests: seq<Interest>, enrollments: seq<Enrollment>)

  datatype Range = Range(from: Option<string>, to: Option<string>)

  /** An end the code acts on: neither absent nor the empty string. */
  predicate Given(end: Option<string>) {
    end.Some? && end.value != ""
  }

  /** What `assertDayRange` lets through: date form, which `2026-02-31` has as well. */
  predicate Patterned(range: Range) {
    && (Given(range.from) ==> DayPattern(range.from.value))
    && (Given(range.to) ==> DayPattern(range.to.value))
  }

  // ── The exact filter ──

  /** The millisecond a timestamp of microseconds is read as. */
  function Ms(t: int): int {
    t / 1000
  }

  /** The date in the first ten characters of the timestamp as displayed `offset` milliseconds from UTC. */
  function DayShown(t: int, offset: int): string {
    Print((Ms(t) + offset) / DAY_MS)
  }

  /** The timestamp is displayed with a four-digit year. */
  predicate Shown(t: int, offset: int) {
    FIRST_FULL_DAY <= (Ms(t) + offset) / DAY_MS <= LAST_FULL_DAY
  }

  /** inRange, on strings. */
  predicate InRange(range: Range, offset: int, form: Form) {
    var day := DayShown(form.createdAt, offset);
    && !(Given(range.from) && Decimal.Less(day, range.from.value))
    && !(Given(range.to) && Decimal.Less(range.to.value, day))
  }

  // ── The window ──

  /** One conjunct of the WHERE clause; an index is the place of its parameter. */
  datatype Bound = NotDeleted | AtOrAfter(index: nat) | Earlier(index: nat)

  predicate Satisfies(form: Form, bound: Bound, params: seq<int>) {
    match bound
    case NotDeleted => !form.deleted
    case AtOrAfter(i) => i < |params| && params[i] * 1000 <= form.createdAt
    case Earlier(i) => i < |params| && form.createdAt < params[i] * 1000
  }

  /** The instants, in milliseconds, between which the query looks. */
  datatype Window = Window(lo: Option<int>, hi: Option<int>)

  predicate InWindow(w: Window, form: Form) {
    && !form.deleted
    && (w.lo.Some? ==> w.lo.value * 1000 <= form.createdAt)
    && (w.hi.Some? ==> form.createdAt < w.hi.value * 1000)
  }

  /** What the text of an end comes to, `shift` milliseconds on: `Date.parse`, `toISOString` and the cast to
      a timestamp. None is an exception or an SQL error on the way. A date string that names no day may be
      read as any instant or refused; section 21.4.3.2 of ECMA-262 leaves it open. */
  type Reader = (string, int) -> Option<int>

  /** Days that exist are read as what they are. */
  ghost predicate Reads(read: Reader) {
    forall s, shift :: ValidDay(s) && read(s, shift).Some? ==> read(s, shift).value == DayOf(s) * DAY_MS + shift
  }

  /** The window of a range, unless an end throws. */
  function WindowOf(range: Range, read: Reader): Option<Window> {
    var lo := if Given(range.from) then read(range.from.value, -DAY_MS) else None;
    var hi := if Given(range.to) then read(range.to.value, 2 * DAY_MS) else None;
    if (Given(range.from) && lo.None?) || (Given(range.to) && hi.None?) then None else Some(Window(lo, hi))
  }

  /** The clauses and parameters the query is built of. */
  method BuildWhere(range: Range, read: Reader) returns (query: Option<(seq<Bound>, seq<int>)>)
    ensures query.Some? <==> WindowOf(range, read).Some?
    ensures query.Some? ==> forall form ::
      (forall i :: 0 <= i < |query.value.0| ==> Satisfies(form, query.value.0[i], query.value.1))
        <==> InWindow(WindowOf(range, read).value, form)
  {
    var bounds, params: seq<int> := [NotDeleted], [];
    if Given(range.from) {
      var lo := read(range.from.value, -DAY_MS);
      if lo.None? {
        return None;
      }
      params := params + [lo.value];
      bounds := bounds + [AtOrAfter(|params| - 1)];
    }
    if Given(range.to) {
      var hi := read(range.to.value, 2 * DAY_MS);
      if hi.None? {
        return None;
      }
      params := params + [hi.value];
      bounds := bounds + [Earlier(|params| - 1)];
    }
    query := Some((bounds, params));
    var w := WindowOf(range, read).value;
    forall form
      ensures (forall i :: 0 <= i < |bounds| ==> Satisfies(form, bounds[i], params)) <==> InWindow(w, form)
    {
      assert Satisfies(form, bounds[0], params) <==> !form.deleted;
      if Given(range.from) {
        assert Satisfies(form, bounds[1], params) <==> w.lo.value * 1000 <= form.createdAt;
      }
      if Given(range.to) {
        assert Satisfies(form, bounds[|bounds| - 1], params) <==> form.createdAt < w.hi.value * 1000;
      }
    }
  }

  // ── The shown days of a range ──

  function Max(a: int, b: int): int {
    if a < b then b else a
  }

  function Min(a: int, b: int): int {
    if a < b then a else b
  }

  /** The first and the last of the days with a four-digit year that the string filter keeps. */
  function FirstShown(range: Range): int
    requires Patterned(range)
  {
    if Given(range.from) then Max(FIRST_FULL_DAY, FirstFrom(Parse(range.from.value))) else FIRST_FULL_DAY
  }

  function LastShown(range: Range): int
    requires Patterned(range)
  {
    if Given(range.to) then Min(LAST_FULL_DAY, LastTo(Parse(range.to.value))) else LAST_FULL_DAY
  }

  /** Comparing the shown date as a string compares its day. */
  lemma ShownOrder(t: int, offset: int, s: string)
    requires Shown(t, offset) && DayPattern(s)
    ensures var day := (Ms(t) + offset) / DAY_MS;
      && (Decimal.Less(DayShown(t, offset), s) <==> day < FirstFrom(Parse(s)))
      && (Decimal.Less(s, DayShown(t, offset)) <==> LastTo(Parse(s)) < day)
  {
    var shown := DayShown(t, offset);
    PrintValidIff((Ms(t) + offset) / DAY_MS);
    StringOrderIsFieldOrder(shown, s);
    StringOrderIsFieldOrder(s, shown);
    BeforeFieldsIff(Parse(shown), Parse(s));
    AfterFieldsIff(Parse(s), Parse(shown));
  }

  /** The string filter keeps a form exactly when its shown day is among those of the range. */
  lemma InRangeIff(range: Range, offset: int, form: Form)
    requires Patterned(range) && Shown(form.createdAt, offset)
    ensures InRange(range, offset, form) <==>
              FirstShown(range) <= (Ms(form.createdAt) + offset) / DAY_MS <= LastShown(range)
  {
    if Given(range.from) {
      ShownOrder(form.createdAt, offset, range.from.value);
    }
    if Given(range.to) {
      ShownOrder(form.createdAt, offset, range.to.value);
    }
  }

  lemma EarliestShown(t: int, offset: int, day: int)
    requires -DAY_MS <= offset <= DAY_MS && day <= (Ms(t) + offset) / DAY_MS
    ensures (day * DAY_MS - DAY_MS) * 1000 <= t
  {
  }

  lemma LatestShown(t: int, offset: int, day: int)
    requires -DAY_MS <= offset <= DAY_MS && (Ms(t) + offset) / DAY_MS <= day
    ensures t < (day * DAY_MS + 2 * DAY_MS) * 1000
  {
  }

  /** The window reaches a day ahead of the first shown day and two days past the beginning of the last, or
      the range shows no day at all. */
  predicate Covers(range: Range, w: Window)
    requires Patterned(range)
  {
    || LastShown(range) < FirstShown(range)
    || (&& (w.lo.Some? ==> w.lo.value <= FirstShown(range) * DAY_MS - DAY_MS)
        && (w.hi.Some? ==> LastShown(range) * DAY_MS + 2 * DAY_MS <= w.hi.value))
  }

  /** Whatever zone within 24 hours of UTC the timestamp is displayed in, a live form whose shown day
      lies in the range is in a window that covers it. */
  lemma WindowIsSound(range: Range, w: Window, offset: int, form: Form)
    requires Patterned(range) && Covers(range, w) && -DAY_MS <= offset <= DAY_MS && Shown(form.createdAt, offset)
    requires !form.deleted && InRange(range, offset, form)
    ensures InWindow(w, form)
  {
    InRangeIff(range, offset, form);
    EarliestShown(form.createdAt, offset, FirstShown(range));
    LatestShown(form.createdAt, offset, LastShown(range));
  }

  /** The code's margins cover every range of days that exist. */
  lemma DaysAreCovered(range: Range, read: Reader)
    requires Reads(read) && WindowOf(range, read).Some?
    requires Given(range.from) ==> ValidDay(range.from.value)
    requires Given(range.to) ==> ValidDay(range.to.value)
    ensures Covers(range, WindowOf(range, read).value)
  {
  }

  lemma FloorDay(day: int, rest: int)
    requires 0 <= rest < DAY_MS
    ensures (day * DAY_MS + rest) / DAY_MS == day
  {
  }

  /** A form shown on `day`: at its beginning, or `rest` milliseconds later, as seen `offset` from UTC. */
  function FormOn(day: int, rest: int, offset: int, micros: int): Form {
    Form(1, 1, "open", (day * DAY_MS + rest - offset) * 1000 + micros, false)
  }

  lemma FormOnIsShown(range: Range, day: int, rest: int, offset: int, micros: int)
    requires Patterned(range) && 0 <= rest < DAY_MS && 0 <= micros < 1000
    requires FIRST_FULL_DAY <= FirstShown(range) <= day <= LastShown(range) <= LAST_FULL_DAY
    ensures var form := FormOn(day, rest, offset, micros);
      Shown(form.createdAt, offset) && InRange(range, offset, form) && !form.deleted
  {
    var form := FormOn(day, rest, offset, micros);
    assert Ms(form.createdAt) == day * DAY_MS + rest - offset;
    FloorDay(day, rest);
    InRangeIff(range, offset, form);
  }

  /** A window that covers less than that loses a form: one shown on the first day 24 hours ahead of UTC, or
      in the last microsecond of the last day 24 hours behind it. */
  lemma Uncovered(range: Range, w: Window) returns (offset: int, form: Form)
    requires Patterned(range) && !Covers(range, w)
    ensures -DAY_MS <= offset <= DAY_MS && Shown(form.createdAt, offset) && !form.deleted
    ensures InRange(range, offset, form) && !InWindow(w, form)
  {
    if w.lo.Some? && w.lo.value > FirstShown(range) * DAY_MS - DAY_MS {
      offset, form := DAY_MS, FormOn(FirstShown(range), 0, DAY_MS, 0);
      FormOnIsShown(range, FirstShown(range), 0, DAY_MS, 0);
    } else {
      offset, form := -DAY_MS, FormOn(LastShown(range), DAY_MS - 1, -DAY_MS, 999);
      FormOnIsShown(range, LastShown(range), DAY_MS - 1, -DAY_MS, 999);
    }
  }

  /** A window misses no form of the range. */
  ghost predicate Sound(range: Range, w: Window) {
    forall offset: int, form: Form ::
      -DAY_MS <= offset <= DAY_MS && Shown(form.createdAt, offset) && !form.deleted && InRange(range, offset, form) ==>
        InWindow(w, form)
  }

  /** The margins cannot be smaller: a window is sound for every zone within 24 hours exactly when it covers
      the shown days, whatever instants the two ends were read as. */
  lemma MarginsAreTight(range: Range, w: Window)
    requires Patterned(range)
    ensures Sound(range, w) <==> Covers(range, w)
  {
    if Covers(range, w) {
      forall offset: int, form: Form |
        -DAY_MS <= offset <= DAY_MS && Shown(form.createdAt, offset) && !form.deleted && InRange(range, offset, form)
        ensures InWindow(w, form)
      {
        WindowIsSound(range, w, offset, form);
      }
    } else {
      var offset, form := Uncovered(range, w);
    }
  }

  /** From `2026-02-31`, read as 3 March: the first shown day is 1 March, and the window begins on the 2nd. */
  lemma FebruaryThirtyFirst(range: Range, read: Reader)
    requires range == Range(Some("2026-02-31"), None) && read("2026-02-31", -DAY_MS) == Some(20515 * DAY_MS - DAY_MS)
    ensures DayNumber(Civil(2026, 3, 3)) == 20515
    ensures AssertDayRange(range.from, range.to).Accepted? && Patterned(range) && FirstShown(range) == 20513
    ensures WindowOf(range, read).Some? && !Covers(range, WindowOf(range, read).value)
  {
    ParseFebruaryThirtyFirst();
    DayFromYearClosedForm(2026);
  }

  // ── The joins pushed down ──

  function Filter<T>(rows: seq<T>, p: T -> bool): seq<T> {
    if rows == [] then []
    else if p(rows[0]) then [rows[0]] + Filter(rows[1..], p)
    else Filter(rows[1..], p)
  }

  lemma {:induction false} CountOfFilter<T>(rows: seq<T>, p: T -> bool, x: T)
    ensures multiset(Filter(rows, p))[x] == if p(x) then multiset(rows)[x] else 0
  {
    if rows != [] {
      CountOfFilter(rows[1..], p, x);
      assert rows == [rows[0]] + rows[1..];
    }
  }

  /** A query over a table without an ORDER BY: the rows that satisfy `p`, in whatever order. */
  predicate Answers<T(==)>(rows: seq<T>, table: seq<T>, p: T -> bool) {
    multiset(rows) == multiset(Filter(table, p))
  }

  /** Filtering an answer leaves what filtering the table by both would. */
  lemma FilterOfAnswer<T(!new)>(rows: seq<T>, table: seq<T>, p: T -> bool, q: T -> bool, both: T -> bool)
    requires Answers(rows, table, p)
    requires forall x :: x in table ==> (both(x) <==> q(x) && p(x))
    ensures multiset(Filter(rows, q)) == multiset(Filter(table, both))
  {
    var kept, direct := multiset(Filter(rows, q)), multiset(Filter(table, both));
    forall x: T
      ensures kept[x] == direct[x]
    {
      CountOfFilter(rows, q, x);
      CountOfFilter(table, p, x);
      CountOfFilter(table, both, x);
      if multiset(table)[x] > 0 {
        assert x in table;
      }
    }
    assert kept == direct;
  }

  predicate HasForm(forms: seq<Form>, id: int) {
    exists i :: 0 <= i < |forms| && forms[i].id == id
  }

  predicate HasStudent(forms: seq<Form>, id: int) {
    exists i :: 0 <= i < |forms| && forms[i].studentId == id
  }

  /** What the SQL path answers, an empty list of ids asking no query. */
  predicate Pushed(t: Tables, w: Window, s: Tables) {
    && Answers(s.forms, t.forms, (f: Form) => InWindow(w, f))
    && (if s.forms == [] then s.rounds == [] && s.interests == [] && s.enrollments == []
        else
          && Answers(s.rounds, t.rounds, (r: Round) => !r.deleted && HasForm(s.forms, r.formId))
          && Answers(s.interests, t.interests, (i: Interest) => !i.deleted && HasStudent(s.forms, i.studentId))
          && Answers(s.enrollments, t.enrollments, (e: Enrollment) => !e.deleted && HasStudent(s.forms, e.studentId)))
  }

  /** What the fallback loads: every live row. */
  predicate Loaded(t: Tables, s: Tables) {
    && Answers(s.forms, t.forms, (f: Form) => !f.deleted)
    && Answers(s.rounds, t.rounds, (r: Round) => !r.deleted)
    && Answers(s.interests, t.interests, (i: Interest) => !i.deleted)
    && Answers(s.enrollments, t.enrollments, (e: Enrollment) => !e.deleted)
  }

  function FormsOf(s: Tables, range: Range, offset: int): seq<Form> {
    Filter(s.forms, (f: Form) => InRange(range, offset, f))
  }

  function RoundsOf(s: Tables, form: Form): seq<Round> {
    Filter(s.rounds, (r: Round) => r.formId == form.id)
  }

  function InterestsOf(s: Tables, form: Form): seq<Interest> {
    Filter(s.interests, (i: Interest) => i.studentId == form.studentId)
  }

  function EnrollmentsOf(s: Tables, form: Form): seq<Enrollment> {
    Filter(s.enrollments, (e: Enrollment) => e.studentId == form.studentId)
  }

  /** A join of live rows to a kept form sees the same rows whether the join was pushed down or not. */
  lemma SameJoin<T(!new)>(pushed: seq<T>, loaded: seq<T>, table: seq<T>, near: T -> bool, live: T -> bool, joins: T -> bool)
    requires Answers(pushed, table, near) && Answers(loaded, table, live)
    requires forall x :: joins(x) ==> (near(x) <==> live(x))
    ensures multiset(Filter(pushed, joins)) == multiset(Filter(loaded, joins))
  {
    var both := (x: T) => joins(x) && live(x);
    FilterOfAnswer(pushed, table, near, joins, both);
    FilterOfAnswer(loaded, table, live, joins, both);
  }

  lemma SameForms(t: Tables, range: Range, w: Window, offset: int, pushed: Tables, loaded: Tables)
    requires Patterned(range) && Covers(range, w) && -DAY_MS <= offset <= DAY_MS
    requires forall f :: f in t.forms ==> Shown(f.createdAt, offset)
    requires Pushed(t, w, pushed) && Loaded(t, loaded)
    ensures multiset(FormsOf(pushed, range, offset)) == multiset(FormsOf(loaded, range, offset))
  {
    var both := (f: Form) => !f.deleted && InRange(range, offset, f);
    forall f | f in t.forms
      ensures both(f) <==> InRange(range, offset, f) && InWindow(w, f)
    {
      if both(f) {
        WindowIsSound(range, w, offset, f);
      }
    }
    FilterOfAnswer(pushed.forms, t.forms, (f: Form) => InWindow(w, f), (f: Form) => InRange(range, offset, f), both);
    FilterOfAnswer(loaded.forms, t.forms, (f: Form) => !f.deleted, (f: Form) => InRange(range, offset, f), both);
  }

  lemma FilteredIsIn<T>(rows: seq<T>, p: T -> bool, x: T)
    requires x in Filter(rows, p)
    ensures x in rows && p(x)
  {
    CountOfFilter(rows, p, x);
    assert x in multiset(Filter(rows, p));
    assert x in multiset(rows);
  }

  /** The analytics of both snapshots see the same forms, each joined to the same rows. */
  ghost predicate SeeAlike(range: Range, offset: int, pushed: Tables, loaded: Tables) {
    && multiset(FormsOf(pushed, range, offset)) == multiset(FormsOf(loaded, range, offset))
    && forall f :: f in FormsOf(pushed, range, offset) ==>
         && multiset(RoundsOf(pushed, f)) == multiset(RoundsOf(loaded, f))
         && multiset(InterestsOf(pushed, f)) == multiset(InterestsOf(loaded, f))
         && multiset(EnrollmentsOf(pushed, f)) == multiset(EnrollmentsOf(loaded, f))
  }

  /** Pushing the period and the joins down to SQL changes nothing the analytics see, in any zone within
      24 hours, when the window covers the shown days of the range. */
  lemma PushdownPreserves(t: Tables, range: Range, w: Window, offset: int, pushed: Tables, loaded: Tables)
    requires Patterned(range) && Covers(range, w) && -DAY_MS <= offset <= DAY_MS
    requires forall f :: f in t.forms ==> Shown(f.createdAt, offset)
    requires Pushed(t, w, pushed) && Loaded(t, loaded)
    ensures SeeAlike(range, offset, pushed, loaded)
  {
    SameForms(t, range, w, offset, pushed, loaded);
    forall f | f in FormsOf(pushed, range, offset)
      ensures multiset(RoundsOf(pushed, f)) == multiset(RoundsOf(loaded, f))
      ensures multiset(InterestsOf(pushed, f)) == multiset(InterestsOf(loaded, f))
      ensures multiset(EnrollmentsOf(pushed, f)) == multiset(EnrollmentsOf(loaded, f))
    {
      FilteredIsIn(pushed.forms, (g: Form) => InRange(range, offset, g), f);
      SameJoin(pushed.rounds, loaded.rounds, t.rounds,
               (r: Round) => !r.deleted && HasForm(pushed.forms, r.formId), (r: Round) => !r.deleted,
               (r: Round) => r.formId == f.id);
      SameJoin(pushed.interests, loaded.interests, t.interests,
               (i: Interest) => !i.deleted && HasStudent(pushed.forms, i.studentId), (i: Interest) => !i.deleted,
               (i: Interest) => i.studentId == f.studentId);
      SameJoin(pushed.enrollments, loaded.enrollments, t.enrollments,
               (e: Enrollment) => !e.deleted && HasStudent(pushed.forms, e.studentId), (e: Enrollment) => !e.deleted,
               (e: Enrollment) => e.studentId == f.studentId);
    }
  }

  ghost predicate AllShown(t: Tables, offset: int) {
    forall f :: f in t.forms ==> Shown(f.createdAt, offset)
  }

  /** Nothing the analytics see changes, over any tables and in any zone within 24 hours. */
  ghost predicate Preserves(range: Range, w: Window) {
    forall t: Tables, offset: int, pushed: Tables, loaded: Tables ::
      -DAY_MS <= offset <= DAY_MS && AllShown(t, offset) && Pushed(t, w, pushed) && Loaded(t, loaded) ==>
        SeeAlike(range, offset, pushed, loaded)
  }

  /** Over a table of the one form that the window misses the two snapshots differ. */
  lemma LosesAForm(range: Range, w: Window, offset: int, form: Form)
    requires !form.deleted && InRange(range, offset, form) && !InWindow(w, form)
    ensures var t := Tables([form], [], [], []);
      && Pushed(t, w, Tables([], [], [], [])) && Loaded(t, t)
      && !SeeAlike(range, offset, Tables([], [], [], []), t)
  {
    var t := Tables([form], [], [], []);
    OneKept(form, (f: Form) => InWindow(w, f));
    OneKept(form, (f: Form) => !f.deleted);
    OneKept(form, (f: Form) => InRange(range, offset, f));
    assert FormsOf(t, range, offset) == [form] && FormsOf(Tables([], [], [], []), range, offset) == [];
    assert form in multiset([form]) && form !in multiset(FormsOf(Tables([], [], [], []), range, offset));
  }

  lemma OneKept<T>(x: T, p: T -> bool)
    ensures Filter([x], p) == if p(x) then [x] else []
  {
    assert Filter([x][1..], p) == [];
  }

  /** The pushdown is exact precisely for the windows that cover the range: for every range of days that
      exist, and for an end that names no day as long as it was read as early, or as late, as that. */
  lemma PushdownPreservesIff(range: Range, w: Window)
    requires Patterned(range)
    ensures Preserves(range, w) <==> Covers(range, w)
  {
    if Covers(range, w) {
      forall t: Tables, offset: int, pushed: Tables, loaded: Tables |
        -DAY_MS <= offset <= DAY_MS && AllShown(t, offset) && Pushed(t, w, pushed) && Loaded(t, loaded)
        ensures SeeAlike(range, offset, pushed, loaded)
      {
        PushdownPreserves(t, range, w, offset, pushed, loaded);
      }
    } else {
      var offset, form := Uncovered(range, w);
      LosesAForm(range, w, offset, form);
      var t := Tables([form], [], [], []);
      assert AllShown(t, offset) && Pushed(t, w, Tables([], [], [], [])) && Loaded(t, t);
    }
  }
}
