/** The preflight of the enrollment and payout migration against the CHECK constraints it prepares, under
    the three-valued logic of SQL. A WHERE selects on TRUE; a CHECK is violated by FALSE alone. */
module SqlPreflight {
  import opened Rows

  /** `Raised` is an expression that ends the statement. */
  datatype Truth = True | False | Unknown | Raised

  function Of(b: bool): Truth {
    if b then True else False
  }

  function Not(a: Truth): Truth {
    match a
    case True => False
    case False => True
    case _ => a
  }

  /** Operands are taken from the left, and no further than needed. */
  function Or(a: Truth, b: Truth): Truth {
    if a.True? || a.Raised? then a
    else if b.True? || b.Raised? then b
    else if a.Unknown? || b.Unknown? then Unknown
    else False
  }

  function And(a: Truth, b: Truth): Truth {
    Not(Or(Not(a), Not(b)))
  }

  function Any(terms: seq<Truth>): Truth {
    if terms == [] then False else Or(terms[0], Any(terms[1..]))
  }

  function IsNull<T>(v: Option<T>): Truth {
    Of(v.None?)
  }

  function NotNull<T>(v: Option<T>): Truth {
    Of(v.Some?)
  }

  function Lt(a: Option<int>, b: Option<int>): Truth {
    if a.None? || b.None? then Unknown else Of(a.value < b.value)
  }

  function Eq(a: Option<int>, b: Option<int>): Truth {
    if a.None? || b.None? then Unknown else Of(a.value == b.value)
  }

  function Ge(a: Option<int>, b: Option<int>): Truth {
    Not(Lt(a, b))
  }

  function Between(a: Option<int>, low: int, high: int): Truth {
    And(Ge(a, Some(low)), Ge(Some(high), a))
  }

  function In(v: Option<string>, values: seq<string>): Truth {
    if v.None? then Unknown else Of(v.value in values)
  }

  function Coalesce(a: Option<int>, b: Option<int>): Option<int> {
    if a.Some? then a else b
  }

  /** btrim strips blanks and nothing else. */
  function Btrim(s: string): string {
    if s != "" && s[0] == ' ' then Btrim(s[1..])
    else if s != "" && s[|s| - 1] == ' ' then Btrim(s[..|s| - 1])
    else s
  }

  /** `length(btrim(COALESCE(v, ''))) > 0`. */
  function HasText(v: Option<string>): Truth {
    Of(|Btrim(if v.Some? then v.value else "")| > 0)
  }

  /** A text that is not all blanks. */
  predicate NotBlank(v: Option<string>) {
    v.Some? && exists i :: 0 <= i < |v.value| && v.value[i] != ' '
  }

  lemma {:induction false} BtrimIsEmptyIff(s: string)
    ensures Btrim(s) == "" <==> forall i :: 0 <= i < |s| ==> s[i] == ' '
    decreases |s|
  {
    if s != "" && s[0] == ' ' {
      BtrimIsEmptyIff(s[1..]);
      assert s == [s[0]] + s[1..];
    } else if s != "" && s[|s| - 1] == ' ' {
      BtrimIsEmptyIff(s[..|s| - 1]);
      assert s == s[..|s| - 1] + [s[|s| - 1]];
    }
  }

  lemma HasTextIff(v: Option<string>)
    ensures HasText(v) == Of(NotBlank(v))
  {
    BtrimIsEmptyIff(if v.Some? then v.value else "");
  }

  // ── Enrollments ──

  datatype Enrollment = Enrollment(
    status: Option<string>, startDate: Option<int>, endDate: Option<int>,
    completed: Option<int>, total: Option<int>)

  const ENROLLMENT_STATUSES := ["active", "paused", "completed", "canceled"]

  function EnrollmentPreflight(e: Enrollment): Truth {
    Any([Not(In(e.status, ENROLLMENT_STATUSES)),
         And(And(NotNull(e.startDate), NotNull(e.endDate)), Lt(e.endDate, e.startDate)),
         Lt(e.completed, Some(0)),
         Lt(e.total, Some(0)),
         Lt(Some(1000), e.total),
         And(NotNull(e.total), Lt(e.total, e.completed))])
  }

  function EnrollmentStatusCheck(e: Enrollment): Truth {
    In(e.status, ENROLLMENT_STATUSES)
  }

  function EnrollmentDatesCheck(e: Enrollment): Truth {
    Or(Or(IsNull(e.startDate), IsNull(e.endDate)), Ge(e.endDate, e.startDate))
  }

  function EnrollmentCountsCheck(e: Enrollment): Truth {
    And(And(Ge(e.completed, Some(0)),
            Or(IsNull(e.total), Between(e.total, 0, 1000))),
        Or(IsNull(e.total), Ge(e.total, e.completed)))
  }

  predicate EnrollmentViolates(e: Enrollment) {
    EnrollmentStatusCheck(e).False? || EnrollmentDatesCheck(e).False? || EnrollmentCountsCheck(e).False?
  }

  lemma {:induction false} AnyIsTrueIff(terms: seq<Truth>)
    requires Raised !in terms
    ensures Any(terms).True? <==> True in terms
    ensures !Any(terms).Raised?
  {
    if terms != [] {
      AnyIsTrueIff(terms[1..]);
      assert terms == [terms[0]] + terms[1..];
    }
  }

  /** Whatever is null, the preflight selects an enrollment exactly when some constraint would refuse it. */
  lemma EnrollmentPreflightIsExact(e: Enrollment)
    ensures EnrollmentPreflight(e).True? <==> EnrollmentViolates(e)
  {
    AnyIsTrueIff([Not(In(e.status, ENROLLMENT_STATUSES)),
                  And(And(NotNull(e.startDate), NotNull(e.endDate)), Lt(e.endDate, e.startDate)),
                  Lt(e.completed, Some(0)),
                  Lt(e.total, Some(0)),
                  Lt(Some(1000), e.total),
                  And(NotNull(e.total), Lt(e.total, e.completed))]);
  }

  // ── Payouts ──

  /** `lines::jsonb`. */
  datatype Lines = NoLines | ArrayOf(length: nat) | OtherJson

  datatype Payout = Payout(
    status: Option<string>, periodStart: Option<int>, periodEnd: Option<int>, sessionCount: Option<int>,
    totalMinutes: Option<int>, computed: Option<int>, adjusted: Option<int>, amount: Option<int>,
    adjustReason: Option<string>, lines: Lines, confirmedAt: Option<int>, paidAt: Option<int>,
    reversedAt: Option<int>, rejectedReason: Option<string>, reversedReason: Option<string>)

  const PAYOUT_STATUSES := ["pending", "confirmed", "paid", "rejected"]

  function LinesIsArray(lines: Lines): Truth {
    if lines.NoLines? then Unknown else Of(lines.ArrayOf?)
  }

  /** jsonb_array_length raises on what is no array. */
  function LinesCount(lines: Lines, count: Option<int>): Truth {
    match lines
    case NoLines => Unknown
    case OtherJson => Raised
    case ArrayOf(n) => Eq(Some(n), count)
  }

  function Decision(p: Payout): Truth {
    if p.status == Some("pending") then And(And(IsNull(p.confirmedAt), IsNull(p.paidAt)), IsNull(p.reversedAt))
    else if p.status == Some("confirmed") then And(And(NotNull(p.confirmedAt), IsNull(p.paidAt)), IsNull(p.reversedAt))
    else if p.status == Some("paid") then And(And(NotNull(p.confirmedAt), NotNull(p.paidAt)), IsNull(p.reversedAt))
    else if p.status == Some("rejected") then
      And(HasText(p.rejectedReason),
          Or(IsNull(p.reversedAt), And(NotNull(p.paidAt), HasText(p.reversedReason))))
    else False
  }

  function PayoutTerms(p: Payout): seq<Truth> {
    [Not(In(p.status, PAYOUT_STATUSES)),
     Lt(p.periodEnd, p.periodStart),
     Ge(Some(0), p.sessionCount),
     Ge(Some(0), p.totalMinutes),
     Lt(p.computed, Some(0)),
     Lt(p.adjusted, Some(0)),
     Lt(p.amount, Some(0)),
     Not(Eq(p.amount, Coalesce(p.adjusted, p.computed))),
     Not(LinesIsArray(p.lines)),
     Not(LinesCount(p.lines, p.sessionCount)),
     Not(Decision(p))]
  }

  function PayoutPreflight(p: Payout): Truth {
    Any(PayoutTerms(p))
  }

  function PayoutStatusCheck(p: Payout): Truth {
    In(p.status, PAYOUT_STATUSES)
  }

  function PayoutPeriodCheck(p: Payout): Truth {
    Ge(p.periodEnd, p.periodStart)
  }

  function PayoutNonnegativeCheck(p: Payout): Truth {
    And(And(And(And(Lt(Some(0), p.sessionCount), Lt(Some(0), p.totalMinutes)), Ge(p.computed, Some(0))),
            Or(IsNull(p.adjusted), Ge(p.adjusted, Some(0)))),
        Ge(p.amount, Some(0)))
  }

  function PayoutAmountCheck(p: Payout): Truth {
    And(Eq(p.amount, Coalesce(p.adjusted, p.computed)),
        Or(IsNull(p.adjusted), HasText(p.adjustReason)))
  }

  function PayoutLinesCheck(p: Payout): Truth {
    And(LinesIsArray(p.lines), LinesCount(p.lines, p.sessionCount))
  }

  predicate PayoutViolates(p: Payout) {
    || PayoutStatusCheck(p).False? || PayoutPeriodCheck(p).False? || PayoutNonnegativeCheck(p).False?
    || PayoutAmountCheck(p).False? || PayoutLinesCheck(p).False? || Decision(p).False?
  }

  /** The CASE that preflight and constraint share is never null. */
  lemma DecisionIsKnown(p: Payout)
    ensures Decision(p).True? || Decision(p).False?
    ensures p.status == Some("rejected") && Decision(p).True? ==>
              NotBlank(p.rejectedReason) && (p.reversedAt.Some? ==> p.paidAt.Some? && NotBlank(p.reversedReason))
  {
    HasTextIff(p.rejectedReason);
    HasTextIff(p.reversedReason);
  }

  /** An adjusted amount without a reason: the one thing only the constraint asks for. */
  predicate ReasonMissing(p: Payout) {
    p.adjusted.Some? && !NotBlank(p.adjustReason)
  }

  lemma AndIsFalseIff(a: Truth, b: Truth)
    requires !a.Raised? && !b.Raised?
    ensures And(a, b).False? <==> a.False? || b.False?
    ensures !And(a, b).Raised?
  {
  }

  /** Each constraint against the terms of the preflight it answers to. */
  lemma NonnegativeTerms(p: Payout)
    ensures var t := PayoutTerms(p);
      PayoutNonnegativeCheck(p).False? <==> t[2].True? || t[3].True? || t[4].True? || t[5].True? || t[6].True?
  {
    var a, b, c := Lt(Some(0), p.sessionCount), Lt(Some(0), p.totalMinutes), Ge(p.computed, Some(0));
    var d, e := Or(IsNull(p.adjusted), Ge(p.adjusted, Some(0))), Ge(p.amount, Some(0));
    AndIsFalseIff(a, b);
    AndIsFalseIff(And(a, b), c);
    AndIsFalseIff(And(And(a, b), c), d);
    AndIsFalseIff(And(And(And(a, b), c), d), e);
  }

  lemma AmountTerms(p: Payout)
    ensures PayoutAmountCheck(p).False? <==> PayoutTerms(p)[7].True? || ReasonMissing(p)
  {
    HasTextIff(p.adjustReason);
    AndIsFalseIff(Eq(p.amount, Coalesce(p.adjusted, p.computed)), Or(IsNull(p.adjusted), HasText(p.adjustReason)));
  }

  lemma OtherTerms(p: Payout)
    requires !p.lines.OtherJson?
    ensures var t := PayoutTerms(p);
      && (PayoutStatusCheck(p).False? <==> t[0].True?)
      && (PayoutPeriodCheck(p).False? <==> t[1].True?)
      && (PayoutLinesCheck(p).False? <==> t[8].True? || t[9].True?)
      && (Decision(p).False? <==> t[10].True?)
      && Raised !in t
  {
    DecisionIsKnown(p);
    AndIsFalseIff(LinesIsArray(p.lines), LinesCount(p.lines, p.sessionCount));
  }

  /** Every row some payout constraint refuses is either selected by the preflight or lacks the reason of
      its adjustment, and the other way round; the order in which the terms are evaluated is of no account. */
  lemma PayoutPreflightIsExact(p: Payout)
    requires !p.lines.OtherJson?
    ensures PayoutViolates(p) <==> PayoutPreflight(p).True? || ReasonMissing(p)
    ensures forall order :: Reordered(order, PayoutTerms(p)) ==> (Any(order).True? <==> PayoutPreflight(p).True?)
  {
    var t := PayoutTerms(p);
    OtherTerms(p);
    NonnegativeTerms(p);
    AmountTerms(p);
    AnyIsTrueIff(t);
    TrueInEleven(t);
    forall order | Reordered(order, t)
      ensures Any(order).True? <==> Any(t).True?
    {
      SameAnswer(order, t);
    }
  }

  /** The same terms in another order. */
  predicate Reordered(order: seq<Truth>, terms: seq<Truth>) {
    multiset(order) == multiset(terms)
  }

  lemma SameAnswer(order: seq<Truth>, terms: seq<Truth>)
    requires Reordered(order, terms) && Raised !in terms
    ensures Any(order).True? <==> Any(terms).True?
  {
    assert forall x :: x in order <==> x in multiset(order);
    assert forall x :: x in terms <==> x in multiset(terms);
    AnyIsTrueIff(order);
    AnyIsTrueIff(terms);
  }

  lemma TrueInEleven(t: seq<Truth>)
    requires |t| == 11
    ensures True in t <==> (t[0].True? || t[1].True? || t[2].True? || t[3].True? || t[4].True? || t[5].True?
                            || t[6].True? || t[7].True? || t[8].True? || t[9].True? || t[10].True?)
  {
  }

  /** Lines that are JSON but no array: the constraint refuses them or raises, and the preflight stops, by
      selecting the row or by the error of taking its length, whatever order PostgreSQL evaluates in. */
  lemma OtherJsonStopsThePreflight(p: Payout)
    requires p.lines.OtherJson?
    ensures PayoutLinesCheck(p).False? && And(LinesCount(p.lines, p.sessionCount), LinesIsArray(p.lines)).Raised?
    ensures forall order :: Reordered(order, PayoutTerms(p)) ==> Any(order).True? || Any(order).Raised?
  {
    OtherJsonTerm(p);
    forall order | Reordered(order, PayoutTerms(p))
      ensures Any(order).True? || Any(order).Raised?
    {
      TrueStops(PayoutTerms(p), 8, order);
    }
  }

  lemma TrueStops(terms: seq<Truth>, k: nat, order: seq<Truth>)
    requires k < |terms| && terms[k] == True && Reordered(order, terms)
    ensures Any(order).True? || Any(order).Raised?
  {
    assert terms[k] in multiset(order);
    var i :| 0 <= i < |order| && order[i] == terms[k];
    StopsAt(order, i);
  }

  lemma OtherJsonTerm(p: Payout)
    requires p.lines.OtherJson?
    ensures |PayoutTerms(p)| == 11 && PayoutTerms(p)[8] == True
    ensures PayoutLinesCheck(p).False? && And(LinesCount(p.lines, p.sessionCount), LinesIsArray(p.lines)).Raised?
  {
  }

  lemma {:induction false} StopsAt(terms: seq<Truth>, k: nat)
    requires k < |terms| && terms[k].True?
    ensures Any(terms).True? || Any(terms).Raised?
  {
    if k > 0 {
      StopsAt(terms[1..], k - 1);
    }
  }

  /** A payout the preflight lets pass and a constraint then refuses, so that its validation fails after the
      gate was green: an amount adjusted without a reason. */
  lemma ReasonSlipsThrough() returns (p: Payout)
    ensures p.adjusted == Some(80) && p.amount == Some(80) && p.adjustReason == None
    ensures PayoutPreflight(p).False? && PayoutAmountCheck(p).False? && PayoutViolates(p)
  {
    p := Payout(Some("pending"), Some(1), Some(31), Some(1), Some(60), Some(100), Some(80), Some(80), None,
                ArrayOf(1), None, None, None, None, None);
    var t := PayoutTerms(p);
    assert PAYOUT_STATUSES[0] == "pending";
    AllFalse(t);
    HasTextIff(p.adjustReason);
  }

  lemma {:induction false} AllFalse(terms: seq<Truth>)
    requires forall i :: 0 <= i < |terms| ==> terms[i].False?
    ensures Any(terms).False?
  {
    if terms != [] {
      AllFalse(terms[1..]);
    }
  }
}
