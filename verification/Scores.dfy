/**
 The compliance scores of audit visits: on completion, in the report, and the 40/60
 composite in `backend/auth/audit_router.py`.  A checklist maps item ids to results.
 Quotients are exact reals; Python's `round` is rounding half to even.
 */
module Scores {
  import opened Common

  datatype Answer = Conform | MinorNc | MajorNc | NotApplicable | Observation

  type Results = map<nat, Option<Answer>>

  // ---------------------------------------------------------------- rounding

  function RoundHalfEven(x: real): int {
    var below := x.Floor;
    var part := x - below as real;
    if part < 0.5 || (part == 0.5 && below % 2 == 0) then below else below + 1
  }

  /** `n` is nearest to `x`, and even when two integers are. */
  predicate IsRounded(x: real, n: int) {
    && -0.5 <= n as real - x <= 0.5
    && (n as real - x == 0.5 || n as real - x == -0.5 ==> n % 2 == 0)
  }

  lemma RoundIsTheRounded(x: real, n: int)
    ensures RoundHalfEven(x) == n <==> IsRounded(x, n)
  {
  }

  lemma RoundIsMonotone(x: real, y: real)
    requires x <= y
    ensures RoundHalfEven(x) <= RoundHalfEven(y)
  {
  }

  lemma RoundKeepsIntegers(n: int)
    ensures RoundHalfEven(n as real) == n
  {
  }

  // ---------------------------------------------------------------- scores

  function Passed(rs: Results): set<nat> {
    set i | i in rs && rs[i] == Some(Conform)
  }

  /** Answered items that apply: neither blank nor `na`. */
  function Answered(rs: Results): set<nat> {
    set i | i in rs && rs[i].Some? && rs[i] != Some(NotApplicable)
  }

  /** All items but those marked `na`, answered or not. */
  function Applicable(rs: Results): set<nat> {
    set i | i in rs && rs[i] != Some(NotApplicable)
  }

  function MarkedNa(rs: Results): set<nat> {
    set i | i in rs && rs[i] == Some(NotApplicable)
  }

  /** The report counts applicable items as all items less those marked `na`. */
  lemma {:induction false} ApplicableCount(rs: Results)
    ensures |rs| - |MarkedNa(rs)| == |Applicable(rs)|
  {
    assert rs.Keys == MarkedNa(rs) + Applicable(rs);
    assert MarkedNa(rs) * Applicable(rs) == {};
    assert |rs| == |rs.Keys|;
  }

  function Percent(part: nat, whole: nat): int
    requires whole > 0
  {
    RoundHalfEven(part as real / whole as real * 100.0)
  }

  function CompletionScore(rs: Results): int {
    if Answered(rs) != {} then Percent(|Passed(rs)|, |Answered(rs)|) else 0
  }

  /** The report's score where the visit has none stored. */
  function RecomputedScore(rs: Results): int {
    if |Applicable(rs)| > 0 then Percent(|Passed(rs)|, |Applicable(rs)|) else 0
  }

  /** A stored score of zero counts as none. */
  function ReportScore(stored: Option<int>, rs: Results): int {
    if stored.Some? && stored.value != 0 then stored.value else RecomputedScore(rs)
  }

  /** The percentage is the nearest integer to 100 * part / whole, in integers; of two the even one. */
  lemma PercentIs(part: nat, whole: nat, n: int)
    requires whole > 0
    ensures Percent(part, whole) == n <==>
              && -(whole as int) <= 2 * (whole * n - 100 * part) <= whole
              && (2 * (whole * n - 100 * part) == whole || 2 * (whole * n - 100 * part) == -(whole as int) ==> n % 2 == 0)
  {
    var x := part as real / whole as real * 100.0;
    RoundIsTheRounded(x, n);
    Scaled(part, whole, n);
  }

  /** The distance `d` of an integer from the percentage, against twice the distance times the whole. */
  lemma Halves(d: real, w: real, dw: real, whole: int, e: int)
    requires w > 0.0 && w == whole as real && dw == d * w && e as real == 2.0 * dw
    ensures (-0.5 <= d <==> -whole <= e) && (d <= 0.5 <==> e <= whole)
    ensures (d == 0.5 <==> e == whole) && (d == -0.5 <==> e == -whole)
  {
    var half := 0.5 * w;
    Compare(-0.5, d, w, -half, dw);
    Compare(d, 0.5, w, dw, half);
    assert 2.0 * half == whole as real;
  }

  lemma Scaled(part: nat, whole: nat, n: int)
    requires whole > 0
    ensures var d, e := n as real - part as real / whole as real * 100.0, 2 * (whole * n - 100 * part);
            && (-0.5 <= d <==> -(whole as int) <= e) && (d <= 0.5 <==> e <= whole)
            && (d == 0.5 <==> e == whole) && (d == -0.5 <==> e == -(whole as int))
  {
    var w, q := whole as real, part as real / whole as real;
    var d := n as real - q * 100.0;
    var dw, wn := d * w, whole * n;
    Quotient(part as real, w);
    Distribute(n as real, q, w);
    Product(whole, n);
    Doubled(wn, part, dw);
    Halves(d, w, dw, whole, 2 * (wn - 100 * part));
  }

  lemma Product(a: int, b: int)
    ensures (a * b) as real == a as real * b as real
  {
  }

  lemma Doubled(k: int, part: nat, e: real)
    requires e == k as real - 100.0 * part as real
    ensures (2 * (k - 100 * part)) as real == 2.0 * e
  {
  }

  lemma Distribute(n: real, q: real, w: real)
    ensures (n - q * 100.0) * w == w * n - 100.0 * (q * w)
  {
  }

  lemma Compare(d: real, e: real, w: real, dw: real, ew: real)
    requires w > 0.0 && dw == d * w && ew == e * w
    ensures (d <= e <==> dw <= ew) && (d == e <==> dw == ew)
  {
    if dw <= ew {
      Cancel(d, e, w);
    }
    if ew <= dw {
      Cancel(e, d, w);
    }
  }

  /** The counts behind the three scores, by the five results: blank items count for the report alone, `na` for none. */
  lemma ScoresCount(rs: Results, stored: Option<int>)
    ensures var passed := set i | i in rs && rs[i] == Some(Conform);
            var answered := set i | i in rs && rs[i] in {Some(Conform), Some(MinorNc), Some(MajorNc), Some(Observation)};
            var applicable := set i | i in rs && rs[i] in {None, Some(Conform), Some(MinorNc), Some(MajorNc), Some(Observation)};
            && CompletionScore(rs) == (if |answered| == 0 then 0 else Percent(|passed|, |answered|))
            && RecomputedScore(rs) == (if |applicable| == 0 then 0 else Percent(|passed|, |applicable|))
            && ReportScore(stored, rs) == (if stored in {None, Some(0)} then RecomputedScore(rs) else stored.value)
  {
    var answered := set i | i in rs && rs[i] in {Some(Conform), Some(MinorNc), Some(MajorNc), Some(Observation)};
    var applicable := set i | i in rs && rs[i] in {None, Some(Conform), Some(MinorNc), Some(MajorNc), Some(Observation)};
    forall i | i in rs ensures i in answered <==> i in Answered(rs) {
      KnownAnswer(rs[i]);
    }
    forall i | i in rs ensures i in applicable <==> i in Applicable(rs) {
      KnownAnswer(rs[i]);
    }
    assert answered == Answered(rs) && applicable == Applicable(rs);
    assert (set i | i in rs && rs[i] == Some(Conform)) == Passed(rs);
  }

  lemma KnownAnswer(a: Option<Answer>)
    ensures a in {None, Some(Conform), Some(MinorNc), Some(MajorNc), Some(NotApplicable), Some(Observation)}
  {
    match a
    case None =>
    case Some(Conform) =>
    case Some(MinorNc) =>
    case Some(MajorNc) =>
    case Some(NotApplicable) =>
    case Some(Observation) =>
  }

  lemma SubsetSize<T>(a: set<T>, b: set<T>)
    requires a <= b
    ensures |a| <= |b|
  {
    assert b == a + (b - a);
  }

  lemma Cancel(x: real, y: real, k: real)
    requires k > 0.0 && x * k <= y * k
    ensures x <= y
  {
  }

  lemma Quotient(p: real, k: real)
    requires k > 0.0
    ensures p / k * k == p
  {
  }

  lemma Grow(q: real, a: real, b: real)
    requires q >= 0.0 && a <= b
    ensures q * a <= q * b
  {
  }

  lemma QuotientBounds(p: nat, a: nat, b: nat)
    requires p <= a <= b && a > 0
    ensures 0.0 <= p as real / b as real <= p as real / a as real <= 1.0
  {
    var whole, more, part := a as real, b as real, p as real;
    var q, r := part / whole, part / more;
    Quotient(part, whole);
    Quotient(part, more);
    Cancel(0.0, q, whole);
    Cancel(0.0, r, more);
    Cancel(q, 1.0, whole);
    Grow(q, whole, more);
    Cancel(r, q, more);
  }

  lemma PercentBounds(p: nat, a: nat, b: nat)
    requires p <= a <= b && a > 0
    ensures 0 <= Percent(p, b) <= Percent(p, a) <= 100
  {
    QuotientBounds(p, a, b);
    RoundKeepsIntegers(0);
    RoundKeepsIntegers(100);
    RoundIsMonotone(0.0, p as real / b as real * 100.0);
    RoundIsMonotone(p as real / b as real * 100.0, p as real / a as real * 100.0);
    RoundIsMonotone(p as real / a as real * 100.0, 100.0);
  }

  /**
   Both scores lie in 0..100, the recomputed one never exceeds the completion score, and
   they agree when every applicable item is answered.
   */
  lemma ScoresCompare(rs: Results)
    ensures 0 <= RecomputedScore(rs) <= CompletionScore(rs) <= 100
    ensures Answered(rs) == Applicable(rs) ==> RecomputedScore(rs) == CompletionScore(rs)
  {
    var p, a, b := Passed(rs), Answered(rs), Applicable(rs);
    SubsetSize(p, a);
    SubsetSize(a, b);
    if a != {} {
      PercentBounds(|p|, |a|, |b|);
    } else if |b| > 0 {
      PercentBounds(0, |b|, |b|);
      RoundKeepsIntegers(0);
      assert |p| == 0;
      assert 0.0 / |b| as real * 100.0 == 0.0;
    }
  }

  /**
   Exactly when the report's score is the completion score of the checklist it reports: a
   stored score other than zero must be that score, and otherwise answered and applicable
   items must come to the same percentage.
   */
  lemma ReportIsCurrentIff(stored: Option<int>, rs: Results)
    ensures ReportScore(stored, rs) == CompletionScore(rs) <==>
              if stored.Some? && stored.value != 0 then stored.value == CompletionScore(rs)
              else Answered(rs) == {} || Percent(|Passed(rs)|, |Applicable(rs)|) == Percent(|Passed(rs)|, |Answered(rs)|)
    ensures stored == Some(CompletionScore(rs)) ==> ReportScore(stored, rs) == CompletionScore(rs)
  {
    ScoresCompare(rs);
    SubsetSize(Passed(rs), Answered(rs));
    SubsetSize(Answered(rs), Applicable(rs));
  }

  /** A checklist of one item: 100 if it conforms, 0 if it is a major non-conformity. */
  lemma OneItemScores(id: nat)
    ensures CompletionScore(map[id := Some(Conform)]) == 100 && CompletionScore(map[id := Some(MajorNc)]) == 0
  {
    var good: Results, bad: Results := map[id := Some(Conform)], map[id := Some(MajorNc)];
    assert Passed(good) == {id} && Answered(good) == {id} && Passed(bad) == {} && Answered(bad) == {id};
    RoundKeepsIntegers(100);
    RoundKeepsIntegers(0);
    assert 1.0 / 1.0 * 100.0 == 100.0;
    assert 0.0 / 1.0 * 100.0 == 0.0;
  }

  // ---------------------------------------------------------------- composite

  function Composite(documents: Option<int>, audits: Option<int>): Option<int> {
    if documents.Some? && audits.Some?
    then Some(RoundHalfEven(documents.value as real * 0.4 + audits.value as real * 0.6))
    else if documents.Some? then documents
    else audits
  }

  /** Four parts documents and six parts audits, to the nearest integer and the even one of two; a single component stands alone. */
  lemma CompositeIs(d: int, a: int, n: int)
    ensures Composite(Some(d), Some(a)) == Some(n) <==>
              -5 <= 10 * n - (4 * d + 6 * a) <= 5 && (10 * n - (4 * d + 6 * a) in {-5, 5} ==> n % 2 == 0)
    ensures Composite(Some(d), None) == Some(d) && Composite(None, Some(a)) == Some(a) && Composite(None, None) == None
  {
    var x := d as real * 0.4 + a as real * 0.6;
    RoundIsTheRounded(x, n);
    assert 10.0 * (n as real - x) == (10 * n - (4 * d + 6 * a)) as real;
  }

  predicate Between(x: int, a: int, b: int) {
    (a <= x <= b) || (b <= x <= a)
  }

  /** The composite lies between its components, and grows with each of them. */
  lemma CompositeIsBetween(d: int, a: int, more: int)
    ensures Between(Composite(Some(d), Some(a)).value, d, a)
    ensures d <= more ==> Composite(Some(d), Some(a)).value <= Composite(Some(more), Some(a)).value
    ensures a <= more ==> Composite(Some(d), Some(a)).value <= Composite(Some(d), Some(more)).value
  {
  }
}
