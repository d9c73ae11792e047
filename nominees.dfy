/**
 * The per-year aggregation of Academy Award nominee rows, stated on values.
 *
 * Each CSV row is reduced to its year (already converted to a number) and its
 * ethnic-background code. The scan builds one summary ("ceremony") per year,
 * in the order in which the years are first seen.
 */
module Nominees {
  import opened Wrappers

  /** One parsed CSV row. */
  datatype Row = Row(year: int, ethnicBackground: string)

  /**
   * The property `nominees_afrodescendant`, which the code increments for
   * later "black" rows but never creates: it is undefined until the first
   * increment, and `undefined + 1` (and every later `NaN + 1`) is NaN.
   */
  datatype StrayField = Undefined | NaN

  /** One ceremony record of `formattedData`. */
  datatype YearSummary = YearSummary(
    year: int,
    nomineesTotal: nat,
    nomineesCaucasian: nat,
    nomineesAfroDescendant: nat,
    nomineesHispanic: nat,
    nomineesAsian: nat,
    nomineesAfrodescendant: StrayField)

  /** A legend entry: the record field it charts, its label and its colour. */
  datatype Group = Group(key: string, legendLabel: string, color: string)

  /** The four charted categories, in legend order. */
  const Groups: seq<Group> := [
    Group("nominees_caucasian", "caucasian or another", "#EFC7C2"),
    Group("nominees_afro_descendant", "afrodescendant", "#68A691"),
    Group("nominees_hispanic", "hispanic", "#694F5D"),
    Group("nominees_asian", "asian", "#BFD3C1")
  ]

  /** The value of a charted property of a record, looked up by its key; None for any other key. */
  function Property(s: YearSummary, key: string): Option<nat> {
    if key == "nominees_caucasian" then Some(s.nomineesCaucasian)
    else if key == "nominees_afro_descendant" then Some(s.nomineesAfroDescendant)
    else if key == "nominees_hispanic" then Some(s.nomineesHispanic)
    else if key == "nominees_asian" then Some(s.nomineesAsian)
    else None
  }

  /**
   * The legend keys name four distinct properties every record is created
   * with, and together they hold the four counters; the misspelled property
   * is not among them, so what the "black" rows of later nominees add never
   * reaches the chart.
   */
  lemma {:induction false} GroupKeysNameCounters(s: YearSummary)
    ensures forall i, j :: 0 <= i < j < |Groups| ==> Groups[i].key != Groups[j].key
    ensures forall i :: 0 <= i < |Groups| ==> Property(s, Groups[i].key).Some?
    ensures Property(s, Groups[0].key).value + Property(s, Groups[1].key).value
      + Property(s, Groups[2].key).value + Property(s, Groups[3].key).value == CategorySum(s)
    ensures forall i :: 0 <= i < |Groups| ==> Groups[i].key != "nominees_afrodescendant"
  {
    assert Groups[0].key == "nominees_caucasian" && Groups[1].key == "nominees_afro_descendant";
    assert Groups[2].key == "nominees_hispanic" && Groups[3].key == "nominees_asian";
  }

  /** The codes the record creation and the switch compare against. */
  predicate Recognised(code: string) {
    code == "" || code == "black" || code == "hispanic" || code == "asian"
  }

  function Indicator(b: bool): nat {
    if b then 1 else 0
  }

  /** The category counter a recognised code belongs to. */
  function CounterOf(s: YearSummary, code: string): nat
    requires Recognised(code)
  {
    if code == "" then s.nomineesCaucasian
    else if code == "black" then s.nomineesAfroDescendant
    else if code == "hispanic" then s.nomineesHispanic
    else s.nomineesAsian
  }

  /** The sum of the four charted counters. */
  function CategorySum(s: YearSummary): nat {
    s.nomineesCaucasian + s.nomineesAfroDescendant + s.nomineesHispanic + s.nomineesAsian
  }

  /** Some record of the table has this year. */
  predicate HasYear(t: seq<YearSummary>, year: int) {
    exists i :: 0 <= i < |t| && t[i].year == year
  }

  /** Some row of the input has this year. */
  predicate Occurs(rows: seq<Row>, year: int) {
    exists i :: 0 <= i < |rows| && rows[i].year == year
  }

  /** A year occurs in a non-empty row sequence iff it occurs before the last row or in it. */
  lemma {:induction false} OccursLast(rows: seq<Row>)
    requires rows != []
    ensures forall y :: Occurs(rows, y) <==> Occurs(rows[..|rows| - 1], y) || rows[|rows| - 1].year == y
  {
    var p := rows[..|rows| - 1];
    forall y ensures Occurs(rows, y) <==> Occurs(p, y) || rows[|rows| - 1].year == y {
      if Occurs(rows, y) && rows[|rows| - 1].year != y {
        var i :| 0 <= i < |rows| && rows[i].year == y;
        assert p[i] == rows[i];
      }
      if Occurs(p, y) {
        var i :| 0 <= i < |p| && p[i].year == y;
        assert rows[i] == p[i];
      }
    }
  }

  /**
   * The record pushed for a year seen for the first time: a total of one and
   * exactly one of the four counters at one when the code is recognised,
   * none otherwise. The misspelled property does not exist yet.
   */
  function NewSummary(row: Row): (s: YearSummary)
    ensures s.year == row.year && s.nomineesTotal == 1
    ensures s.nomineesAfrodescendant == Undefined
    ensures Recognised(row.ethnicBackground) ==> CounterOf(s, row.ethnicBackground) == 1 && CategorySum(s) == 1
    ensures !Recognised(row.ethnicBackground) ==> CategorySum(s) == 0
  {
    YearSummary(
      row.year,
      1,
      if row.ethnicBackground == "" then 1 else 0,
      if row.ethnicBackground == "black" then 1 else 0,
      if row.ethnicBackground == "hispanic" then 1 else 0,
      if row.ethnicBackground == "asian" then 1 else 0,
      Undefined)
  }

  /**
   * The in-place update of an existing record: the total grows by one and so
   * does the counter of a recognised code, except that a "black" row touches
   * the misspelled property instead of `nominees_afro_descendant`. An
   * unrecognised code changes the total only.
   */
  function Bump(s: YearSummary, code: string): (r: YearSummary)
    ensures r.year == s.year && r.nomineesTotal == s.nomineesTotal + 1
    ensures r.nomineesAfroDescendant == s.nomineesAfroDescendant
    ensures Recognised(code) && code != "black" ==>
      CounterOf(r, code) == CounterOf(s, code) + 1 && CategorySum(r) == CategorySum(s) + 1
    ensures forall c :: Recognised(c) && c != code ==> CounterOf(r, c) == CounterOf(s, c)
    ensures code == "black" ==> r.nomineesAfrodescendant == NaN && CategorySum(r) == CategorySum(s)
    ensures code != "black" ==> r.nomineesAfrodescendant == s.nomineesAfrodescendant
    ensures !Recognised(code) ==> r == s.(nomineesTotal := s.nomineesTotal + 1)
  {
    var s' := s.(nomineesTotal := s.nomineesTotal + 1);
    if code == "" then s'.(nomineesCaucasian := s'.nomineesCaucasian + 1)
    else if code == "black" then s'.(nomineesAfrodescendant := NaN)
    else if code == "hispanic" then s'.(nomineesHispanic := s'.nomineesHispanic + 1)
    else if code == "asian" then s'.(nomineesAsian := s'.nomineesAsian + 1)
    else s'
  }

  /** The position of the first record with the given year, as `find` locates it. */
  function IndexOfYear(t: seq<YearSummary>, year: int): (r: Option<nat>)
    ensures r.None? <==> !HasYear(t, year)
    ensures r.Some? ==> r.value < |t| && t[r.value].year == year
    ensures r.Some? ==> forall i :: 0 <= i < r.value ==> t[i].year != year
  {
    if t == [] then None
    else if t[0].year == year then Some(0)
    else
      match IndexOfYear(t[1..], year)
      case None =>
        assert forall i :: 1 <= i < |t| ==> t[i] == t[1..][i - 1];
        None
      case Some(k) => Some(k + 1)
  }

  /**
   * One iteration of the scan: append a new record for an unseen year, or
   * update the first record with that year. Existing records keep their
   * positions and every record of another year is left as it was.
   */
  function Step(t: seq<YearSummary>, row: Row): (r: seq<YearSummary>)
    ensures |t| <= |r| <= |t| + 1
    ensures forall i :: 0 <= i < |t| ==> r[i].year == t[i].year
    ensures HasYear(t, row.year) ==> |r| == |t|
    ensures !HasYear(t, row.year) ==> |r| == |t| + 1 && r[|t|] == NewSummary(row)
    ensures forall i :: 0 <= i < |t| && t[i].year != row.year ==> r[i] == t[i]
    ensures HasYear(t, row.year) ==>
      exists j :: 0 <= j < |t| && t[j].year == row.year && r == t[j := Bump(t[j], row.ethnicBackground)]
  {
    match IndexOfYear(t, row.year)
    case None => t + [NewSummary(row)]
    case Some(j) => t[j := Bump(t[j], row.ethnicBackground)]
  }

  /**
   * `formattedData` after the scan of all rows. It is empty exactly when the
   * input is and holds at most one record per year; which years and what
   * counts it holds is `Reference.AggregateIsReference`.
   */
  function Aggregate(rows: seq<Row>): (t: seq<YearSummary>)
    ensures |t| <= |rows|
    ensures t == [] <==> rows == []
    ensures forall i, j :: 0 <= i < j < |t| ==> t[i].year != t[j].year
    decreases |rows|
  {
    if rows == [] then []
    else Step(Aggregate(rows[..|rows| - 1]), rows[|rows| - 1])
  }

  /** The scan of a non-empty input is one step after the scan of all but its last row. */
  lemma {:induction false} AggregateSnoc(p: seq<Row>, last: Row)
    ensures Aggregate(p + [last]) == Step(Aggregate(p), last)
  {
    var rows := p + [last];
    assert rows[..|rows| - 1] == p;
  }

  /** The scan of the first n + 1 rows is one step after the scan of the first n. */
  lemma {:induction false} AggregatePrefix(rows: seq<Row>, n: int)
    requires 0 <= n < |rows|
    ensures Aggregate(rows[..n + 1]) == Step(Aggregate(rows[..n]), rows[n])
  {
    assert rows[..n + 1][..n] == rows[..n];
  }
}
