/**
 * The aggregation as its chart evidently means it: a "black" row of a year
 * already seen counts under `nominees_afro_descendant`, the field the record
 * was created with and the legend charts, instead of the misspelled
 * `nominees_afrodescendant`. With that one change every counter counts the
 * rows of its code and the four counters add up to the total whenever every
 * code is recognised.
 */
module Intended {
  import opened Wrappers
  import opened Nominees
  import opened Reference

  /** The corrected update of an existing record: every recognised code bumps its own counter. */
  function BumpIntended(s: YearSummary, code: string): (r: YearSummary)
    ensures r.year == s.year && r.nomineesTotal == s.nomineesTotal + 1
    ensures Recognised(code) ==> CounterOf(r, code) == CounterOf(s, code) + 1
    ensures forall c :: Recognised(c) && c != code ==> CounterOf(r, c) == CounterOf(s, c)
    ensures CategorySum(r) == CategorySum(s) + Indicator(Recognised(code))
    ensures r.nomineesAfrodescendant == s.nomineesAfrodescendant
  {
    var s' := s.(nomineesTotal := s.nomineesTotal + 1);
    if code == "" then s'.(nomineesCaucasian := s'.nomineesCaucasian + 1)
    else if code == "black" then s'.(nomineesAfroDescendant := s'.nomineesAfroDescendant + 1)
    else if code == "hispanic" then s'.(nomineesHispanic := s'.nomineesHispanic + 1)
    else if code == "asian" then s'.(nomineesAsian := s'.nomineesAsian + 1)
    else s'
  }

  /** One iteration of the corrected scan. */
  function StepIntended(t: seq<YearSummary>, row: Row): (r: seq<YearSummary>)
    ensures |t| <= |r| <= |t| + 1
    ensures forall i :: 0 <= i < |t| ==> r[i].year == t[i].year
    ensures HasYear(t, row.year) ==> |r| == |t|
    ensures !HasYear(t, row.year) ==> |r| == |t| + 1 && r[|t|] == NewSummary(row)
    ensures forall i :: 0 <= i < |t| && t[i].year != row.year ==> r[i] == t[i]
  {
    match IndexOfYear(t, row.year)
    case None => t + [NewSummary(row)]
    case Some(j) => t[j := BumpIntended(t[j], row.ethnicBackground)]
  }

  /** The corrected scan of all rows. */
  function AggregateIntended(rows: seq<Row>): (t: seq<YearSummary>)
    ensures |t| <= |rows|
    ensures t == [] <==> rows == []
    decreases |rows|
  {
    if rows == [] then []
    else StepIntended(AggregateIntended(rows[..|rows| - 1]), rows[|rows| - 1])
  }

  /** A record with its afro-descendant counter replaced by the count of "black" rows of its year. */
  function Corrected(rows: seq<Row>, s: YearSummary): YearSummary {
    s.(nomineesAfroDescendant := CountCode(rows, s.year, "black"), nomineesAfrodescendant := Undefined)
  }

  function CorrectedTable(rows: seq<Row>, t: seq<YearSummary>): (c: seq<YearSummary>)
    ensures |c| == |t|
    ensures forall i :: 0 <= i < |t| ==> c[i] == Corrected(rows, t[i])
  {
    seq(|t|, i requires 0 <= i < |t| => Corrected(rows, t[i]))
  }

  /** The lookup depends on the years of the table only. */
  lemma {:induction false} IndexOfYearSameYears(t1: seq<YearSummary>, t2: seq<YearSummary>, year: int)
    requires |t1| == |t2| && forall i :: 0 <= i < |t1| ==> t1[i].year == t2[i].year
    ensures IndexOfYear(t1, year) == IndexOfYear(t2, year)
    decreases |t1|
  {
    if t1 != [] && t1[0].year != year {
      IndexOfYearSameYears(t1[1..], t2[1..], year);
    }
  }

  lemma {:induction false} CountCodeSnoc(p: seq<Row>, last: Row, year: int, code: string)
    ensures CountCode(p + [last], year, code) == CountCode(p, year, code) + Indicator(last.year == year && last.ethnicBackground == code)
  {
    var rows := p + [last];
    assert rows[..|rows| - 1] == p;
  }

  /** The corrected scan of a non-empty input is one step after the scan of all but its last row. */
  lemma {:induction false} AggregateIntendedSnoc(p: seq<Row>, last: Row)
    ensures AggregateIntended(p + [last]) == StepIntended(AggregateIntended(p), last)
  {
    var rows := p + [last];
    assert rows[..|rows| - 1] == p;
  }

  /** A row of another year leaves a corrected record as it was. */
  lemma {:induction false} CorrectedOther(p: seq<Row>, last: Row, s: YearSummary)
    requires s.year != last.year
    ensures Corrected(p + [last], s) == Corrected(p, s)
  {
    CountCodeSnoc(p, last, s.year, "black");
  }

  /** Correcting commutes with updating a record of the row's year. */
  lemma {:induction false} CorrectedSeen(p: seq<Row>, last: Row, s: YearSummary)
    requires s.year == last.year
    ensures Corrected(p + [last], Bump(s, last.ethnicBackground)) == BumpIntended(Corrected(p, s), last.ethnicBackground)
  {
    CountCodeSnoc(p, last, s.year, "black");
  }

  /** The record created for a new year needs no correction. */
  lemma {:induction false} CorrectedNew(p: seq<Row>, last: Row)
    requires !Occurs(p, last.year)
    ensures Corrected(p + [last], NewSummary(last)) == NewSummary(last)
  {
    CountCodeSnoc(p, last, last.year, "black");
    assert CountYear(p, last.year) == 0;
  }

  /** One row keeps the corrected scan equal to the corrected as-written scan. */
  lemma {:induction false} CorrectedStep(p: seq<Row>, last: Row)
    ensures StepIntended(CorrectedTable(p, Aggregate(p)), last) == CorrectedTable(p + [last], Step(Aggregate(p), last))
  {
    var t := Aggregate(p);
    var c := CorrectedTable(p, t);
    IndexOfYearSameYears(c, t, last.year);
    var r, r' := StepIntended(c, last), CorrectedTable(p + [last], Step(t, last));
    assert |r| == |r'|;
    forall i | 0 <= i < |t| && t[i].year != last.year ensures r[i] == r'[i] {
      CorrectedOther(p, last, t[i]);
    }
    match IndexOfYear(t, last.year)
    case None =>
      if Occurs(p, last.year) {
        AggregateCoversYears(p, last.year);
        assert false;
      }
      CorrectedNew(p, last);
    case Some(j) =>
      CorrectedSeen(p, last, t[j]);
  }

  /** The induction step of `AggregateIntendedIsCorrected`. */
  lemma {:induction false} AggregateIntendedSnocIsCorrected(p: seq<Row>, last: Row)
    requires AggregateIntended(p) == CorrectedTable(p, Aggregate(p))
    ensures AggregateIntended(p + [last]) == CorrectedTable(p + [last], Aggregate(p + [last]))
  {
    AggregateSnoc(p, last);
    AggregateIntendedSnoc(p, last);
    CorrectedStep(p, last);
  }

  /** The corrected scan is the as-written scan with every afro-descendant counter corrected. */
  lemma {:induction false} AggregateIntendedIsCorrected(rows: seq<Row>)
    ensures AggregateIntended(rows) == CorrectedTable(rows, Aggregate(rows))
    decreases |rows|
  {
    if rows != [] {
      var p, last := rows[..|rows| - 1], rows[|rows| - 1];
      assert rows == p + [last];
      AggregateIntendedIsCorrected(p);
      AggregateIntendedSnocIsCorrected(p, last);
    }
  }

  /**
   * The promise of the chart: in the corrected table every counter counts
   * the rows of its year with its code, and the total is the four counters
   * plus the rows whose code is none of the four.
   */
  lemma {:induction false} AggregateIntendedCounts(rows: seq<Row>, i: int)
    requires 0 <= i < |AggregateIntended(rows)|
    ensures Occurs(rows, AggregateIntended(rows)[i].year)
    ensures AggregateIntended(rows)[i].nomineesTotal == CountYear(rows, AggregateIntended(rows)[i].year)
    ensures forall c :: Recognised(c) ==>
      CounterOf(AggregateIntended(rows)[i], c) == CountCode(rows, AggregateIntended(rows)[i].year, c)
    ensures AggregateIntended(rows)[i].nomineesAfrodescendant == Undefined
    ensures AggregateIntended(rows)[i].nomineesTotal ==
      CategorySum(AggregateIntended(rows)[i]) + CountUnrecognised(rows, AggregateIntended(rows)[i].year)
  {
    AggregateIntendedIsCorrected(rows);
    AggregateRecordCounts(rows, i);
    CountYearSplits(rows, Aggregate(rows)[i].year);
  }

  /** The correction changes no year and no position: both scans list the same years in the same order. */
  lemma {:induction false} AggregateIntendedSameYears(rows: seq<Row>)
    ensures |AggregateIntended(rows)| == |Aggregate(rows)|
    ensures forall i :: 0 <= i < |Aggregate(rows)| ==> AggregateIntended(rows)[i].year == Aggregate(rows)[i].year
  {
    AggregateIntendedIsCorrected(rows);
  }

  /**
   * As written, for a ceremony of two nominees, the first with code "" and
   * the second "black", followed by a ceremony of one "asian" nominee (say
   * 1990 and 1991): the "black" row is counted in the total but in no charted
   * counter, `nominees_afro_descendant` stays 0, the misspelled property
   * becomes NaN, and the counters of the first ceremony add up to 1 of 2.
   */
  lemma {:induction false} ScenarioAsWritten(y1: int, y2: int)
    requires y1 != y2
    ensures Aggregate([Row(y1, ""), Row(y1, "black"), Row(y2, "asian")])
      == [YearSummary(y1, 2, 1, 0, 0, 0, NaN), YearSummary(y2, 1, 0, 0, 0, 1, Undefined)]
    ensures CategorySum(Aggregate([Row(y1, ""), Row(y1, "black"), Row(y2, "asian")])[0]) == 1
  {
    var r0, r1, r2 := Row(y1, ""), Row(y1, "black"), Row(y2, "asian");
    var t1 := [YearSummary(y1, 1, 1, 0, 0, 0, Undefined)];
    var t2 := [YearSummary(y1, 2, 1, 0, 0, 0, NaN)];
    AggregateSnoc([], r0);
    assert [] + [r0] == [r0];
    assert Aggregate([r0]) == t1;
    AggregateSnoc([r0], r1);
    assert [r0] + [r1] == [r0, r1];
    assert IndexOfYear(t1, y1) == Some(0);
    assert Aggregate([r0, r1]) == t2;
    AggregateSnoc([r0, r1], r2);
    assert [r0, r1] + [r2] == [r0, r1, r2];
    assert !HasYear(t2, y2);
  }

  /** Corrected, the same input gives the first ceremony one afro-descendant nominee and counters that add up. */
  lemma {:induction false} ScenarioIntended(y1: int, y2: int)
    requires y1 != y2
    ensures AggregateIntended([Row(y1, ""), Row(y1, "black"), Row(y2, "asian")])
      == [YearSummary(y1, 2, 1, 1, 0, 0, Undefined), YearSummary(y2, 1, 0, 0, 0, 1, Undefined)]
    ensures CategorySum(AggregateIntended([Row(y1, ""), Row(y1, "black"), Row(y2, "asian")])[0]) == 2
  {
    var r0, r1, r2 := Row(y1, ""), Row(y1, "black"), Row(y2, "asian");
    var t1 := [YearSummary(y1, 1, 1, 0, 0, 0, Undefined)];
    var t2 := [YearSummary(y1, 2, 1, 1, 0, 0, Undefined)];
    AggregateIntendedSnoc([], r0);
    assert [] + [r0] == [r0];
    assert AggregateIntended([r0]) == t1;
    AggregateIntendedSnoc([r0], r1);
    assert [r0] + [r1] == [r0, r1];
    assert IndexOfYear(t1, y1) == Some(0);
    assert AggregateIntended([r0, r1]) == t2;
    AggregateIntendedSnoc([r0, r1], r2);
    assert [r0, r1] + [r2] == [r0, r1, r2];
    assert !HasYear(t2, y2);
  }
}
