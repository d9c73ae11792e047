/**
 * An independent description of what the aggregation should produce, stated
 * from the whole input rather than row by row: for each distinct year, in the
 * order of first occurrence, the number of rows with that year and with each
 * code, and the code of the first row of that year. The main theorem says
 * that the row-by-row scan of module Nominees yields exactly this table.
 */
module Reference {
  import opened Wrappers
  import opened Nominees

  /** Some row has this year and this code. */
  predicate OccursAs(rows: seq<Row>, year: int, code: string) {
    exists i :: 0 <= i < |rows| && rows[i].year == year && rows[i].ethnicBackground == code
  }

  lemma {:induction false} OccursAsLast(rows: seq<Row>, year: int, code: string)
    requires rows != []
    ensures OccursAs(rows, year, code) <==>
      OccursAs(rows[..|rows| - 1], year, code) || (rows[|rows| - 1].year == year && rows[|rows| - 1].ethnicBackground == code)
  {
    var p := rows[..|rows| - 1];
    if OccursAs(rows, year, code) && !(rows[|rows| - 1].year == year && rows[|rows| - 1].ethnicBackground == code) {
      var i :| 0 <= i < |rows| && rows[i].year == year && rows[i].ethnicBackground == code;
      assert p[i] == rows[i];
    }
    if OccursAs(p, year, code) {
      var i :| 0 <= i < |p| && p[i].year == year && p[i].ethnicBackground == code;
      assert rows[i] == p[i];
    }
  }

  /** The number of rows with the given year. */
  function CountYear(rows: seq<Row>, year: int): (n: nat)
    ensures n <= |rows|
    ensures n > 0 <==> Occurs(rows, year)
    decreases |rows|
  {
    if rows == [] then 0
    else
      OccursLast(rows);
      CountYear(rows[..|rows| - 1], year) + Indicator(rows[|rows| - 1].year == year)
  }

  /** The number of rows with the given year and the given code. */
  function CountCode(rows: seq<Row>, year: int, code: string): (n: nat)
    ensures n <= CountYear(rows, year)
    ensures n > 0 <==> OccursAs(rows, year, code)
    decreases |rows|
  {
    if rows == [] then 0
    else
      OccursAsLast(rows, year, code);
      CountCode(rows[..|rows| - 1], year, code)
        + Indicator(rows[|rows| - 1].year == year && rows[|rows| - 1].ethnicBackground == code)
  }

  /** The number of rows with the given year whose code is none of the four recognised ones. */
  function CountUnrecognised(rows: seq<Row>, year: int): (n: nat)
    ensures n <= CountYear(rows, year)
    decreases |rows|
  {
    if rows == [] then 0
    else
      CountUnrecognised(rows[..|rows| - 1], year)
        + Indicator(rows[|rows| - 1].year == year && !Recognised(rows[|rows| - 1].ethnicBackground))
  }

  /** Every row of a year is counted once: under one of the four codes or as unrecognised. */
  lemma {:induction false} CountYearSplits(rows: seq<Row>, year: int)
    ensures CountYear(rows, year) ==
      CountCode(rows, year, "") + CountCode(rows, year, "black") + CountCode(rows, year, "hispanic")
      + CountCode(rows, year, "asian") + CountUnrecognised(rows, year)
    decreases |rows|
  {
    if rows != [] {
      CountYearSplits(rows[..|rows| - 1], year);
    }
  }

  /** The distinct years of the input, in the order of their first occurrence. */
  function DistinctYears(rows: seq<Row>): (d: seq<int>)
    ensures forall i :: 0 <= i < |d| ==> Occurs(rows, d[i])
    ensures forall y :: Occurs(rows, y) ==> y in d
    ensures forall i, j :: 0 <= i < j < |d| ==> d[i] != d[j]
    decreases |rows|
  {
    if rows == [] then []
    else
      var p := DistinctYears(rows[..|rows| - 1]);
      OccursLast(rows);
      if rows[|rows| - 1].year in p then p else p + [rows[|rows| - 1].year]
  }

  /** The position of the first row with the given year. */
  function FirstIndex(rows: seq<Row>, year: int): (k: nat)
    requires Occurs(rows, year)
    ensures k < |rows| && rows[k].year == year
    ensures forall i :: 0 <= i < k ==> rows[i].year != year
    decreases |rows|
  {
    OccursLast(rows);
    var p := rows[..|rows| - 1];
    if Occurs(p, year) then
      var k := FirstIndex(p, year);
      assert forall i :: 0 <= i < k ==> rows[i] == p[i];
      k
    else
      assert forall i :: 0 <= i < |p| ==> rows[i] == p[i];
      |rows| - 1
  }

  /** Some "black" row of the year comes after the first row of that year. */
  predicate BlackAfterFirst(rows: seq<Row>, year: int)
    requires Occurs(rows, year)
  {
    exists k :: FirstIndex(rows, year) < k < |rows| && rows[k].year == year && rows[k].ethnicBackground == "black"
  }

  /**
   * The record the scan should hold for a year of the input: totals and the
   * three correctly updated counters are counts over the whole input;
   * `nominees_afro_descendant` reflects the first row of the year only; the
   * misspelled property is NaN once a later "black" row of the year is seen.
   */
  function Expected(rows: seq<Row>, year: int): YearSummary
    requires Occurs(rows, year)
  {
    YearSummary(
      year,
      CountYear(rows, year),
      CountCode(rows, year, ""),
      Indicator(rows[FirstIndex(rows, year)].ethnicBackground == "black"),
      CountCode(rows, year, "hispanic"),
      CountCode(rows, year, "asian"),
      if BlackAfterFirst(rows, year) then NaN else Undefined)
  }

  /** The expected table: one record per distinct year, in first-occurrence order. */
  function ReferenceTable(rows: seq<Row>): (t: seq<YearSummary>)
    ensures |t| == |DistinctYears(rows)|
    ensures forall i :: 0 <= i < |t| ==> t[i] == Expected(rows, DistinctYears(rows)[i])
  {
    var d := DistinctYears(rows);
    seq(|d|, i requires 0 <= i < |d| => Expected(rows, d[i]))
  }

  /**
   * Appending a row keeps the first row of a year already seen, and a later
   * "black" row of that year exists afterwards iff it existed before or the
   * appended row is one.
   */
  lemma {:induction false} FirstIndexLast(rows: seq<Row>, year: int)
    requires rows != [] && Occurs(rows[..|rows| - 1], year)
    ensures Occurs(rows, year)
    ensures FirstIndex(rows, year) == FirstIndex(rows[..|rows| - 1], year)
    ensures BlackAfterFirst(rows, year) <==>
      (BlackAfterFirst(rows[..|rows| - 1], year) || (rows[|rows| - 1].year == year && rows[|rows| - 1].ethnicBackground == "black"))
  {
    var p, last := rows[..|rows| - 1], rows[|rows| - 1];
    OccursLast(rows);
    var f := FirstIndex(p, year);
    assert FirstIndex(rows, year) == f;
    if BlackAfterFirst(rows, year) && !(last.year == year && last.ethnicBackground == "black") {
      var k :| f < k < |rows| && rows[k].year == year && rows[k].ethnicBackground == "black";
      assert p[k] == rows[k];
    }
    if BlackAfterFirst(p, year) {
      var k :| f < k < |p| && p[k].year == year && p[k].ethnicBackground == "black";
      assert rows[k] == p[k];
    }
    if last.year == year && last.ethnicBackground == "black" {
      assert f < |rows| - 1;
    }
  }

  /** Appending a row of another year leaves a year's expected record as it was. */
  lemma {:induction false} ExpectedLastOther(rows: seq<Row>, year: int)
    requires rows != [] && Occurs(rows[..|rows| - 1], year) && rows[|rows| - 1].year != year
    ensures Occurs(rows, year)
    ensures Expected(rows, year) == Expected(rows[..|rows| - 1], year)
  {
    FirstIndexLast(rows, year);
    assert rows[FirstIndex(rows, year)] == rows[..|rows| - 1][FirstIndex(rows, year)];
  }

  /** Appending a row of a year already seen bumps that year's expected record. */
  lemma {:induction false} ExpectedLastSame(rows: seq<Row>)
    requires rows != [] && Occurs(rows[..|rows| - 1], rows[|rows| - 1].year)
    ensures Occurs(rows, rows[|rows| - 1].year)
    ensures Expected(rows, rows[|rows| - 1].year)
         == Bump(Expected(rows[..|rows| - 1], rows[|rows| - 1].year), rows[|rows| - 1].ethnicBackground)
  {
    var year := rows[|rows| - 1].year;
    FirstIndexLast(rows, year);
    assert rows[FirstIndex(rows, year)] == rows[..|rows| - 1][FirstIndex(rows, year)];
  }

  /** Appending a row of a new year yields the record the scan creates for it. */
  lemma {:induction false} ExpectedLastNew(rows: seq<Row>)
    requires rows != [] && !Occurs(rows[..|rows| - 1], rows[|rows| - 1].year)
    ensures Occurs(rows, rows[|rows| - 1].year)
    ensures Expected(rows, rows[|rows| - 1].year) == NewSummary(rows[|rows| - 1])
  {
    OccursLast(rows);
    var year := rows[|rows| - 1].year;
    assert FirstIndex(rows, year) == |rows| - 1;
    assert !BlackAfterFirst(rows, year);
  }

  /** In a table whose years are distinct, the lookup finds the one record of the year. */
  lemma {:induction false} IndexOfDistinctYear(t: seq<YearSummary>, j: int)
    requires 0 <= j < |t|
    requires forall a, b :: 0 <= a < b < |t| ==> t[a].year != t[b].year
    ensures IndexOfYear(t, t[j].year) == Some(j)
  {
    var found := IndexOfYear(t, t[j].year);
    assert HasYear(t, t[j].year);
    assert found.Some?;
  }

  /** Appending a row of a year already seen bumps that year's record of the reference table. */
  lemma {:induction false} ReferenceTableLastSeen(p: seq<Row>, last: Row, j: int)
    requires 0 <= j < |DistinctYears(p)| && DistinctYears(p)[j] == last.year
    ensures ReferenceTable(p + [last]) == ReferenceTable(p)[j := Bump(ReferenceTable(p)[j], last.ethnicBackground)]
  {
    var rows := p + [last];
    assert rows[..|rows| - 1] == p;
    var d := DistinctYears(p);
    assert DistinctYears(rows) == d;
    var r, r' := ReferenceTable(p), ReferenceTable(rows);
    forall i | 0 <= i < |d| ensures r'[i] == r[j := Bump(r[j], last.ethnicBackground)][i] {
      if i != j {
        ExpectedLastOther(rows, d[i]);
      } else {
        ExpectedLastSame(rows);
      }
    }
  }

  /** Appending a row of a new year appends the record the scan creates for it to the reference table. */
  lemma {:induction false} ReferenceTableLastNew(p: seq<Row>, last: Row)
    requires !Occurs(p, last.year)
    ensures ReferenceTable(p + [last]) == ReferenceTable(p) + [NewSummary(last)]
  {
    var rows := p + [last];
    assert rows[..|rows| - 1] == p;
    var d := DistinctYears(p);
    assert DistinctYears(rows) == d + [last.year];
    ExpectedLastNew(rows);
    var r, r' := ReferenceTable(p), ReferenceTable(rows);
    forall i | 0 <= i < |d| ensures r'[i] == r[i] {
      ExpectedLastOther(rows, d[i]);
    }
  }

  /** The induction step of the main theorem: one more row keeps the scan equal to the reference table. */
  lemma {:induction false} AggregateSnocIsReference(p: seq<Row>, last: Row)
    requires Aggregate(p) == ReferenceTable(p)
    ensures Aggregate(p + [last]) == ReferenceTable(p + [last])
  {
    AggregateSnoc(p, last);
    var t, d := Aggregate(p), DistinctYears(p);
    if Occurs(p, last.year) {
      var j :| 0 <= j < |d| && d[j] == last.year;
      assert t[j].year == last.year;
      IndexOfDistinctYear(t, j);
      ReferenceTableLastSeen(p, last, j);
    } else {
      assert !HasYear(t, last.year) by {
        forall i | 0 <= i < |t| ensures t[i].year != last.year {
          assert t[i].year == d[i] && Occurs(p, d[i]);
        }
      }
      ReferenceTableLastNew(p, last);
    }
  }

  /**
   * The main theorem: the row-by-row scan builds exactly the reference table,
   * one record per distinct year in first-occurrence order.
   */
  lemma {:induction false} AggregateIsReference(rows: seq<Row>)
    ensures Aggregate(rows) == ReferenceTable(rows)
    decreases |rows|
  {
    if rows != [] {
      var p, last := rows[..|rows| - 1], rows[|rows| - 1];
      assert rows == p + [last];
      AggregateIsReference(p);
      AggregateSnocIsReference(p, last);
    }
  }

  /** Records appear in the order in which their years first occur in the input. */
  lemma {:induction false} DistinctYearsInFirstOccurrenceOrder(rows: seq<Row>, i: nat, j: nat)
    requires i < j < |DistinctYears(rows)|
    ensures FirstIndex(rows, DistinctYears(rows)[i]) < FirstIndex(rows, DistinctYears(rows)[j])
    decreases |rows|
  {
    var p, last := rows[..|rows| - 1], rows[|rows| - 1];
    var d, dp := DistinctYears(rows), DistinctYears(p);
    OccursLast(rows);
    if j < |dp| {
      DistinctYearsInFirstOccurrenceOrder(p, i, j);
      assert FirstIndex(rows, d[i]) == FirstIndex(p, d[i]);
    } else {
      assert FirstIndex(rows, d[i]) == FirstIndex(p, d[i]);
      assert FirstIndex(rows, d[j]) == |rows| - 1;
    }
  }

  /** Every year of the input has a record. */
  lemma {:induction false} AggregateCoversYears(rows: seq<Row>, year: int)
    requires Occurs(rows, year)
    ensures HasYear(Aggregate(rows), year)
  {
    AggregateIsReference(rows);
    var d := DistinctYears(rows);
    var i :| 0 <= i < |d| && d[i] == year;
    assert Aggregate(rows)[i].year == year;
  }

  /**
   * What each record holds: the number of rows of its year, the number of
   * rows of its year with code "", "hispanic" and "asian", for
   * `nominees_afro_descendant` only whether the first row of its year was
   * "black", and a NaN misspelled property exactly when a later row of its
   * year was "black".
   */
  lemma {:induction false} AggregateRecordCounts(rows: seq<Row>, i: int)
    requires 0 <= i < |Aggregate(rows)|
    ensures Occurs(rows, Aggregate(rows)[i].year)
    ensures Aggregate(rows)[i].nomineesTotal == CountYear(rows, Aggregate(rows)[i].year) >= 1
    ensures Aggregate(rows)[i].nomineesCaucasian == CountCode(rows, Aggregate(rows)[i].year, "")
    ensures Aggregate(rows)[i].nomineesHispanic == CountCode(rows, Aggregate(rows)[i].year, "hispanic")
    ensures Aggregate(rows)[i].nomineesAsian == CountCode(rows, Aggregate(rows)[i].year, "asian")
    ensures Aggregate(rows)[i].nomineesAfroDescendant ==
      Indicator(rows[FirstIndex(rows, Aggregate(rows)[i].year)].ethnicBackground == "black")
    ensures Aggregate(rows)[i].nomineesAfrodescendant == NaN <==>
      exists k :: FirstIndex(rows, Aggregate(rows)[i].year) < k < |rows|
        && rows[k].year == Aggregate(rows)[i].year && rows[k].ethnicBackground == "black"
  {
    AggregateIsReference(rows);
    assert Aggregate(rows)[i] == Expected(rows, DistinctYears(rows)[i]);
  }

  /**
   * As written the counters do not add up to the total: the total exceeds
   * their sum by the rows with an unrecognised code plus the "black" rows
   * the misspelled property swallowed.
   */
  lemma {:induction false} AggregateCategoryShortfall(rows: seq<Row>, i: int)
    requires 0 <= i < |Aggregate(rows)|
    ensures Aggregate(rows)[i].nomineesAfroDescendant <= CountCode(rows, Aggregate(rows)[i].year, "black")
    ensures Aggregate(rows)[i].nomineesTotal == CategorySum(Aggregate(rows)[i])
      + CountUnrecognised(rows, Aggregate(rows)[i].year)
      + (CountCode(rows, Aggregate(rows)[i].year, "black") - Aggregate(rows)[i].nomineesAfroDescendant)
  {
    var s := Aggregate(rows)[i];
    AggregateRecordCounts(rows, i);
    var f := FirstIndex(rows, s.year);
    if rows[f].ethnicBackground == "black" {
      assert OccursAs(rows, s.year, "black");
    }
    CountYearSplits(rows, s.year);
  }

  /** Records appear in the order in which their years first occur in the input. */
  lemma {:induction false} AggregateFirstOccurrenceOrder(rows: seq<Row>, i: int, j: int)
    requires 0 <= i < j < |Aggregate(rows)|
    ensures Occurs(rows, Aggregate(rows)[i].year) && Occurs(rows, Aggregate(rows)[j].year)
    ensures FirstIndex(rows, Aggregate(rows)[i].year) < FirstIndex(rows, Aggregate(rows)[j].year)
  {
    AggregateIsReference(rows);
    DistinctYearsInFirstOccurrenceOrder(rows, i, j);
  }

  /**
   * Records are only ever appended and updated, never moved or removed: after
   * more rows, the table lists the years it held at the same positions.
   */
  lemma {:induction false} AggregateExtendYears(p: seq<Row>, q: seq<Row>)
    ensures |Aggregate(p)| <= |Aggregate(p + q)|
    ensures forall i :: 0 <= i < |Aggregate(p)| ==> Aggregate(p + q)[i].year == Aggregate(p)[i].year
    decreases |q|
  {
    if q == [] {
      assert p + q == p;
    } else {
      var q', x := q[..|q| - 1], q[|q| - 1];
      assert q == q' + [x];
      assert p + q == (p + q') + [x];
      AggregateExtendYears(p, q');
      AggregateSnoc(p + q', x);
      var a, b, c := Aggregate(p), Aggregate(p + q'), Aggregate(p + q);
      assert c == Step(b, x);
      forall i | 0 <= i < |a| ensures c[i].year == a[i].year {
        assert b[i].year == a[i].year;
      }
    }
  }
}
