/**
 * The aggregation as the page runs it: `formattedData` is a list of mutable
 * ceremony objects, `find` scans it for the first ceremony of a year, and a
 * row of a year already seen updates that object in place. Each step is
 * proved against the value-level functions of module Nominees.
 */
module Formatting {
  import opened Wrappers
  import opened Nominees

  /** One ceremony object of `formattedData`; its fields are the record's properties. */
  class Ceremony {
    var year: int
    var nomineesTotal: nat
    var nomineesCaucasian: nat
    var nomineesAfroDescendant: nat
    var nomineesHispanic: nat
    var nomineesAsian: nat
    /** The misspelled property: absent until a later "black" row, then NaN. */
    var nomineesAfrodescendant: StrayField

    /** The object's properties as a value. */
    function View(): YearSummary
      reads this
    {
      YearSummary(year, nomineesTotal, nomineesCaucasian, nomineesAfroDescendant,
                  nomineesHispanic, nomineesAsian, nomineesAfrodescendant)
    }

    /** The object literal built for the first row of a year. */
    constructor (d: Row)
      ensures View() == NewSummary(d)
    {
      year := d.year;
      nomineesTotal := 1;
      nomineesCaucasian := if d.ethnicBackground == "" then 1 else 0;
      nomineesAfroDescendant := if d.ethnicBackground == "black" then 1 else 0;
      nomineesHispanic := if d.ethnicBackground == "hispanic" then 1 else 0;
      nomineesAsian := if d.ethnicBackground == "asian" then 1 else 0;
      nomineesAfrodescendant := Undefined;
    }

    /**
     * The in-place update for a later row of the same year: the total, then
     * the switch on the code, which has no default case. The "black" case
     * adds one to the misspelled property, turning it into NaN.
     */
    method Count(ethnicBackground: string)
      modifies this
      ensures View() == Bump(old(View()), ethnicBackground)
    {
      nomineesTotal := nomineesTotal + 1;
      if ethnicBackground == "" {
        nomineesCaucasian := nomineesCaucasian + 1;
      } else if ethnicBackground == "black" {
        nomineesAfrodescendant := NaN;
      } else if ethnicBackground == "hispanic" {
        nomineesHispanic := nomineesHispanic + 1;
      } else if ethnicBackground == "asian" {
        nomineesAsian := nomineesAsian + 1;
      }
    }
  }

  /** The records the objects currently hold, in list order. */
  ghost function Snapshot(formattedData: seq<Ceremony>): (v: seq<YearSummary>)
    reads set c | c in formattedData
    ensures |v| == |formattedData|
    ensures forall i :: 0 <= i < |formattedData| ==> v[i] == formattedData[i].View()
  {
    seq(|formattedData|, i reads formattedData requires 0 <= i < |formattedData| => formattedData[i].View())
  }

  /** No object occurs twice in the list. */
  predicate Distinct(formattedData: seq<Ceremony>) {
    forall i, j :: 0 <= i < j < |formattedData| ==> formattedData[i] != formattedData[j]
  }

  /**
   * `find` with the test "has this year": the first ceremony of the year, or
   * null (JavaScript's `undefined`) when there is none. It is the object at
   * the position `IndexOfYear` names.
   */
  method Find(formattedData: seq<Ceremony>, year: int) returns (found: Ceremony?)
    ensures found == null <==> forall i :: 0 <= i < |formattedData| ==> formattedData[i].year != year
    ensures found == null <==> IndexOfYear(Snapshot(formattedData), year).None?
    ensures found != null ==>
      IndexOfYear(Snapshot(formattedData), year).Some? &&
      found == formattedData[IndexOfYear(Snapshot(formattedData), year).value]
  {
    var i := 0;
    while i < |formattedData|
      invariant 0 <= i <= |formattedData|
      invariant forall k :: 0 <= k < i ==> formattedData[k].year != year
    {
      if formattedData[i].year == year {
        assert Snapshot(formattedData)[i].year == year;
        return formattedData[i];
      }
      i := i + 1;
    }
    return null;
  }

  /**
   * The callback `forEach` runs for one row: when no ceremony has the row's
   * year a new one is pushed, otherwise the ceremony `find` returns is
   * updated in place. No other ceremony changes, and the list stays free of
   * repeated objects.
   */
  method FormatRow(formattedData: seq<Ceremony>, d: Row) returns (next: seq<Ceremony>)
    requires Distinct(formattedData)
    modifies set c | c in formattedData
    ensures Snapshot(next) == Step(old(Snapshot(formattedData)), d)
    ensures Distinct(next)
    ensures forall c :: c in next ==> c in formattedData || fresh(c)
  {
    var currentYear := d.year;
    var existing := Find(formattedData, currentYear);
    if existing == null {
      var ceremony := new Ceremony(d);
      next := formattedData + [ceremony];
    } else {
      var ceremony := Find(formattedData, d.year);
      ghost var k := IndexOfYear(Snapshot(formattedData), d.year).value;
      ceremony.Count(d.ethnicBackground);
      next := formattedData;
      assert Snapshot(next) == old(Snapshot(formattedData))[k := Bump(old(Snapshot(formattedData))[k], d.ethnicBackground)];
    }
  }

  /**
   * The `data.forEach` loop over the parsed rows. The list ends holding
   * exactly the records `Aggregate` describes, each in an object of its own
   * created by this pass.
   */
  method FormatData(data: seq<Row>) returns (formattedData: seq<Ceremony>)
    ensures Snapshot(formattedData) == Aggregate(data)
    ensures Distinct(formattedData)
    ensures forall c :: c in formattedData ==> fresh(c)
  {
    formattedData := [];
    for n := 0 to |data|
      invariant Snapshot(formattedData) == Aggregate(data[..n])
      invariant Distinct(formattedData)
      invariant forall c :: c in formattedData ==> fresh(c)
    {
      AggregatePrefix(data, n);
      formattedData := FormatRow(formattedData, data[n]);
    }
    assert data[..|data|] == data;
  }
}
