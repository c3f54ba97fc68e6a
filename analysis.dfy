/**
 * The analysis step end to end: filter, report "no matching data" when
 * nothing is left, otherwise aggregate and compute the retention metrics
 * for 2022, 2023 and 2024.
 */
module Analysis {
  import opened Wrappers
  import opened Records
  import opened Filters
  import opened Cohorts
  import opened Retention

  /** What pressing "analyse" yields: the distinct no-data outcome, or the table and its metrics. */
  datatype Outcome = NoMatchingData | Report(table: Table, metrics: Metrics)

  method Analyze(rows: seq<Row>, s: Selections) returns (o: Outcome)
    ensures o.NoMatchingData? <==> Selected(rows, Constraints(s)) == []
    ensures o.Report? ==> o.table == Aggregate(Selected(rows, Constraints(s)))
    ensures o.Report? ==> o.metrics == MetricsOf(o.table, Analysed)
  {
    var filtered := ApplyFilters(rows, s);
    if |filtered| == 0 {
      o := NoMatchingData;
    } else {
      var table := Aggregate(filtered);
      var metrics := RetentionMetrics(table, Analysed);
      o := Report(table, metrics);
    }
  }

  /**
   * Picking, in one multiselect and without the sentinel, only values that no
   * row carries in that column (or picking nothing) leaves no row, so the run
   * takes the no-data outcome.
   */
  lemma UnmatchedSelectionMeansNoData(rows: seq<Row>, s: Selections, k: nat)
    requires k < 4
    requires All !in Constraints(s)[k].selection
    requires forall r :: r in rows ==>
               Attribute(r, Constraints(s)[k].dimension).None?
               || Attribute(r, Constraints(s)[k].dimension).value !in Constraints(s)[k].selection
    ensures Selected(rows, Constraints(s)) == []
  {
    UnmatchedSelectionSelectsNothing(rows, Constraints(s), k);
  }

  // ---------------------------------------------------------------------
  // A worked example: A buys in 2023 and 2024, B only in 2022, C in all three
  // ---------------------------------------------------------------------

  function Sale(id: string, year: int): Row
  {
    Row(Some(id), Some(id), Some(year), None, None, None, None)
  }

  function ExampleRows(): seq<Row>
  {
    [Sale("A", 2023), Sale("A", 2023), Sale("A", 2024),
     Sale("B", 2022), Sale("B", 2022),
     Sale("C", 2022), Sale("C", 2023), Sale("C", 2024), Sale("C", 2024),
     Row(None, Some("D"), Some(2024), None, None, None, None)]
  }

  lemma ExampleCohorts()
    ensures Cohort(ExampleRows(), 2022) == {Customer("B", "B"), Customer("C", "C")}
    ensures Cohort(ExampleRows(), 2023) == {Customer("A", "A"), Customer("C", "C")}
    ensures Cohort(ExampleRows(), 2024) == {Customer("A", "A"), Customer("C", "C")}
  {
    var rows := ExampleRows();
    forall c ensures c in Cohort(rows, 2022) <==> c == Customer("B", "B") || c == Customer("C", "C") {
      if c == Customer("B", "B") { assert rows[3] in rows; }
      if c == Customer("C", "C") { assert rows[5] in rows; }
    }
    forall c ensures c in Cohort(rows, 2023) <==> c == Customer("A", "A") || c == Customer("C", "C") {
      if c == Customer("A", "A") { assert rows[0] in rows; }
      if c == Customer("C", "C") { assert rows[6] in rows; }
    }
    forall c ensures c in Cohort(rows, 2024) <==> c == Customer("A", "A") || c == Customer("C", "C") {
      if c == Customer("A", "A") { assert rows[2] in rows; }
      if c == Customer("C", "C") { assert rows[7] in rows; }
    }
  }

  /** Metrics that record cohort sizes 2, 2 and 2 and overlaps 1, 2, 1 and 1 have these percentages. */
  lemma ExampleArithmetic(m: Metrics)
    requires forall y :: y in m.clientsPerYear ==> y == 2022 || y == 2023 || y == 2024
    requires 2022 in m.clientsPerYear && 2023 in m.clientsPerYear && 2024 in m.clientsPerYear
    requires m.clientsPerYear[2022] == 2 && m.clientsPerYear[2023] == 2 && m.clientsPerYear[2024] == 2
    requires m.firstSecond == 1 && m.secondThird == 2 && m.firstThird == 1 && m.allThree == 1
    requires |m.percentages| == 4
    requires forall i :: 0 <= i < 4 ==>
      m.percentages[i] == Percent([m.firstSecond, m.secondThird, m.firstThird, m.allThree][i], 2)
    ensures m.clientsPerYear == map[2022 := 2, 2023 := 2, 2024 := 2]
    ensures m.percentages == [50.0, 100.0, 50.0, 50.0]
  {
    forall y ensures y in m.clientsPerYear <==> y in {2022, 2023, 2024} {
    }
    assert m.clientsPerYear.Keys == {2022, 2023, 2024};
    var p := m.percentages;
    assert p[0] == Percent(1, 2) && p[1] == Percent(2, 2) && p[2] == Percent(1, 2) && p[3] == Percent(1, 2);
    assert p[0] * 2.0 == 100.0 && p[1] * 2.0 == 200.0 && p[2] * 2.0 == 100.0 && p[3] * 2.0 == 100.0;
    assert p == [p[0], p[1], p[2], p[3]];
  }

  /** The sizes of the example's cohorts and of their intersections. */
  lemma ExampleSizes()
    ensures var (a, b, c) := (Customer("A", "A"), Customer("B", "B"), Customer("C", "C"));
      && |{b, c}| == 2 && |{a, c}| == 2
      && |{b, c} * {a, c}| == 1 && |{a, c} * {a, c}| == 2 && |{b, c} * {a, c} * {a, c}| == 1
  {
    var (a, b, c) := (Customer("A", "A"), Customer("B", "B"), Customer("C", "C"));
    assert {b, c} * {a, c} == {c};
    assert {a, c} * {a, c} == {a, c};
    assert {b, c} * {a, c} * {a, c} == {c};
  }

  /** Whatever the rows, cohorts {B, C}, {A, C} and {A, C} for 2022, 2023 and 2024 give these metrics. */
  lemma MetricsOfExampleCohorts(rows: seq<Row>)
    requires Cohort(rows, 2022) == {Customer("B", "B"), Customer("C", "C")}
    requires Cohort(rows, 2023) == {Customer("A", "A"), Customer("C", "C")}
    requires Cohort(rows, 2024) == {Customer("A", "A"), Customer("C", "C")}
    ensures var m := MetricsOf(Aggregate(rows), Analysed);
      && m.clientsPerYear == map[2022 := 2, 2023 := 2, 2024 := 2]
      && m.firstSecond == 1 && m.secondThird == 2 && m.firstThird == 1 && m.allThree == 1
      && m.percentages == [50.0, 100.0, 50.0, 50.0]
  {
    var t := Aggregate(rows);
    var m := MetricsOf(t, Analysed);
    MetricsAreCohortSizes(rows, Analysed);
    PercentageBounds(t, Analysed);
    ExampleSizes();
    ExampleArithmetic(m);
  }

  /** The example's metrics: two clients each year, overlaps 1, 2, 1 and 1, and 100% of 2024's clients returned from 2023. */
  lemma ExampleMetrics()
    ensures var m := MetricsOf(Aggregate(ExampleRows()), Analysed);
      && m.clientsPerYear == map[2022 := 2, 2023 := 2, 2024 := 2]
      && m.firstSecond == 1 && m.secondThird == 2 && m.firstThird == 1 && m.allThree == 1
      && m.percentages == [50.0, 100.0, 50.0, 50.0]
  {
    ExampleCohorts();
    MetricsOfExampleCohorts(ExampleRows());
  }
}
