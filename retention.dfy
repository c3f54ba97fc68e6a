/**
 * Retention metrics over the final table: clients per analysed year, the
 * three pairwise overlaps, the three-year overlap, and each overlap as a
 * percentage of the clients of the last analysed year.
 */
module Retention {
  import opened Wrappers
  import opened Records
  import opened Cohorts

  /** The three analysed years, oldest first. */
  datatype Window = Window(first: int, second: int, third: int)

  /** The years the analysis is written for. */
  const Analysed: Window := Window(2022, 2023, 2024)

  /** The metrics of one run. */
  datatype Metrics = Metrics(
    clientsPerYear: map<int, nat>,   // only for analysed years that have a column
    yearsPresent: seq<int>,          // those years, in window order
    firstSecond: nat,
    secondThird: nat,
    firstThird: nat,
    allThree: nat,
    percentages: seq<real>)          // of the four overlaps above, in that order

  /** `row` has a positive visit count in every year of `ys`; a column it lacks counts as no visit. */
  predicate PositiveIn(row: TableRow, ys: set<int>)
  {
    forall y :: y in ys ==> y in row.visits && row.visits[y] > 0
  }

  /** How many rows have a positive count in every year of `ys`. */
  function CountPositive(rows: seq<TableRow>, ys: set<int>): nat
  {
    if rows == [] then 0
    else (if PositiveIn(rows[0], ys) then 1 else 0) + CountPositive(rows[1..], ys)
  }

  function ColumnSet(t: Table): set<int>
  {
    set y | y in t.columns
  }

  /** An overlap is counted only when every year it refers to has a column; otherwise it stays 0. */
  function Overlap(t: Table, ys: set<int>): nat
  {
    if ys <= ColumnSet(t) then CountPositive(t.rows, ys) else 0
  }

  /** The years of `ys`, in order, that have a column in `cols`. */
  function Present(ys: seq<int>, cols: seq<int>): seq<int>
  {
    if ys == [] then []
    else
      (if ys[0] in cols then [ys[0]] else []) + Present(ys[1..], cols)
  }

  /**
   * Each overlap as a percentage of `base`; all of them 0 when `base` is 0.
   * Percentages are exact reals here.
   */
  function Percentages(values: seq<nat>, base: nat): (p: seq<real>)
    ensures |p| == |values|
    ensures base == 0 ==> forall i :: 0 <= i < |p| ==> p[i] == 0.0
    ensures base > 0 ==> forall i :: 0 <= i < |p| ==> p[i] == Percent(values[i], base)
    ensures forall i :: 0 <= i < |p| && values[i] <= base ==> 0.0 <= p[i] <= 100.0
  {
    if base > 0 then
      seq(|values|, i requires 0 <= i < |values| => Percent(values[i], base))
    else
      seq(|values|, i => 0.0)
  }

  /** `value / base * 100`. */
  function Percent(value: nat, base: nat): (p: real)
    requires base > 0
    ensures p * (base as real) == (value as real) * 100.0
    ensures value <= base ==> 0.0 <= p <= 100.0
  {
    var (v, b) := (value as real, base as real);
    assert (v / b) * 100.0 * b == v * 100.0;
    assert value <= base ==> v / b <= 1.0;
    (v / b) * 100.0
  }

  /** The metrics of table `t` for window `w`, stated declaratively. */
  function MetricsOf(t: Table, w: Window): Metrics
  {
    var years := Present([w.first, w.second, w.third], t.columns);
    var clients := ClientsMap(t.rows, years);
    var firstSecond := Overlap(t, {w.first, w.second});
    var secondThird := Overlap(t, {w.second, w.third});
    var firstThird := Overlap(t, {w.first, w.third});
    var allThree := Overlap(t, {w.first, w.second, w.third});
    var base := if w.third in clients then clients[w.third] else 0;
    Metrics(clients, years, firstSecond, secondThird, firstThird, allThree,
            Percentages([firstSecond, secondThird, firstThird, allThree], base))
  }

  /** `clientes_por_año.get(y, 0)`. */
  function ClientsIn(m: Metrics, y: int): nat
  {
    if y in m.clientsPerYear then m.clientsPerYear[y] else 0
  }

  /** The per-year counts of the years recorded so far. */
  function ClientsMap(rows: seq<TableRow>, years: seq<int>): map<int, nat>
  {
    map y | y in years :: CountPositive(rows, {y})
  }

  lemma ClientsMapStep(rows: seq<TableRow>, years: seq<int>, y: int)
    ensures ClientsMap(rows, years)[y := CountPositive(rows, {y})] == ClientsMap(rows, years + [y])
  {
  }

  lemma OverlapGuard(t: Table, ys: set<int>)
    ensures ys <= ColumnSet(t) <==> forall y :: y in ys ==> y in t.columns
  {
    if forall y :: y in ys ==> y in t.columns {
      forall y | y in ys ensures y in ColumnSet(t) {
        assert y in t.columns;
      }
    }
    if ys <= ColumnSet(t) {
      forall y | y in ys ensures y in t.columns {
        assert y in ColumnSet(t);
      }
    }
  }

  lemma PresentOfThree(a: int, b: int, c: int, cols: seq<int>)
    ensures Present([a, b, c], cols)
         == (if a in cols then [a] else []) + (if b in cols then [b] else []) + (if c in cols then [c] else [])
  {
    assert [a, b, c][1..] == [b, c];
    assert [b, c][1..] == [c];
    assert [c][1..] == [];
    assert Present([c], cols) == (if c in cols then [c] else []) + Present([], cols);
    assert Present([b, c], cols) == (if b in cols then [b] else []) + Present([c], cols);
    assert Present([a, b, c], cols) == (if a in cols then [a] else []) + Present([b, c], cols);
  }

  /**
   * The metrics step as the analysis runs it: clients per year by successive
   * insertions, counters that start at 0 and are overwritten only when their
   * columns exist, then the percentages.
   */
  method RetentionMetrics(t: Table, w: Window) returns (m: Metrics)
    ensures m == MetricsOf(t, w)
  {
    var clients: map<int, nat> := map[];
    var years: seq<int> := [];
    if w.first in t.columns {
      ClientsMapStep(t.rows, years, w.first);
      clients := clients[w.first := CountPositive(t.rows, {w.first})];
      years := years + [w.first];
    }
    assert clients == ClientsMap(t.rows, years);
    if w.second in t.columns {
      ClientsMapStep(t.rows, years, w.second);
      clients := clients[w.second := CountPositive(t.rows, {w.second})];
      years := years + [w.second];
    }
    assert clients == ClientsMap(t.rows, years);
    if w.third in t.columns {
      ClientsMapStep(t.rows, years, w.third);
      clients := clients[w.third := CountPositive(t.rows, {w.third})];
      years := years + [w.third];
    }
    assert clients == ClientsMap(t.rows, years);
    PresentOfThree(w.first, w.second, w.third, t.columns);
    assert years == Present([w.first, w.second, w.third], t.columns);

    var firstSecond, secondThird, firstThird, allThree := 0, 0, 0, 0;
    if w.first in t.columns && w.second in t.columns {
      firstSecond := CountPositive(t.rows, {w.first, w.second});
    }
    OverlapGuard(t, {w.first, w.second});
    assert firstSecond == Overlap(t, {w.first, w.second});
    if w.second in t.columns && w.third in t.columns {
      secondThird := CountPositive(t.rows, {w.second, w.third});
    }
    OverlapGuard(t, {w.second, w.third});
    assert secondThird == Overlap(t, {w.second, w.third});
    if w.first in t.columns && w.third in t.columns {
      firstThird := CountPositive(t.rows, {w.first, w.third});
    }
    OverlapGuard(t, {w.first, w.third});
    assert firstThird == Overlap(t, {w.first, w.third});
    if w.first in t.columns && w.second in t.columns && w.third in t.columns {
      allThree := CountPositive(t.rows, {w.first, w.second, w.third});
    }
    OverlapGuard(t, {w.first, w.second, w.third});
    assert allThree == Overlap(t, {w.first, w.second, w.third});

    var base := if w.third in clients then clients[w.third] else 0;
    var values := [firstSecond, secondThird, firstThird, allThree];
    var percentages := Percentages(values, base);
    m := Metrics(clients, years, firstSecond, secondThird, firstThird, allThree, percentages);
  }

  // ---------------------------------------------------------------------
  // Bounds
  // ---------------------------------------------------------------------

  /** Requiring visits in more years can only lower the count. */
  lemma {:induction false} CountPositiveAntitone(rows: seq<TableRow>, small: set<int>, large: set<int>)
    requires small <= large
    ensures CountPositive(rows, large) <= CountPositive(rows, small) <= |rows|
  {
    if rows != [] {
      CountPositiveAntitone(rows[1..], small, large);
    }
  }

  lemma {:induction false} PresentMembers(ys: seq<int>, cols: seq<int>, y: int)
    ensures y in Present(ys, cols) <==> y in ys && y in cols
  {
    if ys != [] {
      PresentMembers(ys[1..], cols, y);
      assert y in ys <==> y == ys[0] || y in ys[1..];
    }
  }

  /** Clients-per-year exist exactly for the analysed years that have a column, and count the rows positive in that year. */
  lemma ClientsPerYearDefined(t: Table, w: Window, y: int)
    ensures y in MetricsOf(t, w).clientsPerYear <==> (y == w.first || y == w.second || y == w.third) && y in t.columns
    ensures y in MetricsOf(t, w).clientsPerYear ==> MetricsOf(t, w).clientsPerYear[y] == CountPositive(t.rows, {y})
  {
    PresentMembers([w.first, w.second, w.third], t.columns, y);
  }

  /**
   * Each pairwise overlap is at most the clients of either of its years, the
   * three-year overlap is at most every pairwise one, and an overlap that
   * refers to a year without a column is 0.
   */
  lemma OverlapBounds(t: Table, w: Window)
    ensures var m := MetricsOf(t, w);
      && m.firstSecond <= ClientsIn(m, w.first) && m.firstSecond <= ClientsIn(m, w.second)
      && m.secondThird <= ClientsIn(m, w.second) && m.secondThird <= ClientsIn(m, w.third)
      && m.firstThird <= ClientsIn(m, w.first) && m.firstThird <= ClientsIn(m, w.third)
      && m.allThree <= m.firstSecond && m.allThree <= m.secondThird && m.allThree <= m.firstThird
    ensures var m := MetricsOf(t, w);
      && (w.first !in t.columns ==> m.firstSecond == 0 && m.firstThird == 0 && m.allThree == 0)
      && (w.second !in t.columns ==> m.firstSecond == 0 && m.secondThird == 0 && m.allThree == 0)
      && (w.third !in t.columns ==> m.secondThird == 0 && m.firstThird == 0 && m.allThree == 0)
  {
    var (a, b, c) := (w.first, w.second, w.third);
    ClientsPerYearDefined(t, w, a);
    ClientsPerYearDefined(t, w, b);
    ClientsPerYearDefined(t, w, c);
    OverlapGuard(t, {a, b});
    OverlapGuard(t, {b, c});
    OverlapGuard(t, {a, c});
    OverlapGuard(t, {a, b, c});
    OverlapGuard(t, {a});
    OverlapGuard(t, {b});
    OverlapGuard(t, {c});
    CountPositiveAntitone(t.rows, {a}, {a, b});
    CountPositiveAntitone(t.rows, {b}, {a, b});
    CountPositiveAntitone(t.rows, {b}, {b, c});
    CountPositiveAntitone(t.rows, {c}, {b, c});
    CountPositiveAntitone(t.rows, {a}, {a, c});
    CountPositiveAntitone(t.rows, {c}, {a, c});
    CountPositiveAntitone(t.rows, {a, b}, {a, b, c});
    CountPositiveAntitone(t.rows, {b, c}, {a, b, c});
    CountPositiveAntitone(t.rows, {a, c}, {a, b, c});
  }

  /**
   * The percentages are the overlaps times 100 over the clients of the last
   * analysed year, all four 0 when there are none; the three overlaps that
   * include the last year are therefore between 0 and 100 percent.
   */
  lemma PercentageBounds(t: Table, w: Window)
    ensures var m := MetricsOf(t, w);
      var base := ClientsIn(m, w.third);
      var values := [m.firstSecond, m.secondThird, m.firstThird, m.allThree];
      && |m.percentages| == 4
      && (base == 0 ==> forall i :: 0 <= i < 4 ==> m.percentages[i] == 0.0)
      && (base > 0 ==> forall i :: 0 <= i < 4 ==> m.percentages[i] == Percent(values[i], base))
      && (forall i :: 1 <= i < 4 ==> 0.0 <= m.percentages[i] <= 100.0)
  {
    OverlapBounds(t, w);
  }

  // ---------------------------------------------------------------------
  // Missing columns
  // ---------------------------------------------------------------------

  lemma {:induction false} NoneWithoutColumn(rows: seq<TableRow>, cols: seq<int>, ys: set<int>, y: int)
    requires forall i :: 0 <= i < |rows| ==> RowShape(cols, rows[i])
    requires y in ys && y !in cols
    ensures CountPositive(rows, ys) == 0
  {
    if rows != [] {
      assert RowShape(cols, rows[0]);
      NoneWithoutColumn(rows[1..], cols, ys, y);
    }
  }

  /** On a well-formed table, leaving an overlap at 0 when one of its columns is missing loses nothing. */
  lemma OmissionIsExact(t: Table, ys: set<int>)
    requires WellFormed(t)
    ensures Overlap(t, ys) == CountPositive(t.rows, ys)
  {
    if !(ys <= ColumnSet(t)) {
      OverlapGuard(t, ys);
      var y :| y in ys && y !in t.columns;
      NoneWithoutColumn(t.rows, t.columns, ys, y);
    }
  }

  // ---------------------------------------------------------------------
  // The metrics as set algebra over the filtered rows
  // ---------------------------------------------------------------------

  /** The customers with a filtered row in year `y` (an id, a name and a date in `y`). */
  function Cohort(rows: seq<Row>, y: int): set<Customer>
  {
    set r | r in rows && r.id.Some? && r.name.Some? && r.year == Some(y) :: Customer(r.id.value, r.name.value)
  }

  /** The customers with at least one filtered row with an id, a name and a parseable date. */
  function Customers(rows: seq<Row>): set<Customer>
  {
    set r | r in rows && Complete(r) :: Customer(r.id.value, r.name.value)
  }

  /** The customers present in the cohort of every year of `ys`. */
  function InEveryCohort(rows: seq<Row>, ys: set<int>): set<Customer>
  {
    set c | c in Customers(rows) && forall y :: y in ys ==> c in Cohort(rows, y)
  }

  lemma CohortMember(rows: seq<Row>, c: Customer, y: int)
    ensures c in Cohort(rows, y) <==> CountRows(rows, Visit(c, y)) > 0
  {
    CountRowsZero(rows, Visit(c, y));
    if c in Cohort(rows, y) {
      var r :| r in rows && r.id.Some? && r.name.Some? && r.year == Some(y)
               && Customer(r.id.value, r.name.value) == c;
      assert IsVisit(r, Visit(c, y));
    }
    if CountRows(rows, Visit(c, y)) > 0 {
      var r :| r in rows && IsVisit(r, Visit(c, y));
      assert Customer(r.id.value, r.name.value) == c;
    }
  }

  lemma CustomerMember(rows: seq<Row>, c: Customer)
    ensures c in Customers(rows) <==> exists y :: CountRows(rows, Visit(c, y)) > 0
  {
    if c in Customers(rows) {
      var r :| r in rows && Complete(r) && Customer(r.id.value, r.name.value) == c;
      CohortMember(rows, c, r.year.value);
    }
    if exists y :: CountRows(rows, Visit(c, y)) > 0 {
      var y :| CountRows(rows, Visit(c, y)) > 0;
      CohortMember(rows, c, y);
      var r :| r in rows && r.id.Some? && r.name.Some? && r.year == Some(y)
               && Customer(r.id.value, r.name.value) == c;
      assert Complete(r);
    }
  }

  /** The customers of the rows of `rows` that are positive in every year of `ys`. */
  function PositiveCustomers(rows: seq<TableRow>, ys: set<int>): set<Customer>
  {
    set i | 0 <= i < |rows| && PositiveIn(rows[i], ys) :: rows[i].customer
  }

  /** With one row per customer, counting positive rows counts positive customers. */
  lemma {:induction false} CountIsCustomerSetSize(rows: seq<TableRow>, ys: set<int>)
    requires UniqueCustomers(rows)
    ensures CountPositive(rows, ys) == |PositiveCustomers(rows, ys)|
  {
    if rows != [] {
      UniqueTail(rows);
      CountIsCustomerSetSize(rows[1..], ys);
      PositiveCustomersCons(rows, ys);
    }
  }

  lemma UniqueTail(rows: seq<TableRow>)
    requires rows != [] && UniqueCustomers(rows)
    ensures UniqueCustomers(rows[1..])
    ensures forall i :: 0 <= i < |rows[1..]| ==> rows[1..][i].customer != rows[0].customer
  {
    var t := rows[1..];
    forall i, j | 0 <= i < j < |t| ensures t[i].customer != t[j].customer {
      assert t[i] == rows[i+1] && t[j] == rows[j+1];
    }
  }

  /** Splitting off the first row, whose customer does not occur again. */
  lemma PositiveCustomersCons(rows: seq<TableRow>, ys: set<int>)
    requires rows != [] && forall i :: 0 <= i < |rows[1..]| ==> rows[1..][i].customer != rows[0].customer
    ensures var head := if PositiveIn(rows[0], ys) then {rows[0].customer} else {};
      && PositiveCustomers(rows, ys) == head + PositiveCustomers(rows[1..], ys)
      && rows[0].customer !in PositiveCustomers(rows[1..], ys)
  {
    var t := rows[1..];
    var head := if PositiveIn(rows[0], ys) then {rows[0].customer} else {};
    forall c ensures c in PositiveCustomers(rows, ys) <==> c in head + PositiveCustomers(t, ys) {
      if c in PositiveCustomers(rows, ys) {
        var i :| 0 <= i < |rows| && PositiveIn(rows[i], ys) && rows[i].customer == c;
        if i > 0 { assert t[i-1] == rows[i]; }
      }
      if c in PositiveCustomers(t, ys) {
        var i :| 0 <= i < |t| && PositiveIn(t[i], ys) && t[i].customer == c;
        assert rows[i+1] == t[i];
      }
    }
  }

  lemma PositiveRowInCohorts(rows: seq<Row>, ys: set<int>, i: nat)
    requires i < |Aggregate(rows).rows| && PositiveIn(Aggregate(rows).rows[i], ys)
    ensures Aggregate(rows).rows[i].customer in InEveryCohort(rows, ys)
  {
    var t := Aggregate(rows);
    var c := t.rows[i].customer;
    IndexedCustomerHasRow(rows, i);
    CustomerMember(rows, c);
    forall y | y in ys ensures c in Cohort(rows, y) {
      assert RowShape(t.columns, t.rows[i]);
      CellCountsRows(rows, i, y);
      CohortMember(rows, c, y);
    }
  }

  lemma CohortsHavePositiveRow(rows: seq<Row>, ys: set<int>, c: Customer)
    requires c in InEveryCohort(rows, ys)
    ensures c in PositiveCustomers(Aggregate(rows).rows, ys)
  {
    var t := Aggregate(rows);
    CustomerMember(rows, c);
    var y0 :| CountRows(rows, Visit(c, y0)) > 0;
    DatedCustomerIndexed(rows, c, y0);
    var i :| 0 <= i < |t.rows| && t.rows[i].customer == c;
    forall y | y in ys ensures y in t.rows[i].visits && t.rows[i].visits[y] > 0 {
      CohortCell(rows, i, y);
    }
    assert PositiveIn(t.rows[i], ys);
  }

  /** The cell of a customer in one of its cohorts' years is positive. */
  lemma CohortCell(rows: seq<Row>, i: nat, y: int)
    requires i < |Aggregate(rows).rows| && Aggregate(rows).rows[i].customer in Cohort(rows, y)
    ensures y in Aggregate(rows).rows[i].visits && Aggregate(rows).rows[i].visits[y] > 0
  {
    var c := Aggregate(rows).rows[i].customer;
    CohortMember(rows, c, y);
    ColumnsAreDatedYears(rows, y);
    CellCountsRows(rows, i, y);
  }

  /** Counting rows positive in the years `ys` counts the customers present in every cohort of `ys`. */
  lemma CountPositiveIsCohortSize(rows: seq<Row>, ys: set<int>)
    ensures CountPositive(Aggregate(rows).rows, ys) == |InEveryCohort(rows, ys)|
  {
    CountIsCustomerSetSize(Aggregate(rows).rows, ys);
    PositiveCustomersAreCohorts(rows, ys);
  }

  /** The customers whose row is positive in every year of `ys` are those in every cohort of `ys`. */
  lemma PositiveCustomersAreCohorts(rows: seq<Row>, ys: set<int>)
    ensures PositiveCustomers(Aggregate(rows).rows, ys) == InEveryCohort(rows, ys)
  {
    var t := Aggregate(rows);
    forall c ensures c in PositiveCustomers(t.rows, ys) <==> c in InEveryCohort(rows, ys) {
      if c in PositiveCustomers(t.rows, ys) {
        var i :| 0 <= i < |t.rows| && PositiveIn(t.rows[i], ys) && t.rows[i].customer == c;
        PositiveRowInCohorts(rows, ys, i);
      }
      if c in InEveryCohort(rows, ys) {
        CohortsHavePositiveRow(rows, ys, c);
      }
    }
  }

  lemma CohortsAreCustomers(rows: seq<Row>, y: int)
    ensures Cohort(rows, y) <= Customers(rows)
  {
    forall c | c in Cohort(rows, y) ensures c in Customers(rows) {
      CohortMember(rows, c, y);
      CustomerMember(rows, c);
    }
  }

  /** A year has a column exactly when its cohort is not empty. */
  lemma ColumnIffCohort(rows: seq<Row>, y: int)
    ensures y in Aggregate(rows).columns <==> Cohort(rows, y) != {}
  {
    ColumnsAreDatedYears(rows, y);
    if y in Aggregate(rows).columns {
      var c :| CountRows(rows, Visit(c, y)) > 0;
      CohortMember(rows, c, y);
    }
    if Cohort(rows, y) != {} {
      var c :| c in Cohort(rows, y);
      CohortMember(rows, c, y);
    }
  }

  /** A counted overlap is the size of the intersection of its cohorts (a missing column means an empty cohort). */
  lemma OverlapIsIntersection(rows: seq<Row>, a: int, b: int)
    ensures Overlap(Aggregate(rows), {a, b}) == |Cohort(rows, a) * Cohort(rows, b)|
  {
    EveryCohortOfTwo(rows, a, b);
    OmissionIsExact(Aggregate(rows), {a, b});
    CountPositiveIsCohortSize(rows, {a, b});
  }

  lemma EveryCohortOfTwo(rows: seq<Row>, a: int, b: int)
    ensures InEveryCohort(rows, {a, b}) == Cohort(rows, a) * Cohort(rows, b)
  {
    CohortsAreCustomers(rows, a);
    CohortsAreCustomers(rows, b);
  }

  lemma TripleOverlapIsIntersection(rows: seq<Row>, a: int, b: int, c: int)
    ensures Overlap(Aggregate(rows), {a, b, c}) == |Cohort(rows, a) * Cohort(rows, b) * Cohort(rows, c)|
  {
    EveryCohortOfThree(rows, a, b, c);
    OmissionIsExact(Aggregate(rows), {a, b, c});
    CountPositiveIsCohortSize(rows, {a, b, c});
  }

  lemma EveryCohortOfThree(rows: seq<Row>, a: int, b: int, c: int)
    ensures InEveryCohort(rows, {a, b, c}) == Cohort(rows, a) * Cohort(rows, b) * Cohort(rows, c)
  {
    CohortsAreCustomers(rows, a);
    CohortsAreCustomers(rows, b);
    CohortsAreCustomers(rows, c);
  }

  /** Clients per year exist for the analysed years with a non-empty cohort and are the cohort sizes. */
  lemma ClientsAreCohortSizes(rows: seq<Row>, w: Window, y: int)
    ensures var m := MetricsOf(Aggregate(rows), w);
      y in m.clientsPerYear <==> (y == w.first || y == w.second || y == w.third) && Cohort(rows, y) != {}
    ensures var m := MetricsOf(Aggregate(rows), w);
      y in m.clientsPerYear ==> m.clientsPerYear[y] == |Cohort(rows, y)|
  {
    var t := Aggregate(rows);
    ClientsPerYearDefined(t, w, y);
    ColumnIffCohort(rows, y);
    CountPositiveIsCohortSize(rows, {y});
    EveryCohortOfOne(rows, y);
  }

  lemma EveryCohortOfOne(rows: seq<Row>, y: int)
    ensures InEveryCohort(rows, {y}) == Cohort(rows, y)
  {
    CohortsAreCustomers(rows, y);
  }

  /**
   * On the table of a set of filtered rows, every metric is the size of a
   * cohort or of an intersection of cohorts: clients per year are the
   * customers who bought in that year, and each overlap the customers who
   * bought in each of its years, whether or not the columns exist.
   */
  lemma MetricsAreCohortSizes(rows: seq<Row>, w: Window)
    ensures var m := MetricsOf(Aggregate(rows), w);
      forall y :: y in m.clientsPerYear <==> (y == w.first || y == w.second || y == w.third) && Cohort(rows, y) != {}
    ensures var m := MetricsOf(Aggregate(rows), w);
      forall y :: y in m.clientsPerYear ==> m.clientsPerYear[y] == |Cohort(rows, y)|
    ensures var m := MetricsOf(Aggregate(rows), w);
      && m.firstSecond == |Cohort(rows, w.first) * Cohort(rows, w.second)|
      && m.secondThird == |Cohort(rows, w.second) * Cohort(rows, w.third)|
      && m.firstThird == |Cohort(rows, w.first) * Cohort(rows, w.third)|
      && m.allThree == |Cohort(rows, w.first) * Cohort(rows, w.second) * Cohort(rows, w.third)|
  {
    forall y ensures var m := MetricsOf(Aggregate(rows), w);
      && (y in m.clientsPerYear <==> (y == w.first || y == w.second || y == w.third) && Cohort(rows, y) != {})
      && (y in m.clientsPerYear ==> m.clientsPerYear[y] == |Cohort(rows, y)|)
    {
      ClientsAreCohortSizes(rows, w, y);
    }
    OverlapIsIntersection(rows, w.first, w.second);
    OverlapIsIntersection(rows, w.second, w.third);
    OverlapIsIntersection(rows, w.first, w.third);
    TripleOverlapIsIntersection(rows, w.first, w.second, w.third);
  }
}
