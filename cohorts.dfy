/**
 * The cohort aggregator: drop rows without an id or a name, count rows per
 * (id, name, year), pivot into one row per customer with one visit-count
 * column per year (0 where the customer has no visit that year), add the
 * row total and sort by it, largest first.
 */
module Cohorts {
  import opened Wrappers
  import opened Records

  // ---------------------------------------------------------------------
  // Reference counts over the raw (filtered) rows
  // ---------------------------------------------------------------------

  /** Number of rows that are a transaction of `v.customer` in year `v.year`. */
  function CountRows(rows: seq<Row>, v: Visit): nat
  {
    if rows == [] then 0
    else (if IsVisit(rows[0], v) then 1 else 0) + CountRows(rows[1..], v)
  }

  /** Number of rows of customer `c` (same id and same name) whose date parses. */
  function CustomerRows(rows: seq<Row>, c: Customer): nat
  {
    if rows == [] then 0
    else (if rows[0].id == Some(c.id) && rows[0].name == Some(c.name) && rows[0].year.Some? then 1 else 0)
         + CustomerRows(rows[1..], c)
  }

  /** Number of rows that have an id, a name and a parseable date. */
  function CompleteRows(rows: seq<Row>): nat
  {
    if rows == [] then 0
    else (if Complete(rows[0]) then 1 else 0) + CompleteRows(rows[1..])
  }

  lemma {:induction false} CountRowsZero(rows: seq<Row>, v: Visit)
    ensures CountRows(rows, v) == 0 <==> forall r :: r in rows ==> !IsVisit(r, v)
  {
    if rows != [] {
      CountRowsZero(rows[1..], v);
      assert forall r :: r in rows <==> r == rows[0] || r in rows[1..];
    }
  }

  // ---------------------------------------------------------------------
  // Cleaning and grouping
  // ---------------------------------------------------------------------

  /** `dropna(subset=[id, name])`: the rows that have both an id and a name, in order. */
  function Cleaned(rows: seq<Row>): (r: seq<Row>)
    ensures forall x :: x in r ==> x.id.Some? && x.name.Some?
  {
    if rows == [] then []
    else
      assert rows == [rows[0]] + rows[1..];
      (if rows[0].id.Some? && rows[0].name.Some? then [rows[0]] else []) + Cleaned(rows[1..])
  }

  /** The rows `dropna` keeps are exactly the rows with both an id and a name. */
  lemma {:induction false} CleanedMembers(rows: seq<Row>, x: Row)
    ensures x in Cleaned(rows) <==> x in rows && x.id.Some? && x.name.Some?
  {
    if rows != [] {
      CleanedMembers(rows[1..], x);
      assert x in rows <==> x == rows[0] || x in rows[1..];
    }
  }

  /**
   * The (customer, year) groupby key of each cleaned row. A row whose date
   * did not parse has no year; the groupby drops such keys.
   */
  function Dated(cleaned: seq<Row>): (vs: seq<Visit>)
    requires forall r :: r in cleaned ==> r.id.Some? && r.name.Some?
  {
    if cleaned == [] then []
    else
      assert cleaned[0] in cleaned;
      assert forall r :: r in cleaned[1..] ==> r in cleaned;
      (if cleaned[0].year.Some? then [VisitOf(cleaned[0])] else []) + Dated(cleaned[1..])
  }

  /** Number of keys of customer `c`. */
  function CustomerCount(vs: seq<Visit>, c: Customer): nat
  {
    if vs == [] then 0 else (if vs[0].customer == c then 1 else 0) + CustomerCount(vs[1..], c)
  }

  /** The keys the groupby sees for a set of filtered rows. */
  function Keys(rows: seq<Row>): seq<Visit>
  {
    Dated(Cleaned(rows))
  }

  /** The groupby keys count exactly the rows the raw-row references count. */
  lemma {:induction false} KeysAgree(rows: seq<Row>)
    ensures forall v :: multiset(Keys(rows))[v] == CountRows(rows, v)
    ensures forall c :: CustomerCount(Keys(rows), c) == CustomerRows(rows, c)
    ensures |Keys(rows)| == CompleteRows(rows)
  {
    if rows != [] {
      KeysAgree(rows[1..]);
      assert rows == [rows[0]] + rows[1..];
      var r := rows[0];
      if r.id.Some? && r.name.Some? {
        assert Cleaned(rows) == [r] + Cleaned(rows[1..]);
        var d := Cleaned(rows);
        assert d[0] == r && d[1..] == Cleaned(rows[1..]);
        if r.year.Some? {
          assert Keys(rows) == [VisitOf(r)] + Keys(rows[1..]);
          assert Keys(rows)[0] == VisitOf(r) && Keys(rows)[1..] == Keys(rows[1..]);
        } else {
          assert Keys(rows) == Keys(rows[1..]);
        }
      } else {
        assert Cleaned(rows) == Cleaned(rows[1..]);
      }
    }
  }

  /** `groupby([id, name, year]).size()`: how many keys of each kind occur. */
  function GroupSizes(vs: seq<Visit>): (g: map<Visit, nat>)
    ensures forall v :: v in g <==> v in vs
    ensures forall v :: v in g ==> g[v] == multiset(vs)[v]
  {
    if vs == [] then map[]
    else
      assert vs == [vs[0]] + vs[1..];
      var g' := GroupSizes(vs[1..]);
      g'[vs[0] := if vs[0] in g' then g'[vs[0]] + 1 else 1]
  }

  // ---------------------------------------------------------------------
  // Pivot: index and columns
  // ---------------------------------------------------------------------

  predicate Distinct<T(==)>(s: seq<T>)
  {
    forall i, j :: 0 <= i < j < |s| ==> s[i] != s[j]
  }

  predicate Increasing(s: seq<int>)
  {
    forall i, j :: 0 <= i < j < |s| ==> s[i] < s[j]
  }

  /** The pivot index: each customer that has a key, once. */
  function CustomersOf(vs: seq<Visit>): (cs: seq<Customer>)
    ensures Distinct(cs)
    ensures forall c :: c in cs <==> exists y :: Visit(c, y) in vs
  {
    if vs == [] then []
    else
      assert vs == [vs[0]] + vs[1..];
      var cs' := CustomersOf(vs[1..]);
      if vs[0].customer in cs' then cs' else [vs[0].customer] + cs'
  }

  function InsertYear(ys: seq<int>, y: int): (r: seq<int>)
    requires Increasing(ys)
    ensures Increasing(r)
    ensures forall x :: x in r <==> x in ys || x == y
  {
    if ys == [] then [y]
    else if y < ys[0] then [y] + ys
    else if y == ys[0] then ys
    else
      assert ys == [ys[0]] + ys[1..];
      var r' := InsertYear(ys[1..], y);
      assert forall x :: x in r' ==> ys[0] < x;
      ConsIncreasing(ys[0], r');
      [ys[0]] + r'
  }

  lemma ConsIncreasing(h: int, s: seq<int>)
    requires Increasing(s) && forall x :: x in s ==> h < x
    ensures Increasing([h] + s)
  {
    var r := [h] + s;
    forall i, j | 0 <= i < j < |r| ensures r[i] < r[j] {
      assert r[j] == s[j - 1] && s[j - 1] in s;
      if i > 0 { assert r[i] == s[i - 1]; }
    }
  }

  /** The pivot columns: each year that has a key, once, ascending. */
  function YearsOf(vs: seq<Visit>): (ys: seq<int>)
    ensures Increasing(ys)
    ensures forall y :: y in ys <==> exists c :: Visit(c, y) in vs
  {
    if vs == [] then []
    else
      assert vs == [vs[0]] + vs[1..];
      InsertYear(YearsOf(vs[1..]), vs[0].year)
  }

  // ---------------------------------------------------------------------
  // The matrix
  // ---------------------------------------------------------------------

  /** One matrix row: the customer, its visit count per year column, and `Total_Visitas`. */
  datatype TableRow = TableRow(customer: Customer, visits: map<int, nat>, total: nat)

  /** The final table: its year columns in ascending order, and its rows. */
  datatype Table = Table(columns: seq<int>, rows: seq<TableRow>)

  /** Row sum over the year columns. */
  function SumCells(cols: seq<int>, visits: map<int, nat>): nat
    requires forall i :: 0 <= i < |cols| ==> cols[i] in visits
  {
    if cols == [] then 0
    else
      visits[cols[0]] + SumCells(cols[1..], visits)
  }

  /** Pivot row of customer `c`, with `fill_value=0`, and its total. */
  function PivotRow(g: map<Visit, nat>, cols: seq<int>, c: Customer): TableRow
  {
    var visits := map y | y in cols :: if Visit(c, y) in g then g[Visit(c, y)] else 0;
    TableRow(c, visits, SumCells(cols, visits))
  }

  function PivotRows(g: map<Visit, nat>, cols: seq<int>, cs: seq<Customer>): (rows: seq<TableRow>)
    ensures |rows| == |cs|
    ensures forall i :: 0 <= i < |cs| ==> rows[i] == PivotRow(g, cols, cs[i])
  {
    if cs == [] then [] else [PivotRow(g, cols, cs[0])] + PivotRows(g, cols, cs[1..])
  }

  /** `pivot_table(...)` followed by the `Total_Visitas` column, before sorting. */
  function Pivot(vs: seq<Visit>): seq<TableRow>
  {
    PivotRows(GroupSizes(vs), YearsOf(vs), CustomersOf(vs))
  }

  // ---------------------------------------------------------------------
  // Sorting by total, largest first
  // ---------------------------------------------------------------------

  function TotalSum(rows: seq<TableRow>): nat
  {
    if rows == [] then 0 else rows[0].total + TotalSum(rows[1..])
  }

  predicate NonIncreasing(rows: seq<TableRow>)
  {
    forall i, j :: 0 <= i < j < |rows| ==> rows[i].total >= rows[j].total
  }

  predicate UniqueCustomers(rows: seq<TableRow>)
  {
    forall i, j :: 0 <= i < j < |rows| ==> rows[i].customer != rows[j].customer
  }

  function InsertByTotal(x: TableRow, s: seq<TableRow>): (r: seq<TableRow>)
    ensures multiset(r) == multiset(s) + multiset{x}
  {
    if s == [] || x.total >= s[0].total then [x] + s
    else
      assert s == [s[0]] + s[1..];
      [s[0]] + InsertByTotal(x, s[1..])
  }

  /** Every row of `s` has a total of at most `b`. */
  predicate AtMost(s: seq<TableRow>, b: nat)
  {
    forall i :: 0 <= i < |s| ==> s[i].total <= b
  }

  /** No row of `s` belongs to customer `c`. */
  predicate Avoids(s: seq<TableRow>, c: Customer)
  {
    forall i :: 0 <= i < |s| ==> s[i].customer != c
  }

  lemma {:induction false} InsertBounds(x: TableRow, s: seq<TableRow>, b: nat, c: Customer)
    ensures AtMost(s, b) && x.total <= b ==> AtMost(InsertByTotal(x, s), b)
    ensures Avoids(s, c) && x.customer != c ==> Avoids(InsertByTotal(x, s), c)
  {
    if s != [] && x.total < s[0].total {
      InsertBounds(x, s[1..], b, c);
      var r := InsertByTotal(x, s);
      assert r == [s[0]] + InsertByTotal(x, s[1..]);
    }
  }

  lemma {:induction false} InsertKeepsOrder(x: TableRow, s: seq<TableRow>)
    requires NonIncreasing(s)
    ensures NonIncreasing(InsertByTotal(x, s))
  {
    if s != [] && x.total < s[0].total {
      var r' := InsertByTotal(x, s[1..]);
      InsertKeepsOrder(x, s[1..]);
      InsertBounds(x, s[1..], s[0].total, x.customer);
      var r := [s[0]] + r';
      assert r == InsertByTotal(x, s);
      forall i, j | 0 <= i < j < |r| ensures r[i].total >= r[j].total {
        if i == 0 { assert r[j] == r'[j-1]; } else { assert r[i] == r'[i-1] && r[j] == r'[j-1]; }
      }
    }
  }

  lemma {:induction false} InsertAddsTotal(x: TableRow, s: seq<TableRow>)
    ensures TotalSum(InsertByTotal(x, s)) == x.total + TotalSum(s)
  {
    if s != [] && x.total < s[0].total {
      InsertAddsTotal(x, s[1..]);
      var r := InsertByTotal(x, s);
      assert r[0] == s[0] && r[1..] == InsertByTotal(x, s[1..]);
    }
  }

  lemma {:induction false} InsertKeepsUnique(x: TableRow, s: seq<TableRow>)
    requires UniqueCustomers(s)
    requires Avoids(s, x.customer)
    ensures UniqueCustomers(InsertByTotal(x, s))
  {
    if s == [] || x.total >= s[0].total {
      var r := [x] + s;
      forall i, j | 0 <= i < j < |r| ensures r[i].customer != r[j].customer {
        if i == 0 { assert r[j] == s[j-1]; } else { assert r[i] == s[i-1] && r[j] == s[j-1]; }
      }
    } else {
      var t := s[1..];
      assert forall i :: 0 <= i < |t| ==> t[i] == s[i+1];
      InsertKeepsUnique(x, t);
      assert Avoids(t, s[0].customer);
      InsertBounds(x, t, 0, s[0].customer);
      var r' := InsertByTotal(x, t);
      var r := [s[0]] + r';
      assert r == InsertByTotal(x, s);
      forall i, j | 0 <= i < j < |r| ensures r[i].customer != r[j].customer {
        if i == 0 { assert r[j] == r'[j-1]; } else { assert r[i] == r'[i-1] && r[j] == r'[j-1]; }
      }
    }
  }

  lemma {:induction false} SortAvoids(s: seq<TableRow>, c: Customer)
    requires Avoids(s, c)
    ensures Avoids(SortByTotal(s), c)
  {
    if s != [] {
      assert forall i :: 0 <= i < |s[1..]| ==> s[1..][i] == s[i+1];
      SortAvoids(s[1..], c);
      InsertBounds(s[0], SortByTotal(s[1..]), 0, c);
    }
  }

  /** `sort_values('Total_Visitas', ascending=False)`; the order of ties is left open. */
  function SortByTotal(s: seq<TableRow>): (r: seq<TableRow>)
    ensures multiset(r) == multiset(s)
  {
    if s == [] then []
    else
      assert s == [s[0]] + s[1..];
      InsertByTotal(s[0], SortByTotal(s[1..]))
  }

  /** Sorting yields rows ordered by total, largest first, with the same total sum and still one row per customer. */
  lemma {:induction false} SortByTotalSorts(s: seq<TableRow>)
    ensures NonIncreasing(SortByTotal(s))
    ensures TotalSum(SortByTotal(s)) == TotalSum(s)
    ensures UniqueCustomers(s) ==> UniqueCustomers(SortByTotal(s))
  {
    if s != [] {
      var t := s[1..];
      var r' := SortByTotal(t);
      SortByTotalSorts(t);
      InsertKeepsOrder(s[0], r');
      InsertAddsTotal(s[0], r');
      if UniqueCustomers(s) {
        assert forall i :: 0 <= i < |t| ==> t[i] == s[i+1];
        assert UniqueCustomers(t);
        assert Avoids(t, s[0].customer);
        SortAvoids(t, s[0].customer);
        InsertKeepsUnique(s[0], r');
      }
    }
  }

  // ---------------------------------------------------------------------
  // The aggregator
  // ---------------------------------------------------------------------

  /** A matrix row carries exactly the year columns and a total equal to their sum. */
  predicate RowShape(cols: seq<int>, row: TableRow)
  {
    && (forall y :: y in row.visits ==> y in cols)
    && (forall i :: 0 <= i < |cols| ==> cols[i] in row.visits)
    && row.total == SumCells(cols, row.visits)
  }

  /**
   * Shape of the final table: ascending distinct year columns, one row per
   * customer, every row shaped by the columns, rows ordered by total,
   * largest first.
   */
  predicate WellFormed(t: Table)
  {
    && Increasing(t.columns)
    && UniqueCustomers(t.rows)
    && NonIncreasing(t.rows)
    && forall i :: 0 <= i < |t.rows| ==> RowShape(t.columns, t.rows[i])
  }

  /** The matrix of a set of filtered rows. */
  function Aggregate(rows: seq<Row>): (t: Table)
    ensures WellFormed(t)
    ensures t.columns == YearsOf(Keys(rows))
    ensures multiset(t.rows) == multiset(Pivot(Keys(rows)))
  {
    var vs := Keys(rows);
    AggregateShape(vs);
    Table(YearsOf(vs), SortByTotal(Pivot(vs)))
  }

  lemma PivotRowShape(g: map<Visit, nat>, cols: seq<int>, c: Customer)
    ensures RowShape(cols, PivotRow(g, cols, c))
  {
  }

  lemma PermutationMembers(r: seq<TableRow>, p: seq<TableRow>)
    requires multiset(r) == multiset(p)
    ensures forall i :: 0 <= i < |r| ==> r[i] in p
  {
    forall i | 0 <= i < |r| ensures r[i] in p {
      assert r[i] in multiset(r);
    }
  }

  lemma PivotUnique(vs: seq<Visit>)
    ensures UniqueCustomers(Pivot(vs))
  {
    var cs := CustomersOf(vs);
    var p := Pivot(vs);
    forall i, j | 0 <= i < j < |p| ensures p[i].customer != p[j].customer {
      assert p[i].customer == cs[i] && p[j].customer == cs[j];
    }
  }

  lemma PivotShapes(vs: seq<Visit>)
    ensures forall i :: 0 <= i < |Pivot(vs)| ==> RowShape(YearsOf(vs), Pivot(vs)[i])
  {
    var p := Pivot(vs);
    forall i | 0 <= i < |p| ensures RowShape(YearsOf(vs), p[i]) {
      PivotRowShape(GroupSizes(vs), YearsOf(vs), CustomersOf(vs)[i]);
    }
  }

  lemma SortKeepsShapes(cols: seq<int>, p: seq<TableRow>)
    requires forall i :: 0 <= i < |p| ==> RowShape(cols, p[i])
    ensures forall i :: 0 <= i < |SortByTotal(p)| ==> RowShape(cols, SortByTotal(p)[i])
  {
    var r := SortByTotal(p);
    PermutationMembers(r, p);
    forall i | 0 <= i < |r| ensures RowShape(cols, r[i]) {
      var k :| 0 <= k < |p| && p[k] == r[i];
    }
  }

  lemma AggregateShape(vs: seq<Visit>)
    ensures WellFormed(Table(YearsOf(vs), SortByTotal(Pivot(vs))))
  {
    var p := Pivot(vs);
    PivotUnique(vs);
    SortByTotalSorts(p);
    PivotShapes(vs);
    SortKeepsShapes(YearsOf(vs), p);
  }

  // ---------------------------------------------------------------------
  // Counting lemmas
  // ---------------------------------------------------------------------

  function Occurrences<T(==)>(s: seq<T>, x: T): nat
  {
    if s == [] then 0 else (if s[0] == x then 1 else 0) + Occurrences(s[1..], x)
  }

  lemma {:induction false} OccursOnce<T>(s: seq<T>, x: T)
    requires Distinct(s)
    ensures Occurrences(s, x) == if x in s then 1 else 0
  {
    if s != [] {
      assert s == [s[0]] + s[1..];
      assert Distinct(s[1..]) by {
        forall i, j | 0 <= i < j < |s[1..]| ensures s[1..][i] != s[1..][j] {
          assert s[1..][i] == s[i+1] && s[1..][j] == s[j+1];
        }
      }
      OccursOnce(s[1..], x);
    }
  }

  lemma IncreasingIsDistinct(s: seq<int>)
    requires Increasing(s)
    ensures Distinct(s)
  {
  }

  /** Sum, over the year columns `cols`, of the number of keys of customer `c` in that year. */
  function SumVisits(vs: seq<Visit>, c: Customer, cols: seq<int>): nat
  {
    if cols == [] then 0 else multiset(vs)[Visit(c, cols[0])] + SumVisits(vs, c, cols[1..])
  }

  lemma {:induction false} SumVisitsNone(c: Customer, cols: seq<int>)
    ensures SumVisits([], c, cols) == 0
  {
    if cols != [] { SumVisitsNone(c, cols[1..]); }
  }

  lemma {:induction false} SumVisitsCons(v: Visit, vs: seq<Visit>, c: Customer, cols: seq<int>)
    ensures SumVisits([v] + vs, c, cols)
         == SumVisits(vs, c, cols) + (if v.customer == c then Occurrences(cols, v.year) else 0)
  {
    if cols != [] {
      SumVisitsCons(v, vs, c, cols[1..]);
      assert multiset([v] + vs) == multiset{v} + multiset(vs);
    }
  }

  /** Summing a customer's counts over distinct columns that cover every key's year counts each key once. */
  lemma {:induction false} SumVisitsIsCustomerCount(vs: seq<Visit>, c: Customer, cols: seq<int>)
    requires Distinct(cols)
    requires forall i :: 0 <= i < |vs| ==> vs[i].year in cols
    ensures SumVisits(vs, c, cols) == CustomerCount(vs, c)
  {
    if vs == [] {
      SumVisitsNone(c, cols);
    } else {
      assert vs == [vs[0]] + vs[1..];
      SumVisitsCons(vs[0], vs[1..], c, cols);
      SumVisitsIsCustomerCount(vs[1..], c, cols);
      OccursOnce(cols, vs[0].year);
    }
  }

  lemma {:induction false} CellsSumVisits(vs: seq<Visit>, c: Customer, cols: seq<int>, visits: map<int, nat>)
    requires forall i :: 0 <= i < |cols| ==> cols[i] in visits && visits[cols[i]] == multiset(vs)[Visit(c, cols[i])]
    ensures SumCells(cols, visits) == SumVisits(vs, c, cols)
  {
    if cols != [] {
      CellsSumVisits(vs, c, cols[1..], visits);
    }
  }

  /** A pivot cell of customer `c` in column `y` is the number of keys (c, y). */
  lemma PivotCell(vs: seq<Visit>, c: Customer, y: int)
    requires y in YearsOf(vs)
    ensures y in PivotRow(GroupSizes(vs), YearsOf(vs), c).visits
    ensures PivotRow(GroupSizes(vs), YearsOf(vs), c).visits[y] == multiset(vs)[Visit(c, y)]
  {
    var g := GroupSizes(vs);
    if Visit(c, y) !in g {
      assert Visit(c, y) !in vs;
    }
  }

  /** A pivot row's total is the number of keys of its customer. */
  lemma PivotRowTotal(vs: seq<Visit>, c: Customer)
    ensures PivotRow(GroupSizes(vs), YearsOf(vs), c).total == CustomerCount(vs, c)
  {
    var cols := YearsOf(vs);
    var row := PivotRow(GroupSizes(vs), cols, c);
    forall i | 0 <= i < |cols|
      ensures cols[i] in row.visits && row.visits[cols[i]] == multiset(vs)[Visit(c, cols[i])]
    {
      PivotCell(vs, c, cols[i]);
    }
    CellsSumVisits(vs, c, cols, row.visits);
    forall i | 0 <= i < |vs| ensures vs[i].year in cols {
      assert Visit(vs[i].customer, vs[i].year) in vs;
    }
    IncreasingIsDistinct(cols);
    SumVisitsIsCustomerCount(vs, c, cols);
  }

  /** Sum, over the customers `cs`, of their key counts. */
  function SumCustomers(vs: seq<Visit>, cs: seq<Customer>): nat
  {
    if cs == [] then 0 else CustomerCount(vs, cs[0]) + SumCustomers(vs, cs[1..])
  }

  lemma {:induction false} SumCustomersNone(cs: seq<Customer>)
    ensures SumCustomers([], cs) == 0
  {
    if cs != [] { SumCustomersNone(cs[1..]); }
  }

  lemma {:induction false} SumCustomersCons(v: Visit, vs: seq<Visit>, cs: seq<Customer>)
    ensures SumCustomers([v] + vs, cs) == SumCustomers(vs, cs) + Occurrences(cs, v.customer)
  {
    if cs != [] {
      SumCustomersCons(v, vs, cs[1..]);
      assert ([v] + vs)[0] == v && ([v] + vs)[1..] == vs;
    }
  }

  /** Summing key counts over distinct customers that cover every key counts each key once. */
  lemma {:induction false} SumCustomersIsLength(vs: seq<Visit>, cs: seq<Customer>)
    requires Distinct(cs)
    requires forall i :: 0 <= i < |vs| ==> vs[i].customer in cs
    ensures SumCustomers(vs, cs) == |vs|
  {
    if vs == [] {
      SumCustomersNone(cs);
    } else {
      assert vs == [vs[0]] + vs[1..];
      SumCustomersCons(vs[0], vs[1..], cs);
      SumCustomersIsLength(vs[1..], cs);
      OccursOnce(cs, vs[0].customer);
    }
  }

  lemma {:induction false} PivotRowsTotal(vs: seq<Visit>, cs: seq<Customer>)
    ensures TotalSum(PivotRows(GroupSizes(vs), YearsOf(vs), cs)) == SumCustomers(vs, cs)
  {
    if cs != [] {
      PivotRowsTotal(vs, cs[1..]);
      PivotRowTotal(vs, cs[0]);
      var p := PivotRows(GroupSizes(vs), YearsOf(vs), cs);
      assert p[1..] == PivotRows(GroupSizes(vs), YearsOf(vs), cs[1..]);
    }
  }

  // ---------------------------------------------------------------------
  // What the final table means in terms of the filtered rows
  // ---------------------------------------------------------------------

  /** Each row of the final table is the pivot row of its customer, a customer of the groupby. */
  lemma AggregateRow(rows: seq<Row>, i: nat)
    requires i < |Aggregate(rows).rows|
    ensures Aggregate(rows).rows[i].customer in CustomersOf(Keys(rows))
    ensures Aggregate(rows).rows[i]
         == PivotRow(GroupSizes(Keys(rows)), YearsOf(Keys(rows)), Aggregate(rows).rows[i].customer)
  {
    var vs := Keys(rows);
    var p := Pivot(vs);
    var r := Aggregate(rows).rows;
    PermutationMembers(r, p);
    var k :| 0 <= k < |p| && p[k] == r[i];
  }

  /**
   * Every cell counts the filtered rows with that id, that name and that year;
   * rows without an id, a name or a parseable date are never counted.
   */
  lemma CellCountsRows(rows: seq<Row>, i: nat, y: int)
    requires i < |Aggregate(rows).rows| && y in Aggregate(rows).columns
    ensures y in Aggregate(rows).rows[i].visits
    ensures Aggregate(rows).rows[i].visits[y] == CountRows(rows, Visit(Aggregate(rows).rows[i].customer, y))
  {
    AggregateRow(rows, i);
    PivotCell(Keys(rows), Aggregate(rows).rows[i].customer, y);
    KeysAgree(rows);
  }

  /** A cell is 0 exactly when no filtered row has that id, that name and that year. */
  lemma CellZeroIffNoRow(rows: seq<Row>, i: nat, y: int)
    requires i < |Aggregate(rows).rows| && y in Aggregate(rows).columns
    ensures y in Aggregate(rows).rows[i].visits
    ensures Aggregate(rows).rows[i].visits[y] == 0
        <==> forall r :: r in rows ==> !IsVisit(r, Visit(Aggregate(rows).rows[i].customer, y))
  {
    CellCountsRows(rows, i, y);
    CountRowsZero(rows, Visit(Aggregate(rows).rows[i].customer, y));
  }

  lemma KeysMember(rows: seq<Row>, v: Visit)
    ensures v in Keys(rows) <==> CountRows(rows, v) > 0
  {
    KeysAgree(rows);
    assert v in Keys(rows) <==> v in multiset(Keys(rows));
  }

  lemma IndexedCustomerHasRow(rows: seq<Row>, i: nat)
    requires i < |Aggregate(rows).rows|
    ensures exists y :: CountRows(rows, Visit(Aggregate(rows).rows[i].customer, y)) > 0
  {
    var c := Aggregate(rows).rows[i].customer;
    AggregateRow(rows, i);
    var y :| Visit(c, y) in Keys(rows);
    KeysMember(rows, Visit(c, y));
  }

  lemma DatedCustomerIndexed(rows: seq<Row>, c: Customer, y: int)
    requires CountRows(rows, Visit(c, y)) > 0
    ensures exists i :: 0 <= i < |Aggregate(rows).rows| && Aggregate(rows).rows[i].customer == c
  {
    var vs := Keys(rows);
    var t := Aggregate(rows);
    KeysMember(rows, Visit(c, y));
    var cs := CustomersOf(vs);
    var p := Pivot(vs);
    assert c in cs;
    var k :| 0 <= k < |cs| && cs[k] == c;
    assert p[k].customer == c;
    assert p[k] in multiset(t.rows);
    var i :| 0 <= i < |t.rows| && t.rows[i] == p[k];
  }

  /** The table has a row for customer `c` exactly when some filtered row has c's id, c's name and a parseable date. */
  lemma IndexIsDatedCustomers(rows: seq<Row>, c: Customer)
    ensures (exists i :: 0 <= i < |Aggregate(rows).rows| && Aggregate(rows).rows[i].customer == c)
        <==> exists y :: CountRows(rows, Visit(c, y)) > 0
  {
    if exists i :: 0 <= i < |Aggregate(rows).rows| && Aggregate(rows).rows[i].customer == c {
      var i :| 0 <= i < |Aggregate(rows).rows| && Aggregate(rows).rows[i].customer == c;
      IndexedCustomerHasRow(rows, i);
    }
    if exists y :: CountRows(rows, Visit(c, y)) > 0 {
      var y :| CountRows(rows, Visit(c, y)) > 0;
      DatedCustomerIndexed(rows, c, y);
    }
  }

  /** The table has a column for year `y` exactly when some filtered row has an id, a name and a date in `y`. */
  lemma ColumnsAreDatedYears(rows: seq<Row>, y: int)
    ensures y in Aggregate(rows).columns <==> exists c :: CountRows(rows, Visit(c, y)) > 0
  {
    if y in Aggregate(rows).columns {
      var c :| Visit(c, y) in Keys(rows);
      KeysMember(rows, Visit(c, y));
    }
    if exists c :: CountRows(rows, Visit(c, y)) > 0 {
      var c :| CountRows(rows, Visit(c, y)) > 0;
      KeysMember(rows, Visit(c, y));
    }
  }

  /** `Total_Visitas` of a row is the number of filtered rows of that customer whose date parses. */
  lemma TotalCountsCustomerRows(rows: seq<Row>, i: nat)
    requires i < |Aggregate(rows).rows|
    ensures Aggregate(rows).rows[i].total == CustomerRows(rows, Aggregate(rows).rows[i].customer)
  {
    AggregateRow(rows, i);
    PivotRowTotal(Keys(rows), Aggregate(rows).rows[i].customer);
    KeysAgree(rows);
  }

  /** The totals add up to the number of filtered rows with an id, a name and a parseable date. */
  lemma TotalsAddUpToCompleteRows(rows: seq<Row>)
    ensures TotalSum(Aggregate(rows).rows) == CompleteRows(rows)
  {
    var vs := Keys(rows);
    var cs := CustomersOf(vs);
    SortByTotalSorts(Pivot(vs));
    PivotRowsTotal(vs, cs);
    forall i | 0 <= i < |vs| ensures vs[i].customer in cs {
      assert Visit(vs[i].customer, vs[i].year) in vs;
    }
    SumCustomersIsLength(vs, cs);
    KeysAgree(rows);
  }

  lemma AppendAssoc<T>(p: seq<T>, q: seq<T>, r: seq<T>)
    ensures p + (q + r) == (p + q) + r
  {
  }

  lemma CleanedCons(x: Row, s: seq<Row>)
    ensures Cleaned([x] + s) == (if x.id.Some? && x.name.Some? then [x] else []) + Cleaned(s)
  {
    assert ([x] + s)[1..] == s;
  }

  lemma {:induction false} CleanedConcat(a: seq<Row>, b: seq<Row>)
    ensures Cleaned(a + b) == Cleaned(a) + Cleaned(b)
  {
    if a == [] {
      assert a + b == b;
    } else {
      var (x, t) := (a[0], a[1..]);
      var h := if x.id.Some? && x.name.Some? then [x] else [];
      assert a + b == [x] + (t + b) && a == [x] + t;
      CleanedCons(x, t + b);
      CleanedCons(x, t);
      CleanedConcat(t, b);
      AppendAssoc(h, Cleaned(t), Cleaned(b));
    }
  }

  lemma DatedCons(x: Row, s: seq<Row>)
    requires x.id.Some? && x.name.Some?
    requires forall r :: r in s ==> r.id.Some? && r.name.Some?
    ensures Dated([x] + s) == (if x.year.Some? then [VisitOf(x)] else []) + Dated(s)
  {
    assert ([x] + s)[1..] == s;
  }

  lemma {:induction false} DatedConcat(a: seq<Row>, b: seq<Row>)
    requires forall r :: r in a ==> r.id.Some? && r.name.Some?
    requires forall r :: r in b ==> r.id.Some? && r.name.Some?
    ensures Dated(a + b) == Dated(a) + Dated(b)
  {
    if a == [] {
      assert a + b == b;
    } else {
      assert a[0] in a;
      var h := if a[0].year.Some? then [VisitOf(a[0])] else [];
      assert a + b == [a[0]] + (a[1..] + b) && a == [a[0]] + a[1..];
      assert forall r :: r in a[1..] ==> r in a;
      DatedCons(a[0], a[1..] + b);
      DatedCons(a[0], a[1..]);
      DatedConcat(a[1..], b);
      AppendAssoc(h, Dated(a[1..]), Dated(b));
    }
  }

  lemma KeysConcat(a: seq<Row>, b: seq<Row>)
    ensures Keys(a + b) == Keys(a) + Keys(b)
  {
    CleanedConcat(a, b);
    DatedConcat(Cleaned(a), Cleaned(b));
  }

  lemma IncompleteRowHasNoKey(r: Row)
    requires !Complete(r)
    ensures Keys([r]) == []
  {
    CleanedCons(r, []);
    assert [r] + [] == [r];
    if r.id.Some? && r.name.Some? {
      DatedCons(r, []);
    }
  }

  /** A row without an id, a name or a parseable date, wherever it stands, changes nothing in the table. */
  lemma IncompleteRowIgnored(pre: seq<Row>, r: Row, post: seq<Row>)
    requires !Complete(r)
    ensures Aggregate(pre + [r] + post) == Aggregate(pre + post)
  {
    KeysConcat(pre + [r], post);
    KeysConcat(pre, [r]);
    KeysConcat(pre, post);
    IncompleteRowHasNoKey(r);
    assert Keys(pre + [r]) == Keys(pre);
    assert Keys(pre + [r] + post) == Keys(pre + post);
  }
}
