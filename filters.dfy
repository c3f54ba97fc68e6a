/**
 * The filter chain of the analysis step: four multiselects, one per
 * categorical column, each offering the sentinel "Todos" ("all").
 */
module Filters {
  import opened Wrappers
  import opened Records

  /** The sentinel every multiselect offers first; selecting it lifts that filter. */
  const All: string := "Todos"

  /** One multiselect: the column it filters and the values picked in it. */
  datatype Constraint = Constraint(dimension: Dimension, selection: seq<string>)

  /** The four multiselects of the filter section. */
  datatype Selections = Selections(
    advisor: seq<string>,
    department: seq<string>,
    family: seq<string>,
    area: seq<string>)

  function Constraints(s: Selections): seq<Constraint>
  {
    [Constraint(Advisor, s.advisor), Constraint(Department, s.department),
     Constraint(Family, s.family), Constraint(Area, s.area)]
  }

  /**
   * What one multiselect lets through: everything when the sentinel is
   * selected; otherwise only rows whose value in that column is present
   * and is one of the selected values.
   */
  predicate Admits(c: Constraint, r: Row)
  {
    All in c.selection
    || (Attribute(r, c.dimension).Some? && Attribute(r, c.dimension).value in c.selection)
  }

  predicate AdmittedByAll(cs: seq<Constraint>, r: Row)
  {
    forall i :: 0 <= i < |cs| ==> Admits(cs[i], r)
  }

  /** `a` is obtained from `b` by deleting elements, keeping the order of the rest. */
  predicate IsSubsequence<T(==)>(a: seq<T>, b: seq<T>)
    decreases |b|
  {
    if b == [] then a == []
    else (a != [] && a[0] == b[0] && IsSubsequence(a[1..], b[1..])) || IsSubsequence(a, b[1..])
  }

  /** The rows every constraint admits, in their original order: the meaning of the filter chain. */
  function Selected(rows: seq<Row>, cs: seq<Constraint>): (r: seq<Row>)
    ensures |r| <= |rows|
    ensures IsSubsequence(r, rows)
    ensures forall x :: x in r <==> x in rows && AdmittedByAll(cs, x)
  {
    if rows == [] then []
    else
      assert rows == [rows[0]] + rows[1..];
      if AdmittedByAll(cs, rows[0]) then [rows[0]] + Selected(rows[1..], cs)
      else Selected(rows[1..], cs)
  }

  /**
   * One `isin` step over column `d`: keeps the rows whose value there is one
   * of `sel`. A missing value never matches.
   */
  function Isin(rows: seq<Row>, d: Dimension, sel: seq<string>): (r: seq<Row>)
    ensures IsSubsequence(r, rows)
    ensures forall x :: x in r <==> x in rows && Attribute(x, d).Some? && Attribute(x, d).value in sel
  {
    if rows == [] then []
    else
      assert rows == [rows[0]] + rows[1..];
      if Attribute(rows[0], d).Some? && Attribute(rows[0], d).value in sel
      then [rows[0]] + Isin(rows[1..], d, sel)
      else Isin(rows[1..], d, sel)
  }

  /** The selection keeps every copy of an admitted row and no copy of any other. */
  lemma {:induction false} SelectedCounts(rows: seq<Row>, cs: seq<Constraint>, x: Row)
    ensures multiset(Selected(rows, cs))[x] == if AdmittedByAll(cs, x) then multiset(rows)[x] else 0
  {
    if rows != [] {
      SelectedCounts(rows[1..], cs, x);
      assert rows == [rows[0]] + rows[1..];
    }
  }

  /** An `isin` step keeps every copy of a matching row and no copy of any other. */
  lemma {:induction false} IsinCounts(rows: seq<Row>, d: Dimension, sel: seq<string>, x: Row)
    ensures multiset(Isin(rows, d, sel))[x]
         == if Attribute(x, d).Some? && Attribute(x, d).value in sel then multiset(rows)[x] else 0
  {
    if rows != [] {
      IsinCounts(rows[1..], d, sel, x);
      assert rows == [rows[0]] + rows[1..];
    }
  }

  lemma AdmittedByAllSnoc(cs: seq<Constraint>, c: Constraint, r: Row)
    ensures AdmittedByAll(cs + [c], r) <==> AdmittedByAll(cs, r) && Admits(c, r)
  {
    if AdmittedByAll(cs, r) && Admits(c, r) {
      forall i | 0 <= i < |cs + [c]| ensures Admits((cs + [c])[i], r) {
        if i < |cs| { assert (cs + [c])[i] == cs[i]; }
      }
    }
    if AdmittedByAll(cs + [c], r) {
      forall i | 0 <= i < |cs| ensures Admits(cs[i], r) { assert (cs + [c])[i] == cs[i]; }
      assert (cs + [c])[|cs|] == c;
    }
  }

  /** With no multiselect applied, every row is kept. */
  lemma {:induction false} NoConstraintKeepsAll(rows: seq<Row>)
    ensures Selected(rows, []) == rows
  {
    if rows != [] {
      NoConstraintKeepsAll(rows[1..]);
    }
  }

  /** A multiselect that contains the sentinel imposes no constraint. */
  lemma {:induction false} SentinelImposesNothing(rows: seq<Row>, cs: seq<Constraint>, c: Constraint)
    requires All in c.selection
    ensures Selected(rows, cs + [c]) == Selected(rows, cs)
  {
    if rows != [] {
      AdmittedByAllSnoc(cs, c, rows[0]);
      SentinelImposesNothing(rows[1..], cs, c);
    }
  }

  /** Without the sentinel, an `isin` step on the rows selected so far adds that multiselect's constraint. */
  lemma {:induction false} IsinAddsConstraint(rows: seq<Row>, cs: seq<Constraint>, c: Constraint)
    requires All !in c.selection
    ensures Isin(Selected(rows, cs), c.dimension, c.selection) == Selected(rows, cs + [c])
  {
    if rows != [] {
      AdmittedByAllSnoc(cs, c, rows[0]);
      IsinAddsConstraint(rows[1..], cs, c);
      if AdmittedByAll(cs, rows[0]) {
        var rest := Selected(rows[1..], cs);
        assert ([rows[0]] + rest)[0] == rows[0];
        assert ([rows[0]] + rest)[1..] == rest;
      }
    }
  }

  /** One conditional step of the chain: filter by `c` unless its selection holds the sentinel. */
  method Narrow(filtered: seq<Row>, c: Constraint, ghost rows: seq<Row>, ghost applied: seq<Constraint>)
    returns (next: seq<Row>)
    requires filtered == Selected(rows, applied)
    ensures next == Selected(rows, applied + [c])
  {
    if All !in c.selection {
      IsinAddsConstraint(rows, applied, c);
      next := Isin(filtered, c.dimension, c.selection);
    } else {
      SentinelImposesNothing(rows, applied, c);
      next := filtered;
    }
  }

  /** The filter chain: the four multiselects applied one after another to a copy of the data. */
  method ApplyFilters(rows: seq<Row>, s: Selections) returns (filtered: seq<Row>)
    ensures filtered == Selected(rows, Constraints(s))
  {
    ghost var cs := Constraints(s);
    NoConstraintKeepsAll(rows);
    filtered := rows;
    assert cs[..0] == [];
    filtered := Narrow(filtered, Constraint(Advisor, s.advisor), rows, cs[..0]);
    PrefixStep(cs, 0);
    filtered := Narrow(filtered, Constraint(Department, s.department), rows, cs[..1]);
    PrefixStep(cs, 1);
    filtered := Narrow(filtered, Constraint(Family, s.family), rows, cs[..2]);
    PrefixStep(cs, 2);
    filtered := Narrow(filtered, Constraint(Area, s.area), rows, cs[..3]);
    PrefixStep(cs, 3);
    assert cs[..4] == cs;
  }

  lemma PrefixStep(cs: seq<Constraint>, k: nat)
    requires k < |cs|
    ensures cs[..k] + [cs[k]] == cs[..k + 1]
  {
  }

  /** A multiselect whose picked values no row carries (or an empty one) leaves no row. */
  lemma UnmatchedSelectionSelectsNothing(rows: seq<Row>, cs: seq<Constraint>, k: nat)
    requires k < |cs| && All !in cs[k].selection
    requires forall r :: r in rows ==>
               Attribute(r, cs[k].dimension).None? || Attribute(r, cs[k].dimension).value !in cs[k].selection
    ensures Selected(rows, cs) == []
  {
  }
}
