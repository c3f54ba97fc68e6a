/**
 * The transaction rows the analysis reads. The spreadsheet has at least
 * 23 positional columns; only the seven that the analysis step touches are
 * kept, each named after its role:
 *   column 2  date            -> year  (already reduced to the year of the date)
 *   column 3  customer id     -> id
 *   column 4  customer name   -> name
 *   column 11 advisor type    -> advisor
 *   column 13 department      -> department
 *   column 18 product family  -> family
 *   column 22 area            -> area
 * (0-based positions, as the code indexes `df.columns`.)
 */
module Records {
  import opened Wrappers

  /** One visit/purchase row; `None` stands for an empty cell (or an unparseable date). */
  datatype Row = Row(
    id: Option<string>,
    name: Option<string>,
    year: Option<int>,
    advisor: Option<string>,
    department: Option<string>,
    family: Option<string>,
    area: Option<string>)

  /** The four categorical columns the analyst can filter on. */
  datatype Dimension = Advisor | Department | Family | Area

  function Attribute(r: Row, d: Dimension): Option<string>
  {
    match d
    case Advisor => r.advisor
    case Department => r.department
    case Family => r.family
    case Area => r.area
  }

  /** A customer is the (id, name) pair the aggregation groups by. */
  datatype Customer = Customer(id: string, name: string)

  /** The groupby key of one cleaned, dated row. */
  datatype Visit = Visit(customer: Customer, year: int)

  /** Raw row `r` is a transaction of `v.customer` in year `v.year`. */
  predicate IsVisit(r: Row, v: Visit)
  {
    r.id == Some(v.customer.id) && r.name == Some(v.customer.name) && r.year == Some(v.year)
  }

  /** Raw row `r` has an id, a name and a parseable date. */
  predicate Complete(r: Row)
  {
    r.id.Some? && r.name.Some? && r.year.Some?
  }

  function VisitOf(r: Row): Visit
    requires Complete(r)
  {
    Visit(Customer(r.id.value, r.name.value), r.year.value)
  }
}
