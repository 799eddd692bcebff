/** The address search (app_corrigido.py, lines 138-161).

    The spreadsheet is a table whose rows map column names to cells; a cell is
    either empty (pandas' NaN) or a text value. The search narrows the rows
    step by step: first to one city, then optionally to one access point (AT),
    then optionally to one distribution facility (FAC). Each optional step
    offers the sorted distinct values found in the rows that survived the
    previous step, preceded by the wildcard "Todas", and is skipped when there
    is no value to offer. The surviving rows are shown through a fixed list of
    columns, restricted to the columns the table has.
 */
module Addresses {
  import opened Seqs
  import opened Ordering

  datatype Cell = Null | Text(text: string)

  /** One spreadsheet row; a column missing from the map reads as empty. */
  type Row = map<string, Cell>

  datatype Table = Table(columns: seq<string>, rows: seq<Row>)

  /** Every cell of every row stands in one of the table's columns, as in a
      pandas data frame. */
  ghost predicate RowsWithinColumns(t: Table)
  {
    forall row :: row in t.rows ==> forall c :: c in row ==> c in t.columns
  }

  const CityColumn: string := "CIDADE"
  const AtColumn: string := "AT"
  const FacColumn: string := "FAC"

  /** The option that leaves an optional filter off. */
  const Wildcard: string := "Todas"

  /** The columns shown, in the order shown (line 157). */
  const ShownColumns: seq<string> := ["ID", "Endereço", "BAIRRO", "CIDADE", "AT", "CTO", "FAC"]

  function Get(row: Row, column: string): Cell
  {
    if column in row then row[column] else Null
  }

  /** The row's cell in the column holds exactly `v`. */
  predicate HasValue(row: Row, column: string, v: string)
  {
    Get(row, column) == Text(v)
  }

  /** `df[df[column] == v]`: the rows whose cell equals `v`, in table order.
      An empty cell equals nothing. */
  function Matching(rows: seq<Row>, column: string, v: string): (r: seq<Row>)
    ensures forall row :: row in r <==> row in rows && HasValue(row, column, v)
    ensures forall row :: multiset(r)[row] == if HasValue(row, column, v) then multiset(rows)[row] else 0
  {
    var keep := (row: Row) => HasValue(row, column, v);
    assert forall row :: multiset(Filter(rows, keep))[row] == if keep(row) then multiset(rows)[row] else 0 by {
      forall row ensures multiset(Filter(rows, keep))[row] == if keep(row) then multiset(rows)[row] else 0 {
        FilterCount(rows, keep, row);
      }
    }
    Filter(rows, keep)
  }

  /** `df[column].dropna()`: the non-empty values of the column, in table order. */
  function Present(rows: seq<Row>, column: string): (vs: seq<string>)
    ensures forall v :: v in vs <==> exists row :: row in rows && HasValue(row, column, v)
  {
    if rows == [] then []
    else
      var rest := Present(rows[1..], column);
      assert forall row :: row in rows <==> row == rows[0] || row in rows[1..] by {
        assert rows == [rows[0]] + rows[1..];
      }
      match Get(rows[0], column)
      case Null => rest
      case Text(v) =>
        assert HasValue(rows[0], column, v);
        [v] + rest
  }

  /** `sorted(df[column].dropna().unique())`: the distinct non-empty values of
      the column, sorted. */
  function Domain(rows: seq<Row>, column: string): (d: seq<string>)
    ensures StrictlySorted(d)
    ensures forall v :: v in d <==> exists row :: row in rows && HasValue(row, column, v)
  {
    SortedDistinct(Present(rows, column))
  }

  /** The domain is empty exactly when every cell of the column is empty. */
  lemma DomainEmpty(rows: seq<Row>, column: string)
    ensures Domain(rows, column) == [] <==> forall row :: row in rows ==> Get(row, column).Null?
  {
    var d := Domain(rows, column);
    if d != [] {
      assert d[0] in d;
    }
    forall row | row in rows && Get(row, column).Text?
      ensures d != []
    {
      var x := Get(row, column).text;
      assert HasValue(row, column, x);
      assert x in d;
    }
  }

  /** The options of an optional filter's select box: nothing when the column
      has no value among the rows (the box is not shown), otherwise the
      wildcard followed by the domain. */
  function Options(rows: seq<Row>, column: string): (opts: seq<string>)
    ensures opts == [] <==> forall row :: row in rows ==> Get(row, column).Null?
    ensures opts != [] ==> opts[0] == Wildcard && opts[1..] == Domain(rows, column)
  {
    var d := Domain(rows, column);
    DomainEmpty(rows, column);
    if d == [] then
      []
    else
      assert d[0] in d;
      [Wildcard] + d
  }

  /** One optional filter step: skipped when the column has no value among the
      rows or the wildcard is chosen, an exact match otherwise. */
  function Narrow(rows: seq<Row>, column: string, choice: string): (r: seq<Row>)
    ensures choice == Wildcard ==> r == rows
    ensures (forall row :: row in rows ==> Get(row, column).Null?) ==> r == rows
    ensures choice != Wildcard && (exists row :: row in rows && Get(row, column).Text?) ==>
      forall row :: row in r <==> row in rows && HasValue(row, column, choice)
    ensures choice != Wildcard && (exists row :: row in rows && Get(row, column).Text?) ==>
      forall row :: multiset(r)[row] == if HasValue(row, column, choice) then multiset(rows)[row] else 0
  {
    var d := Domain(rows, column);
    DomainEmpty(rows, column);
    if d == [] || choice == Wildcard then
      rows
    else
      assert d[0] in d;
      Matching(rows, column, choice)
  }

  /** `[col for col in ShownColumns if col in df.columns]`. */
  function DisplayedColumns(columns: seq<string>): (r: seq<string>)
    ensures forall c :: c in r <==> c in ShownColumns && c in columns
  {
    Filter(ShownColumns, (c: string) => c in columns)
  }

  /** `df[columns]` on one row: the row restricted to the given columns. */
  function Project(row: Row, columns: seq<string>): (p: Row)
    ensures forall c :: c in p <==> c in row && c in columns
    ensures forall c :: c in columns ==> Get(p, c) == Get(row, c)
  {
    map c | c in row && c in columns :: row[c]
  }

  function ProjectAll(rows: seq<Row>, columns: seq<string>): (p: seq<Row>)
    ensures |p| == |rows|
    ensures forall i :: 0 <= i < |rows| ==> p[i] == Project(rows[i], columns)
  {
    seq(|rows|, i requires 0 <= i < |rows| => Project(rows[i], columns))
  }

  /** What the search page shows below the filters. */
  datatype Outcome = Found(columns: seq<string>, rows: seq<Row>) | NotFound

  /** Everything the search page shows: the options of the three select boxes
      (empty for a box that is not shown) and the outcome. */
  datatype View = View(cityOptions: seq<string>, atOptions: seq<string>, facOptions: seq<string>, outcome: Outcome)

  /** One optional step of the page (lines 143-147 and 149-153): offer the
      select box when the column has values, and narrow unless the wildcard
      is chosen. */
  method Refine(rows: seq<Row>, column: string, choice: string) returns (options: seq<string>, r: seq<Row>)
    ensures options == Options(rows, column)
    ensures r == Narrow(rows, column, choice)
  {
    var values := Domain(rows, column);
    options := [];
    r := rows;
    if |values| > 0 {
      options := [Wildcard] + values;
      if choice != Wildcard {
        r := Matching(rows, column, choice);
      }
    }
  }

  /** The search page, given the three selections: `df_filtrado` is narrowed
      by city, then by AT, then by FAC, and the survivors are projected on the
      displayed columns. */
  method Search(t: Table, city: string, atChoice: string, facChoice: string) returns (v: View)
    requires CityColumn in t.columns && AtColumn in t.columns && FacColumn in t.columns
    requires RowsWithinColumns(t)
    ensures v.cityOptions == Domain(t.rows, CityColumn)
    ensures var byCity := Matching(t.rows, CityColumn, city);
      var byAt := Narrow(byCity, AtColumn, atChoice);
      var byFac := Narrow(byAt, FacColumn, facChoice);
      && v.atOptions == Options(byCity, AtColumn)
      && v.facOptions == Options(byAt, FacColumn)
      && v.outcome == if byFac == [] then NotFound else Found(DisplayedColumns(t.columns), ProjectAll(byFac, DisplayedColumns(t.columns)))
    ensures v.outcome.Found? ==> CityColumn in v.outcome.columns
    ensures v.outcome.Found? ==> forall row :: row in v.outcome.rows ==> HasValue(row, CityColumn, city)
  {
    var cityOptions := Domain(t.rows, CityColumn);
    var filtered := Matching(t.rows, CityColumn, city);
    ghost var byCity := filtered;

    var atOptions;
    atOptions, filtered := Refine(filtered, AtColumn, atChoice);
    ghost var byAt := filtered;

    var facOptions;
    facOptions, filtered := Refine(filtered, FacColumn, facChoice);

    var outcome := NotFound;
    if filtered != [] {
      var columns := DisplayedColumns(t.columns);
      outcome := Found(columns, ProjectAll(filtered, columns));
      CascadeKeepsCity(t.rows, city, atChoice, facChoice);
      forall row | row in outcome.rows
        ensures HasValue(row, CityColumn, city)
      {
        var i :| 0 <= i < |outcome.rows| && outcome.rows[i] == row;
        assert filtered[i] in filtered;
      }
    }
    v := View(cityOptions, atOptions, facOptions, outcome);
  }

  // ---------------------------------------------------------------------
  // Properties of the cascade

  /** Each optional step keeps a subsequence of its input: it only drops rows. */
  lemma NarrowIsSubsequence(rows: seq<Row>, column: string, choice: string)
    ensures IsSubsequence(Narrow(rows, column, choice), rows)
  {
    if Narrow(rows, column, choice) == rows {
      assert Embeds(rows, rows, seq(|rows|, i requires 0 <= i < |rows| => i));
    } else {
      FilterIsSubsequence(rows, (row: Row) => HasValue(row, column, choice));
    }
  }

  /** The whole cascade: every surviving row is in the chosen city, and each
      step's result is a subsequence of the step before and of the table. */
  lemma CascadeKeepsCity(rows: seq<Row>, city: string, atChoice: string, facChoice: string)
    ensures var byCity := Matching(rows, CityColumn, city);
      var byAt := Narrow(byCity, AtColumn, atChoice);
      var byFac := Narrow(byAt, FacColumn, facChoice);
      && IsSubsequence(byCity, rows)
      && IsSubsequence(byAt, byCity)
      && IsSubsequence(byFac, byAt)
      && IsSubsequence(byFac, rows)
      && forall row :: row in byFac ==> HasValue(row, CityColumn, city)
  {
    var byCity := Matching(rows, CityColumn, city);
    var byAt := Narrow(byCity, AtColumn, atChoice);
    var byFac := Narrow(byAt, FacColumn, facChoice);
    FilterIsSubsequence(rows, (row: Row) => HasValue(row, CityColumn, city));
    NarrowIsSubsequence(byCity, AtColumn, atChoice);
    NarrowIsSubsequence(byAt, FacColumn, facChoice);
    SubsequenceTransitive(byFac, byAt, byCity);
    SubsequenceTransitive(byFac, byCity, rows);
    SubsequenceMembers(byFac, byCity);
  }

  /** Domains only shrink as rows are dropped: every value offered for a
      subset of the rows is offered for the rows, and there are no more of them. */
  lemma DomainShrinks(rows: seq<Row>, sub: seq<Row>, column: string)
    requires forall row :: row in sub ==> row in rows
    ensures forall v :: v in Domain(sub, column) ==> v in Domain(rows, column)
    ensures |Domain(sub, column)| <= |Domain(rows, column)|
  {
    var small, large := Domain(sub, column), Domain(rows, column);
    StrictlySortedCard(small);
    StrictlySortedCard(large);
    assert (set v | v in small) <= (set v | v in large);
    SubsetCard(set v | v in small, set v | v in large);
  }

  lemma {:induction false} SubsetCard(a: set<string>, b: set<string>)
    requires a <= b
    ensures |a| <= |b|
  {
    if a != {} {
      var x :| x in a;
      SubsetCard(a - {x}, b - {x});
    }
  }

  /** The domain depends only on which rows there are, not on their order or
      repetition. */
  lemma DomainIgnoresOrder(rows: seq<Row>, others: seq<Row>, column: string)
    requires forall row :: row in rows <==> row in others
    ensures Domain(rows, column) == Domain(others, column)
  {
    StrictlySortedUnique(Domain(rows, column), Domain(others, column));
  }

  /** The options after filtering by AT come from the rows that survived it:
      the FAC domain after the AT step is part of the FAC domain of the city. */
  lemma CascadeDomainsShrink(rows: seq<Row>, city: string, atChoice: string)
    ensures var byCity := Matching(rows, CityColumn, city);
      var byAt := Narrow(byCity, AtColumn, atChoice);
      && (forall v :: v in Domain(byAt, FacColumn) ==> v in Domain(byCity, FacColumn))
      && |Domain(byAt, FacColumn)| <= |Domain(byCity, FacColumn)|
      && |Domain(byCity, AtColumn)| <= |Domain(rows, AtColumn)|
  {
    var byCity := Matching(rows, CityColumn, city);
    var byAt := Narrow(byCity, AtColumn, atChoice);
    NarrowIsSubsequence(byCity, AtColumn, atChoice);
    SubsequenceMembers(byAt, byCity);
    DomainShrinks(byCity, byAt, FacColumn);
    DomainShrinks(rows, byCity, AtColumn);
  }

  /** The displayed columns keep the order of `ShownColumns`. */
  lemma DisplayedColumnsInOrder(columns: seq<string>)
    ensures IsSubsequence(DisplayedColumns(columns), ShownColumns)
  {
    FilterIsSubsequence(ShownColumns, (c: string) => c in columns);
  }
}
