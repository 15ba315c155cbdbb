/** The popup's live cookie filter: every row of the cookie table is shown
    when the lower-cased filter text occurs in its lower-cased name, value
    or domain cell, and hidden otherwise. Only the display flag of a row
    ever changes. */
module CookieFilter {
  import opened Strings

  /** One `<tr>` of the cookie table: the text of its `<td>` cells from
      left to right (checkbox, name, value, domain, actions) and whether
      the row is displayed (`display: ''`) or hidden (`display: 'none'`). */
  datatype Row = Row(cells: seq<string>, visible: bool)

  /** The filter reads cells 1, 2 and 3 of a row; on a row with fewer `td`
      cells the read of a missing cell throws a TypeError. */
  predicate HasTextCells(row: Row) {
    |row.cells| >= 4
  }

  function Name(row: Row): string
    requires HasTextCells(row)
  {
    row.cells[1]
  }

  function Value(row: Row): string
    requires HasTextCells(row)
  {
    row.cells[2]
  }

  function Domain(row: Row): string
    requires HasTextCells(row)
  {
    row.cells[3]
  }

  /** The per-row test of `filterCookies`. */
  predicate RowMatches(filter: string, row: Row)
    requires HasTextCells(row)
  {
    var f := Lower(filter);
    Contains(Lower(Name(row)), f) || Contains(Lower(Value(row)), f) || Contains(Lower(Domain(row)), f)
  }

  /** The row with its display flag set from the filter. */
  function Show(filter: string, row: Row): Row
    requires HasTextCells(row)
  {
    row.(visible := RowMatches(filter, row))
  }

  /** The table after one run of `filterCookies`. The rows are visited in
      order; if one lacks a text cell the run stops there with a TypeError,
      after the rows before it were updated and with the rest untouched. */
  datatype Outcome = Completed(rows: seq<Row>) | Threw(rows: seq<Row>, at: nat) {
    /** Row `i` was reached and updated by the run. */
    predicate Updated(i: int) {
      Completed? || i < at
    }
  }

  /** `filterCookies` over the rows of the table. */
  function ApplyFilter(filter: string, rows: seq<Row>): (out: Outcome)
    ensures |out.rows| == |rows|
    decreases |rows|
  {
    if |rows| == 0 then Completed([])
    else if !HasTextCells(rows[0]) then Threw(rows, 0)
    else
      match ApplyFilter(filter, rows[1..])
      case Completed(rest) => Completed([Show(filter, rows[0])] + rest)
      case Threw(rest, k) => Threw([Show(filter, rows[0])] + rest, k + 1)
  }

  /** How a run ends: it completes exactly when every row has its text
      cells, and otherwise it stops at the first row without them. */
  lemma {:induction false} ApplyFilterOutcome(filter: string, rows: seq<Row>)
    ensures var out := ApplyFilter(filter, rows);
      && (out.Completed? <==> forall i :: 0 <= i < |rows| ==> HasTextCells(rows[i]))
      && (out.Threw? ==> out.at < |rows| && !HasTextCells(rows[out.at])
                         && forall i :: 0 <= i < out.at ==> HasTextCells(rows[i]))
    decreases |rows|
  {
    if |rows| > 0 && HasTextCells(rows[0]) {
      ApplyFilterOutcome(filter, rows[1..]);
      assert forall i :: 0 < i < |rows| ==> rows[i] == rows[1..][i - 1];
    }
  }

  /** What a run does to row `i`: its cells never change; if the run reached
      it, its display flag is the filter's verdict, and otherwise the row is
      untouched. */
  lemma {:induction false} ApplyFilterRow(filter: string, rows: seq<Row>, i: nat)
    requires i < |rows|
    ensures var out := ApplyFilter(filter, rows);
      && out.rows[i].cells == rows[i].cells
      && (out.Updated(i) ==> HasTextCells(rows[i]) && out.rows[i].visible == RowMatches(filter, rows[i]))
      && (!out.Updated(i) ==> out.rows[i] == rows[i])
    decreases |rows|
  {
    if i > 0 && HasTextCells(rows[0]) {
      ApplyFilterRow(filter, rows[1..], i - 1);
      var tail := ApplyFilter(filter, rows[1..]);
      var out := ApplyFilter(filter, rows);
      assert out.rows[i] == tail.rows[i - 1];
      assert rows[i] == rows[1..][i - 1];
      assert out.Updated(i) == tail.Updated(i - 1);
    }
  }

  /** Both facts for every row at once. */
  lemma {:induction false} ApplyFilterSpec(filter: string, rows: seq<Row>)
    ensures var out := ApplyFilter(filter, rows);
      && (forall i :: 0 <= i < |rows| ==> out.rows[i].cells == rows[i].cells)
      && (out.Completed? <==> forall i :: 0 <= i < |rows| ==> HasTextCells(rows[i]))
      && (out.Threw? ==> out.at < |rows| && !HasTextCells(rows[out.at])
                         && forall i :: 0 <= i < out.at ==> HasTextCells(rows[i]))
      && (forall i :: 0 <= i < |rows| && out.Updated(i) ==>
            HasTextCells(rows[i]) && out.rows[i].visible == RowMatches(filter, rows[i]))
      && (forall i :: 0 <= i < |rows| && !out.Updated(i) ==> out.rows[i] == rows[i])
  {
    ApplyFilterOutcome(filter, rows);
    forall i | 0 <= i < |rows| {
      ApplyFilterRow(filter, rows, i);
    }
  }

  /** A row passes the filter exactly when the lower-cased filter occurs in
      its lower-cased name, value or domain. */
  lemma {:induction false} RowMatchesIff(filter: string, row: Row)
    requires HasTextCells(row)
    ensures RowMatches(filter, row) <==>
      || IsSubstring(Lower(filter), Lower(Name(row)))
      || IsSubstring(Lower(filter), Lower(Value(row)))
      || IsSubstring(Lower(filter), Lower(Domain(row)))
  {
    ContainsIffSubstring(Lower(Name(row)), Lower(filter));
    ContainsIffSubstring(Lower(Value(row)), Lower(filter));
    ContainsIffSubstring(Lower(Domain(row)), Lower(filter));
  }

  /** On a well-formed table the run completes, and afterwards a row is
      visible exactly when the filter occurs in one of its text cells. */
  lemma {:induction false} VisibleIff(filter: string, rows: seq<Row>, i: nat)
    requires forall j :: 0 <= j < |rows| ==> HasTextCells(rows[j])
    requires i < |rows|
    ensures ApplyFilter(filter, rows).Completed?
    ensures ApplyFilter(filter, rows).rows[i].visible <==>
      || IsSubstring(Lower(filter), Lower(Name(rows[i])))
      || IsSubstring(Lower(filter), Lower(Value(rows[i])))
      || IsSubstring(Lower(filter), Lower(Domain(rows[i])))
  {
    ApplyFilterSpec(filter, rows);
    RowMatchesIff(filter, rows[i]);
  }

  /** The empty filter shows every row the run reaches. */
  lemma {:induction false} EmptyFilterShowsAll(rows: seq<Row>)
    ensures forall i :: 0 <= i < |rows| && ApplyFilter([], rows).Updated(i) ==>
      ApplyFilter([], rows).rows[i].visible
  {
    var out := ApplyFilter([], rows);
    ApplyFilterSpec([], rows);
    forall i | 0 <= i < |rows| && out.Updated(i) ensures out.rows[i].visible {
      ContainsEmpty(Lower(Name(rows[i])));
    }
  }

  /** Two filters that agree after lower-casing have the same effect. */
  lemma {:induction false} CaseInsensitive(f: string, g: string, rows: seq<Row>)
    requires Lower(f) == Lower(g)
    ensures ApplyFilter(f, rows) == ApplyFilter(g, rows)
    decreases |rows|
  {
    if |rows| > 0 && HasTextCells(rows[0]) {
      CaseInsensitive(f, g, rows[1..]);
    }
  }

  /** In particular, typing the filter in upper or lower case is the same. */
  lemma {:induction false} LowerFilterSame(f: string, rows: seq<Row>)
    ensures ApplyFilter(Lower(f), rows) == ApplyFilter(f, rows)
  {
    LowerIdempotent(f);
    CaseInsensitive(Lower(f), f, rows);
  }

  /** Running the filter a second time changes nothing. */
  lemma {:induction false} Idempotent(filter: string, rows: seq<Row>)
    ensures ApplyFilter(filter, ApplyFilter(filter, rows).rows) == ApplyFilter(filter, rows)
    decreases |rows|
  {
    var once := ApplyFilter(filter, rows);
    if |rows| > 0 && HasTextCells(rows[0]) {
      Idempotent(filter, rows[1..]);
      assert once.rows[1..] == ApplyFilter(filter, rows[1..]).rows;
    }
  }

  /** Clearing the filter after any filter shows every row again, with the
      table's rows, their order and their text as they were. */
  lemma {:induction false} ClearRestores(filter: string, rows: seq<Row>)
    requires forall i :: 0 <= i < |rows| ==> HasTextCells(rows[i])
    ensures var cleared := ApplyFilter([], ApplyFilter(filter, rows).rows);
      && cleared.Completed?
      && |cleared.rows| == |rows|
      && forall i :: 0 <= i < |rows| ==>
           cleared.rows[i].visible && cleared.rows[i].cells == rows[i].cells
  {
    ApplyFilterSpec(filter, rows);
    ApplyFilterSpec([], ApplyFilter(filter, rows).rows);
    EmptyFilterShowsAll(ApplyFilter(filter, rows).rows);
  }

  /** A row that passes a filter passes every part of it. */
  lemma {:induction false} MatchMonotonic(f: string, g: string, row: Row)
    requires HasTextCells(row)
    requires IsSubstring(f, g)
    requires RowMatches(g, row)
    ensures RowMatches(f, row)
  {
    SubstringLower(f, g);
    RowMatchesIff(f, row);
    RowMatchesIff(g, row);
    var lf, lg := Lower(f), Lower(g);
    if IsSubstring(lg, Lower(Name(row))) {
      SubstringTransitive(lf, lg, Lower(Name(row)));
    } else if IsSubstring(lg, Lower(Value(row))) {
      SubstringTransitive(lf, lg, Lower(Value(row)));
    } else {
      SubstringTransitive(lf, lg, Lower(Domain(row)));
    }
  }

  /** Narrowing the filter by typing more only hides rows: whatever is
      visible under the longer filter is visible under any part of it. On
      a table where the run throws, both runs stop at the same row, and the
      rows after it keep their flag under either filter. */
  lemma {:induction false} FilterMonotonic(f: string, g: string, rows: seq<Row>)
    requires IsSubstring(f, g)
    ensures forall i :: 0 <= i < |rows| && ApplyFilter(g, rows).rows[i].visible ==>
      ApplyFilter(f, rows).rows[i].visible
  {
    ApplyFilterSpec(f, rows);
    ApplyFilterSpec(g, rows);
    forall i | 0 <= i < |rows| && ApplyFilter(g, rows).rows[i].visible
      ensures ApplyFilter(f, rows).rows[i].visible
    {
      if ApplyFilter(g, rows).Updated(i) {
        assert ApplyFilter(f, rows).Updated(i);
        MatchMonotonic(f, g, rows[i]);
      }
    }
  }

  /** Only the name, value and domain cells decide: rows that agree on those
      three cells get the same display flag, whatever their checkbox and
      actions cells and their earlier display state. Row `i` is updated as
      soon as every row up to it has its text cells; rows after it may be
      short and make the run throw later. */
  lemma {:induction false} OnlyTextCellsMatter(filter: string, rows: seq<Row>, others: seq<Row>, i: nat)
    requires i < |rows| && i < |others|
    requires forall j :: 0 <= j <= i ==> HasTextCells(rows[j]) && HasTextCells(others[j])
    requires |rows[i].cells| >= 4 && |others[i].cells| >= 4
    requires rows[i].cells[1..4] == others[i].cells[1..4]
    ensures ApplyFilter(filter, rows).rows[i].visible == ApplyFilter(filter, others).rows[i].visible
  {
    ApplyFilterSpec(filter, rows);
    ApplyFilterSpec(filter, others);
    assert Name(rows[i]) == rows[i].cells[1..4][0] == Name(others[i]);
    assert Value(rows[i]) == rows[i].cells[1..4][1] == Value(others[i]);
    assert Domain(rows[i]) == rows[i].cells[1..4][2] == Domain(others[i]);
  }
}
