/** `CleanerClass`: row filters over a data frame. A frame is a list of
    column names and a list of rows; a row maps column names to integer
    cells, `None` standing for a missing value (NaN). Each cleaning step
    keeps the rows its mask accepts, in order (the index reset renumbers
    them), reports how many rows went, and replaces the frame. */
module Cleaner {
  import opened Wrappers
  import opened Sequences

  type Row = map<string, Option<int>>

  datatype Frame = Frame(columns: seq<string>, rows: seq<Row>)

  /** The cell of a row in a column; a column the row lacks reads as NaN. */
  function Cell(row: Row, col: string): Option<int> {
    if col in row then row[col] else None
  }

  // ---------------------------------------------------------------------
  // count_removed_rows

  /** The integer part of `count_removed_rows(df1, df2)` on frames of
      `n1` and `n2` rows. When `df2` is the larger, the error message names
      variables that do not exist, so Python raises NameError instead of the
      intended ValueError; an empty `df1` makes the percentage divide by zero. */
  function CountRemovedRows(n1: nat, n2: nat): (r: Result<nat>)
    ensures r.Ok? <==> n2 <= n1 && n1 > 0
    ensures n1 < n2 ==> r == Err(NameError)
    ensures n2 <= n1 && n1 == 0 ==> r == Err(ZeroDivisionError)
    ensures r.Ok? ==> r.value + n2 == n1
  {
    if n1 < n2 then Err(NameError)
    else if n1 == 0 then Err(ZeroDivisionError)
    else Ok(n1 - n2)
  }

  /** The frame with only the rows `keep` accepts, in their original order. */
  function Filtered(df: Frame, keep: Row -> bool): (r: Frame)
    ensures r.columns == df.columns
    ensures exists idx :: (SelectsAt(r.rows, df.rows, idx)
                           && forall i :: 0 <= i < |df.rows| ==> (i in idx <==> keep(df.rows[i])))
  {
    KeepSelects(df.rows, keep);
    Frame(df.columns, Keep(df.rows, keep))
  }

  /** After filtering, `count_removed_rows` never meets a larger second frame:
      it fails only on an empty frame, and otherwise reports the number of
      rows the mask rejected. */
  lemma CountAfterFilter(df: Frame, keep: Row -> bool)
    ensures CountRemovedRows(|df.rows|, |Filtered(df, keep).rows|)
      == if df.rows == [] then Err(ZeroDivisionError) else Ok(|Keep(df.rows, Not(keep))|)
  {
    KeepComplement(df.rows, keep);
  }

  /** Running a cleaning step a second time removes nothing more. */
  lemma FilteredIdempotent(df: Frame, keep: Row -> bool)
    ensures Filtered(Filtered(df, keep), keep) == Filtered(df, keep)
  {
    KeepIdempotent(df.rows, keep);
  }

  // ---------------------------------------------------------------------
  // The masks

  /** A pair `(a, b)` whose first column has a value and second is missing. */
  predicate MissingAdjustment(row: Row, a: string, b: string) {
    Cell(row, a).Some? && Cell(row, b).None?
  }

  function AdjustedFn(p1: seq<string>, p2: seq<string>): Row -> bool
    requires |p1| == 2 && |p2| == 2
  {
    row => !MissingAdjustment(row, p1[0], p1[1]) && !MissingAdjustment(row, p2[0], p2[1])
  }

  /** `[col for col in df.columns if col != ignored]`, or all columns. */
  function Subset(columns: seq<string>, ignored: Option<string>): (r: seq<string>)
    ensures ignored.None? ==> r == columns
    ensures ignored.Some? ==> forall c :: c in r <==> c in columns && c != ignored.value
  {
    match ignored
    case None => columns
    case Some(x) =>
      KeepMembers(columns, NotEqualFn(x));
      Keep(columns, NotEqualFn(x))
  }

  function NotEqualFn(x: string): string -> bool {
    c => c != x
  }

  /** `if col_to_ignore:` treats `None` and the empty string alike. */
  function Ignored(colToIgnore: Option<string>): (r: Option<string>)
    ensures r.Some? <==> colToIgnore.Some? && colToIgnore.value != ""
    ensures r.Some? ==> r.value == colToIgnore.value
  {
    if colToIgnore.Some? && colToIgnore.value != "" then colToIgnore else None
  }

  /** `dropna(how="all", subset=...)` keeps a row with some value in the subset. */
  predicate HasValue(row: Row, subset: seq<string>) {
    exists i :: 0 <= i < |subset| && Cell(row, subset[i]).Some?
  }

  function HasValueFn(subset: seq<string>): Row -> bool {
    row => HasValue(row, subset)
  }

  /** `(temp_df != 0).any(axis=1)`; NaN is not equal to 0. */
  predicate HasNonZero(row: Row, subset: seq<string>) {
    exists i :: 0 <= i < |subset| && Cell(row, subset[i]) != Some(0)
  }

  function HasNonZeroFn(subset: seq<string>): Row -> bool {
    row => HasNonZero(row, subset)
  }

  /** One value above zero and the other below; NaN compares false both ways. */
  predicate OppositeSigns(x: Option<int>, y: Option<int>) {
    x.Some? && y.Some? && ((x.value > 0 && y.value < 0) || (x.value < 0 && y.value > 0))
  }

  predicate Unmatched(row: Row, c1: string, c2: string, c3: string, c4: string) {
    OppositeSigns(Cell(row, c1), Cell(row, c3)) || OppositeSigns(Cell(row, c2), Cell(row, c4))
  }

  function MatchedFn(c1: string, c2: string, c3: string, c4: string): Row -> bool {
    row => !Unmatched(row, c1, c2, c3, c4)
  }

  /** A row with a missing value in each pair is never dropped for its signs. */
  lemma MissingNeverUnmatched(row: Row, c1: string, c2: string, c3: string, c4: string)
    requires Cell(row, c1).None? || Cell(row, c3).None?
    requires Cell(row, c2).None? || Cell(row, c4).None?
    ensures MatchedFn(c1, c2, c3, c4)(row)
  {
  }

  /** A row missing every checked value survives `rm_zero_rows` (NaN is not
      zero) but not `rm_empty_rows`, as long as some column is checked. */
  lemma EmptyRowNotZeroRow(row: Row, subset: seq<string>)
    requires subset != []
    requires forall i :: 0 <= i < |subset| ==> Cell(row, subset[i]).None?
    ensures HasNonZeroFn(subset)(row) && !HasValueFn(subset)(row)
  {
    assert Cell(row, subset[0]) != Some(0);
  }

  /** With no column to check, both `dropna(how="all")` and `any` reject
      every row. */
  lemma EmptySubsetDropsAll(df: Frame)
    ensures Filtered(df, HasValueFn([])).rows == []
    ensures Filtered(df, HasNonZeroFn([])).rows == []
  {
    KeepNone(df.rows, HasValueFn([]));
    KeepNone(df.rows, HasNonZeroFn([]));
  }

  lemma {:induction false} KeepNone<T>(s: seq<T>, f: T -> bool)
    requires forall x :: !f(x)
    ensures Keep(s, f) == []
  {
    if s != [] {
      KeepNone(s[1..], f);
    }
  }

  // ---------------------------------------------------------------------
  // The cleaner

  class CleanerClass {
    var df: Frame

    constructor(df: Frame)
      ensures this.df == df
    {
      this.df := df;
    }

    /** The common tail of every step: count the removed rows (which fails
        on an empty frame, leaving `df` as it was), then replace `df`. */
    method Apply(keep: Row -> bool) returns (r: Result<nat>)
      modifies this
      ensures r.Err? <==> old(df).rows == []
      ensures r.Err? ==> r.error == ZeroDivisionError && df == old(df)
      ensures r.Ok? ==> df == Filtered(old(df), keep)
      ensures r.Ok? ==> r.value == |Keep(old(df).rows, Not(keep))|
      ensures r.Ok? ==> r.value == |old(df).rows| - |df.rows|
    {
      var filtered := Filtered(df, keep);
      CountAfterFilter(df, keep);
      var removed :- CountRemovedRows(|df.rows|, |filtered.rows|);
      df := filtered;
      return Ok(removed);
    }

    /** `drop_missing_adjustment(col_pair1, col_pair2)`. */
    method DropMissingAdjustment(p1: seq<string>, p2: seq<string>) returns (r: Result<nat>)
      modifies this
      ensures (|| |p1| != 2 || |p2| != 2
               || exists c :: c in p1 + p2 && c !in old(df).columns) ==> r == Err(ValueError)
      ensures r.Err? ==> df == old(df)
      ensures r.Ok? ==> |p1| == 2 && |p2| == 2 && df == Filtered(old(df), AdjustedFn(p1, p2))
      ensures r.Ok? ==> r.value == |old(df).rows| - |df.rows|
      ensures r.Ok? ==> r.value == |Keep(old(df).rows, Not(AdjustedFn(p1, p2)))|
      ensures (&& |p1| == 2 && |p2| == 2
               && (forall c :: c in p1 + p2 ==> c in old(df).columns)) ==>
        (r.Ok? <==> old(df).rows != [])
      ensures (&& |p1| == 2 && |p2| == 2
               && (forall c :: c in p1 + p2 ==> c in old(df).columns)
               && old(df).rows == []) ==> r == Err(ZeroDivisionError)
    {
      if |p1| != 2 || |p2| != 2 {
        return Err(ValueError);
      }
      if exists c :: c in p1 + p2 && c !in df.columns {
        return Err(ValueError);
      }
      r := Apply(AdjustedFn(p1, p2));
    }

    /** `rm_empty_rows(col_to_ignore)`. */
    method RmEmptyRows(colToIgnore: Option<string>) returns (r: Result<nat>)
      modifies this
      ensures Ignored(colToIgnore).Some? && colToIgnore.value !in old(df).columns ==> r == Err(ValueError)
      ensures r.Err? ==> df == old(df)
      ensures r.Ok? ==> df == Filtered(old(df), HasValueFn(Subset(old(df).columns, Ignored(colToIgnore))))
      ensures r.Ok? ==> r.value == |old(df).rows| - |df.rows|
      ensures r.Ok? ==>
        r.value == |Keep(old(df).rows, Not(HasValueFn(Subset(old(df).columns, Ignored(colToIgnore)))))|
      ensures (Ignored(colToIgnore).None? || colToIgnore.value in old(df).columns) ==>
        (r.Ok? <==> old(df).rows != [])
      ensures (Ignored(colToIgnore).None? || colToIgnore.value in old(df).columns) && old(df).rows == [] ==>
        r == Err(ZeroDivisionError)
    {
      var ignored := Ignored(colToIgnore);
      if ignored.Some? && ignored.value !in df.columns {
        return Err(ValueError);
      }
      r := Apply(HasValueFn(Subset(df.columns, ignored)));
    }

    /** `rm_zero_rows(col_to_ignore)`. */
    method RmZeroRows(colToIgnore: Option<string>) returns (r: Result<nat>)
      modifies this
      ensures Ignored(colToIgnore).Some? && colToIgnore.value !in old(df).columns ==> r == Err(ValueError)
      ensures r.Err? ==> df == old(df)
      ensures r.Ok? ==> df == Filtered(old(df), HasNonZeroFn(Subset(old(df).columns, Ignored(colToIgnore))))
      ensures r.Ok? ==> r.value == |old(df).rows| - |df.rows|
      ensures r.Ok? ==>
        r.value == |Keep(old(df).rows, Not(HasNonZeroFn(Subset(old(df).columns, Ignored(colToIgnore)))))|
      ensures (Ignored(colToIgnore).None? || colToIgnore.value in old(df).columns) ==>
        (r.Ok? <==> old(df).rows != [])
      ensures (Ignored(colToIgnore).None? || colToIgnore.value in old(df).columns) && old(df).rows == [] ==>
        r == Err(ZeroDivisionError)
    {
      var ignored := Ignored(colToIgnore);
      if ignored.Some? && ignored.value !in df.columns {
        return Err(ValueError);
      }
      r := Apply(HasNonZeroFn(Subset(df.columns, ignored)));
    }

    /** `rm_unmatched_signs(col1, col2, col3, col4)`: the pairs compared are
        (col1, col3) and (col2, col4). */
    method RmUnmatchedSigns(c1: string, c2: string, c3: string, c4: string) returns (r: Result<nat>)
      modifies this
      ensures (exists c :: c in [c1, c2, c3, c4] && c !in old(df).columns) ==> r == Err(ValueError)
      ensures r.Err? ==> df == old(df)
      ensures r.Ok? ==> df == Filtered(old(df), MatchedFn(c1, c2, c3, c4))
      ensures r.Ok? ==> r.value == |old(df).rows| - |df.rows|
      ensures r.Ok? ==> r.value == |Keep(old(df).rows, Not(MatchedFn(c1, c2, c3, c4)))|
      ensures (forall c :: c in [c1, c2, c3, c4] ==> c in old(df).columns) ==>
        (r.Ok? <==> old(df).rows != [])
      ensures (forall c :: c in [c1, c2, c3, c4] ==> c in old(df).columns) && old(df).rows == [] ==>
        r == Err(ZeroDivisionError)
    {
      if exists c :: c in [c1, c2, c3, c4] && c !in df.columns {
        return Err(ValueError);
      }
      r := Apply(MatchedFn(c1, c2, c3, c4));
    }
  }
}
