/**
 The first half of turning a table into a stat view: the rows the filter
 keeps are grouped by the cell in the name column, and each group collects
 the numbers read from the data column, in row order.
 */
module Grouping {
  import opened Filter
  import opened Table

  /**
   Whether row `r` is kept: the default filter keeps every row; otherwise
   the cell in the filter column must be accepted.
   */
  predicate Passes(r: Row, f: CsvFilter, fcol: int)
    ensures f.NoOp? ==> Passes(r, f, fcol)
    ensures f.Filtered? ==>
              (Passes(r, f, fcol) <==> 0 <= fcol < |r.cells| && r.cells[fcol] == f.comp.GetVal())
  {
    f.NoOp? || (0 <= fcol < |r.cells| && f.Accepts(r.cells[fcol]))
  }

  /**
   The cells the grouping reads exist: the filter column of every row, and
   the name and data columns of every kept row.
   */
  predicate InRange(rows: seq<Row>, f: CsvFilter, fcol: int, ncol: int, dcol: int)
  {
    forall i :: 0 <= i < |rows| ==>
      && (f.Filtered? ==> 0 <= fcol < |rows[i].cells|)
      && (Passes(rows[i], f, fcol) ==> 0 <= ncol < |rows[i].cells| && 0 <= dcol < |rows[i].cells|)
  }

  /**
   The `collection` map: for each name-column value of a kept row, the
   converted data-column values of the kept rows with that name, in row order.
   Built like the loop over rows, one row appended at a time.
   */
  function Groups(rows: seq<Row>, f: CsvFilter, fcol: int, ncol: int, dcol: int, stod: string -> real): (g: map<string, seq<real>>)
    requires InRange(rows, f, fcol, ncol, dcol)
    ensures forall k :: k in g ==> 0 < |g[k]| <= |rows|
    decreases |rows|
  {
    if rows == [] then map[]
    else
      InRangePrefix(rows, f, fcol, ncol, dcol, |rows| - 1);
      var g := Groups(rows[..|rows| - 1], f, fcol, ncol, dcol, stod);
      var r := rows[|rows| - 1];
      if Passes(r, f, fcol) then
        var k := r.cells[ncol];
        g[k := (if k in g then g[k] else []) + [stod(r.cells[dcol])]]
      else g
  }

  /** The cells a prefix of the rows reads exist when those of all rows do. */
  lemma InRangePrefix(rows: seq<Row>, f: CsvFilter, fcol: int, ncol: int, dcol: int, n: nat)
    requires InRange(rows, f, fcol, ncol, dcol) && n <= |rows|
    ensures InRange(rows[..n], f, fcol, ncol, dcol)
  {
    var pre := rows[..n];
    assert forall j :: 0 <= j < |pre| ==> pre[j] == rows[j];
  }

  /** The loop step: row `i` is added to the groups of the rows before it. */
  lemma GroupsStep(rows: seq<Row>, f: CsvFilter, fcol: int, ncol: int, dcol: int, stod: string -> real, i: nat)
    requires InRange(rows, f, fcol, ncol, dcol) && i < |rows|
    ensures InRange(rows[..i], f, fcol, ncol, dcol) && InRange(rows[..i + 1], f, fcol, ncol, dcol)
    ensures Groups(rows[..i + 1], f, fcol, ncol, dcol, stod) ==
      var g := Groups(rows[..i], f, fcol, ncol, dcol, stod);
      if Passes(rows[i], f, fcol) then
        g[rows[i].cells[ncol] := (if rows[i].cells[ncol] in g then g[rows[i].cells[ncol]] else []) + [stod(rows[i].cells[dcol])]]
      else g
  {
    InRangePrefix(rows, f, fcol, ncol, dcol, i);
    InRangePrefix(rows, f, fcol, ncol, dcol, i + 1);
    assert forall j :: 0 <= j <= i ==> rows[..i + 1][j] == rows[j];
    assert rows[..i + 1][..i] == rows[..i];
  }

  /**
   Reference definition, one name at a time: the converted data cells of
   the kept rows whose name cell is `k`, in row order.
   */
  ghost function ValuesOf(rows: seq<Row>, f: CsvFilter, fcol: int, ncol: int, dcol: int, stod: string -> real, k: string): seq<real>
    requires InRange(rows, f, fcol, ncol, dcol)
    decreases |rows|
  {
    if rows == [] then []
    else
      var init := ValuesOf(rows[..|rows| - 1], f, fcol, ncol, dcol, stod, k);
      var r := rows[|rows| - 1];
      if Passes(r, f, fcol) && r.cells[ncol] == k then init + [stod(r.cells[dcol])] else init
  }

  /** Some kept row has `k` in its name column. */
  ghost predicate Named(rows: seq<Row>, f: CsvFilter, fcol: int, ncol: int, dcol: int, k: string)
    requires InRange(rows, f, fcol, ncol, dcol)
  {
    exists i :: 0 <= i < |rows| && Passes(rows[i], f, fcol) && rows[i].cells[ncol] == k
  }

  /** A name is used by the kept rows when the earlier rows or the last one use it. */
  lemma NamedStep(rows: seq<Row>, f: CsvFilter, fcol: int, ncol: int, dcol: int, k: string)
    requires InRange(rows, f, fcol, ncol, dcol) && rows != []
    ensures InRange(rows[..|rows| - 1], f, fcol, ncol, dcol)
    ensures Named(rows, f, fcol, ncol, dcol, k) <==>
              Named(rows[..|rows| - 1], f, fcol, ncol, dcol, k)
              || (Passes(rows[|rows| - 1], f, fcol) && rows[|rows| - 1].cells[ncol] == k)
  {
    var init := rows[..|rows| - 1];
    assert forall i :: 0 <= i < |init| ==> init[i] == rows[i];
    if Named(rows, f, fcol, ncol, dcol, k) {
      var i :| 0 <= i < |rows| && Passes(rows[i], f, fcol) && rows[i].cells[ncol] == k;
      if i < |init| {
        assert init[i] == rows[i];
      }
    }
    if Named(init, f, fcol, ncol, dcol, k) {
      var i :| 0 <= i < |init| && Passes(init[i], f, fcol) && init[i].cells[ncol] == k;
      assert rows[i] == init[i];
    }
    var last := |rows| - 1;
    if Passes(rows[last], f, fcol) && rows[last].cells[ncol] == k {
      assert 0 <= last < |rows|;
    }
  }

  /** The groups are exactly the names of the kept rows. */
  lemma {:induction false} GroupsKeys(rows: seq<Row>, f: CsvFilter, fcol: int, ncol: int, dcol: int, stod: string -> real)
    requires InRange(rows, f, fcol, ncol, dcol)
    ensures forall k :: k in Groups(rows, f, fcol, ncol, dcol, stod) <==> Named(rows, f, fcol, ncol, dcol, k)
    decreases |rows|
  {
    if rows != [] {
      var init := rows[..|rows| - 1];
      assert forall i :: 0 <= i < |init| ==> init[i] == rows[i];
      GroupsKeys(init, f, fcol, ncol, dcol, stod);
      forall k ensures k in Groups(rows, f, fcol, ncol, dcol, stod) <==> Named(rows, f, fcol, ncol, dcol, k) {
        NamedStep(rows, f, fcol, ncol, dcol, k);
      }
    }
  }

  /** Each group holds the values of the kept rows with its name, in row order; other names have none. */
  lemma {:induction false} GroupsValues(rows: seq<Row>, f: CsvFilter, fcol: int, ncol: int, dcol: int, stod: string -> real)
    requires InRange(rows, f, fcol, ncol, dcol)
    ensures forall k :: k in Groups(rows, f, fcol, ncol, dcol, stod) ==>
              Groups(rows, f, fcol, ncol, dcol, stod)[k] == ValuesOf(rows, f, fcol, ncol, dcol, stod, k)
    ensures forall k :: k !in Groups(rows, f, fcol, ncol, dcol, stod) ==> ValuesOf(rows, f, fcol, ncol, dcol, stod, k) == []
    decreases |rows|
  {
    if rows != [] {
      var init := rows[..|rows| - 1];
      assert forall i :: 0 <= i < |init| ==> init[i] == rows[i];
      GroupsValues(init, f, fcol, ncol, dcol, stod);
    }
  }

  /**
   The groups are exactly the names of kept rows; each holds at least one
   value, and the values of the kept rows with that name, in row order.
   */
  lemma GroupsSpec(rows: seq<Row>, f: CsvFilter, fcol: int, ncol: int, dcol: int, stod: string -> real)
    requires InRange(rows, f, fcol, ncol, dcol)
    ensures forall k :: k in Groups(rows, f, fcol, ncol, dcol, stod) <==> Named(rows, f, fcol, ncol, dcol, k)
    ensures forall k :: k in Groups(rows, f, fcol, ncol, dcol, stod) ==>
              Groups(rows, f, fcol, ncol, dcol, stod)[k] == ValuesOf(rows, f, fcol, ncol, dcol, stod, k)
              && |Groups(rows, f, fcol, ncol, dcol, stod)[k]| > 0
    ensures forall k :: k !in Groups(rows, f, fcol, ncol, dcol, stod) ==> ValuesOf(rows, f, fcol, ncol, dcol, stod, k) == []
  {
    GroupsKeys(rows, f, fcol, ncol, dcol, stod);
    GroupsValues(rows, f, fcol, ncol, dcol, stod);
    GroupsNonEmpty(rows, f, fcol, ncol, dcol, stod);
  }

  /** No group is empty: every key was added together with a value. */
  lemma {:induction false} GroupsNonEmpty(rows: seq<Row>, f: CsvFilter, fcol: int, ncol: int, dcol: int, stod: string -> real)
    requires InRange(rows, f, fcol, ncol, dcol)
    ensures forall k :: k in Groups(rows, f, fcol, ncol, dcol, stod) ==> |Groups(rows, f, fcol, ncol, dcol, stod)[k]| > 0
    decreases |rows|
  {
    if rows != [] {
      var init := rows[..|rows| - 1];
      assert forall i :: 0 <= i < |init| ==> init[i] == rows[i];
      GroupsNonEmpty(init, f, fcol, ncol, dcol, stod);
    }
  }

  /** A filter that keeps every row groups like the default filter. */
  lemma {:induction false} GroupsAllKept(rows: seq<Row>, f: CsvFilter, fcol: int, ncol: int, dcol: int, stod: string -> real)
    requires InRange(rows, f, fcol, ncol, dcol)
    requires forall i :: 0 <= i < |rows| ==> Passes(rows[i], f, fcol)
    ensures InRange(rows, NoOp, fcol, ncol, dcol)
    ensures Groups(rows, f, fcol, ncol, dcol, stod) == Groups(rows, NoOp, fcol, ncol, dcol, stod)
    decreases |rows|
  {
    if rows != [] {
      var init := rows[..|rows| - 1];
      assert forall i :: 0 <= i < |init| ==> init[i] == rows[i];
      GroupsAllKept(init, f, fcol, ncol, dcol, stod);
    }
  }

  /** A filter that keeps no row gives no groups. */
  lemma GroupsNoneKept(rows: seq<Row>, f: CsvFilter, fcol: int, ncol: int, dcol: int, stod: string -> real)
    requires InRange(rows, f, fcol, ncol, dcol)
    requires forall i :: 0 <= i < |rows| ==> !Passes(rows[i], f, fcol)
    ensures Groups(rows, f, fcol, ncol, dcol, stod) == map[]
  {
    GroupsSpec(rows, f, fcol, ncol, dcol, stod);
  }
}
