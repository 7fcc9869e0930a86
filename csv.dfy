/**
 The CSV object: loaded once from the lines of a file, then read cell by
 cell and reduced into stat views.
 */
module CsvTable {
  import opened LineParser
  import opened KeyOrder
  import opened Sorting
  import opened Filter
  import opened Stats
  import opened StatViews
  import opened Table
  import opened Grouping

  class Csv {
    const numCols: int
    const numRows: int
    const rows: seq<Row>
    const headers: map<string, int>
    /** The lines the table was loaded from. */
    ghost const lines: seq<string>

    /** The fields agree with the lines they were loaded from. */
    ghost predicate Valid()
      reads this
    {
      && headers == HeaderMap(HeaderFields(lines))
      && numCols == |HeaderFields(lines)|
      && rows == DataRows(lines)
      && numRows == |rows|
    }

    /**
     Load the table from the lines of a file (none when it cannot be
     opened): the first line gives the headers and every later line a row.
     */
    constructor (fileLines: seq<string>)
      ensures lines == fileLines
      ensures Valid()
    {
      lines := fileLines;
      var f := new LineStream(fileLines);
      var status, fields := ParseNextLine(f, []);
      var hs, nc := IndexHeaders(fields);
      var rs, nr := ReadRows(f, fields);
      headers, numCols, rows, numRows := hs, nc, rs, nr;
    }

    /** The column a header names; looking up an unknown header yields column 0. */
    function ColumnOf(h: string): (c: int)
      reads this
      ensures h in headers ==> c == headers[h]
      ensures h !in headers ==> c == 0
    {
      if h in headers then headers[h] else 0
    }

    /** The cell of row `i` in the column of header `h`. */
    function AtColRow(h: string, i: int): (c: string)
      reads this
      requires 0 <= i < |rows| && 0 <= ColumnOf(h) < |rows[i].cells|
      ensures c in rows[i].cells
    {
      rows[i].At(ColumnOf(h))
    }

    /** The groups to_stat_view collects for these headers and this filter. */
    ghost function Collected(nameHeader: string, dataHeader: string, f: CsvFilter, stod: string -> real): map<string, seq<real>>
      reads this
      requires InRange(rows, f, ColumnOf(f.GetHeader()), ColumnOf(nameHeader), ColumnOf(dataHeader))
    {
      Groups(rows, f, ColumnOf(f.GetHeader()), ColumnOf(nameHeader), ColumnOf(dataHeader), stod)
    }

    /**
     Group the kept rows by their `nameHeader` cell, reduce each group's
     `dataHeader` numbers with the view's reducer, and store the result
     under the group's name.  Keys of the view without a group keep their
     value; no key without kept rows is added.
     */
    method ToStatView(sv: StatView, nameHeader: string, dataHeader: string, f: CsvFilter, stod: string -> real)
      requires numRows == |rows|
      requires InRange(rows, f, ColumnOf(f.GetHeader()), ColumnOf(nameHeader), ColumnOf(dataHeader))
      modifies sv
      ensures forall k :: k in sv.view <==> k in old(sv.view) || k in Collected(nameHeader, dataHeader, f, stod)
      ensures forall k :: k in old(sv.view) && k !in Collected(nameHeader, dataHeader, f, stod) ==>
                sv.view[k] == old(sv.view)[k]
      ensures forall k :: k in Collected(nameHeader, dataHeader, f, stod) ==>
                IsStat(sv.sm, Collected(nameHeader, dataHeader, f, stod)[k], sv.view[k])
    {
      var collection := Collect(nameHeader, dataHeader, f, stod);
      GroupsNonEmpty(rows, f, ColumnOf(f.GetHeader()), ColumnOf(nameHeader), ColumnOf(dataHeader), stod);
      ReduceInto(sv, collection);
    }

    /**
     The first loop of to_stat_view: skip the rows the filter rejects and
     append each other row's converted data cell to its name's group.
     */
    method Collect(nameHeader: string, dataHeader: string, f: CsvFilter, stod: string -> real)
      returns (collection: map<string, seq<real>>)
      requires numRows == |rows|
      requires InRange(rows, f, ColumnOf(f.GetHeader()), ColumnOf(nameHeader), ColumnOf(dataHeader))
      ensures collection == Collected(nameHeader, dataHeader, f, stod)
    {
      var fcol := ColumnOf(f.GetHeader());
      var ncol := ColumnOf(nameHeader);
      var dcol := ColumnOf(dataHeader);
      collection := map[];
      for i := 0 to numRows
        invariant InRange(rows[..i], f, fcol, ncol, dcol)
        invariant collection == Groups(rows[..i], f, fcol, ncol, dcol, stod)
      {
        GroupsStep(rows, f, fcol, ncol, dcol, stod, i);
        if f.Filtered? && !f.Accepts(AtColRow(f.GetHeader(), i)) {
          continue;
        }
        var key := rows[i].At(ncol);
        var curVal := stod(AtColRow(dataHeader, i));
        collection := collection[key := (if key in collection then collection[key] else []) + [curVal]];
      }
      WholePrefix(rows);
    }

    /** to_stat_view with the default filter: every row is kept. */
    method ToStatViewAll(sv: StatView, nameHeader: string, dataHeader: string, stod: string -> real)
      requires numRows == |rows|
      requires InRange(rows, NoOp, 0, ColumnOf(nameHeader), ColumnOf(dataHeader))
      modifies sv
      ensures forall k :: k in sv.view <==> k in old(sv.view) || k in Collected(nameHeader, dataHeader, NoOp, stod)
      ensures forall k :: k in old(sv.view) && k !in Collected(nameHeader, dataHeader, NoOp, stod) ==>
                sv.view[k] == old(sv.view)[k]
      ensures forall k :: k in Collected(nameHeader, dataHeader, NoOp, stod) ==>
                IsStat(sv.sm, Collected(nameHeader, dataHeader, NoOp, stod)[k], sv.view[k])
    {
      ToStatView(sv, nameHeader, dataHeader, NoOp, stod);
    }
  }

  /**
   The loop `headers[header] = i; i++` over the header fields, with the
   number of columns it leaves in `i`.
   */
  method IndexHeaders(fields: seq<string>) returns (headers: map<string, int>, numCols: int)
    ensures headers == HeaderMap(fields) && numCols == |fields|
  {
    headers := map[];
    var i := 0;
    while i < |fields|
      invariant 0 <= i <= |fields|
      invariant headers == HeaderMap(fields[..i])
    {
      PrefixStep(fields, i);
      headers := headers[fields[i] := i];
      i := i + 1;
    }
    WholePrefix(fields);
    numCols := i;
  }

  /**
   The loop `while (parse_next_line(f, fields)) rows.emplace_back(fields)`:
   the rows of the lines after the header line, in order, and their number.
   */
  method ReadRows(f: LineStream, fields: seq<string>) returns (rows: seq<Row>, numRows: int)
    requires f.pos == if f.lines == [] then 0 else 1
    modifies f
    ensures rows == DataRows(f.lines) && numRows == |rows|
    ensures f.pos == |f.lines|
  {
    var container := fields;
    var i := 0;
    rows := [];
    while true
      invariant f.pos <= |f.lines|
      invariant f.lines != [] ==> f.pos == i + 1
      invariant f.lines == [] ==> f.pos == 0 && i == 0
      invariant |rows| == i
      invariant f.lines != [] ==> rows == DataRows(f.lines[..f.pos])
      decreases |f.lines| - f.pos
    {
      var more;
      more, container := ParseNextLine(f, container);
      if more == 0 {
        break;
      }
      DataRowsStep(f.lines, f.pos - 1);
      i := i + 1;
      rows := rows + [Row(container)];
    }
    numRows := i;
    WholePrefix(f.lines);
  }

  /**
   The loop over `collection` in key order: each group's values reduced
   with the view's reducer and stored under the group's key.
   */
  method ReduceInto(sv: StatView, collection: map<string, seq<real>>)
    requires forall k :: k in collection ==> |collection[k]| > 0
    modifies sv
    ensures forall k :: k in sv.view <==> k in old(sv.view) || k in collection
    ensures forall k :: k in old(sv.view) && k !in collection ==> sv.view[k] == old(sv.view)[k]
    ensures forall k :: k in collection ==> IsStat(sv.sm, collection[k], sv.view[k])
  {
    var sm := sv.GetSm();
    var ks := OrderedKeys(collection);
    for j := 0 to |ks|
      invariant forall k :: k in sv.view <==> k in old(sv.view) || k in ks[..j]
      invariant forall k :: k in old(sv.view) && k !in ks[..j] ==> sv.view[k] == old(sv.view)[k]
      invariant forall k :: k in ks[..j] ==> IsStat(sm, collection[k], sv.view[k])
    {
      var k := ks[j];
      var x := Reduce(sm, collection[k]);
      sv.Set(k, x);
      PrefixStep(ks, j);
    }
    WholePrefix(ks);
  }

  /**
   The switch on the reducer: mean of the values, or median or mode of a
   scratch copy that the reducer may rearrange.
   */
  method Reduce(sm: StatMethod, vals: seq<real>) returns (x: real)
    requires |vals| > 0
    ensures IsStat(sm, vals, x)
  {
    match sm
    case Mean =>
      x := ComputeMean(vals);
    case Mode =>
      var a := new real[|vals|](j requires 0 <= j < |vals| => vals[j]);
      assert a[..] == vals;
      x := ComputeMode(a);
    case Median =>
      var a := new real[|vals|](j requires 0 <= j < |vals| => vals[j]);
      assert a[..] == vals;
      x := ComputeMedian(a);
  }

  /**
   A cell read by header is the field of the row's own line in the last
   column carrying that header, or in column 0 when no column does.
   */
  lemma CellOfLine(c: Csv, h: string, i: int)
    requires c.Valid()
    requires 0 <= i < |c.rows| && 0 <= c.ColumnOf(h) < |c.rows[i].cells|
    ensures c.rows[i].cells == ParseLine(c.lines[i + 1])
    ensures c.AtColRow(h, i) == ParseLine(c.lines[i + 1])[c.ColumnOf(h)]
    ensures h in HeaderFields(c.lines) ==>
              && c.ColumnOf(h) < |HeaderFields(c.lines)|
              && HeaderFields(c.lines)[c.ColumnOf(h)] == h
              && forall j :: c.ColumnOf(h) < j < |HeaderFields(c.lines)| ==> HeaderFields(c.lines)[j] != h
    ensures h !in HeaderFields(c.lines) ==> c.ColumnOf(h) == 0
  {
    var hf := HeaderFields(c.lines);
    HeaderMapSpec(hf);
    DataRowAt(c.lines, i);
  }
}
