/**
 The layout of a loaded CSV file: the first line names the columns, every
 later line is one row of string cells, and a header maps to the position
 of the last column that carries it.
 */
module Table {
  import opened LineParser

  /** One data row; cells stay strings, to be converted by whoever reads them. */
  datatype Row = Row(cells: seq<string>)
  {
    /** The cell at column `i`. */
    function At(i: int): (c: string)
      requires 0 <= i < |cells|
      ensures c in cells
    {
      cells[i]
    }
  }

  /** The header fields: those of the first line, or none for an empty input. */
  function HeaderFields(lines: seq<string>): (r: seq<string>)
    ensures lines == [] ==> r == []
    ensures CommaFree(r)
  {
    if lines == [] then [] else ParseLine(lines[0])
  }

  /** The rows: every line after the first, in file order. */
  function DataRows(lines: seq<string>): (rs: seq<Row>)
    ensures |rs| == if lines == [] then 0 else |lines| - 1
    decreases |lines|
  {
    if |lines| <= 1 then []
    else DataRows(lines[..|lines| - 1]) + [Row(ParseLine(lines[|lines| - 1]))]
  }

  /** Row `j` holds the fields of line `j + 1`. */
  lemma {:induction false} DataRowAt(lines: seq<string>, j: int)
    requires 0 <= j < |DataRows(lines)|
    ensures DataRows(lines)[j] == Row(ParseLine(lines[j + 1]))
    decreases |lines|
  {
    var init := lines[..|lines| - 1];
    var last := Row(ParseLine(lines[|lines| - 1]));
    assert DataRows(lines) == DataRows(init) + [last];
    if j < |lines| - 2 {
      DataRowAt(init, j);
      assert init[j + 1] == lines[j + 1];
      assert DataRows(lines)[j] == DataRows(init)[j];
    } else {
      assert DataRows(lines)[j] == last;
    }
  }

  /** Reading one more line adds its row at the end. */
  lemma DataRowsStep(lines: seq<string>, n: nat)
    requires 0 < n < |lines|
    ensures DataRows(lines[..n + 1]) == DataRows(lines[..n]) + [Row(ParseLine(lines[n]))]
  {
    assert lines[..n + 1][..n] == lines[..n];
  }

  /**
   The header index built by `headers[header] = i` over the fields, left
   to right: a later column with the same name overwrites an earlier one.
   */
  function HeaderMap(fields: seq<string>): (r: map<string, int>)
    ensures forall k :: k in r ==> 0 <= r[k] < |fields|
    decreases |fields|
  {
    if fields == [] then map[]
    else HeaderMap(fields[..|fields| - 1])[fields[|fields| - 1] := |fields| - 1]
  }

  /**
   The header index has exactly the field names as keys, and each maps to
   the last position holding it.
   */
  lemma {:induction false} HeaderMapSpec(fields: seq<string>)
    ensures forall h :: h in HeaderMap(fields) <==> h in fields
    ensures forall h :: h in HeaderMap(fields) ==>
              0 <= HeaderMap(fields)[h] < |fields| && fields[HeaderMap(fields)[h]] == h
    ensures forall h, j :: h in HeaderMap(fields) && HeaderMap(fields)[h] < j < |fields| ==> fields[j] != h
    decreases |fields|
  {
    if fields != [] {
      var init := fields[..|fields| - 1];
      HeaderMapSpec(init);
      assert forall h :: h in fields <==> h in init || h == fields[|fields| - 1];
    }
  }

  /** A file written with one line per row of cells. */
  function Written(header: seq<string>, cells: seq<seq<string>>): (lines: seq<string>)
    ensures |lines| == |cells| + 1
  {
    [Join(header)] + seq(|cells|, j requires 0 <= j < |cells| => Join(cells[j]))
  }

  /**
   Loading a written file gives back its header and its rows, in order,
   when every one of them is writable: no cells at all, or no cell holding a
   comma or a line break and a last cell that is non-empty and does not end
   in a carriage return.
   */
  lemma LoadWritten(header: seq<string>, cells: seq<seq<string>>)
    requires Writable(header)
    requires forall j :: 0 <= j < |cells| ==> Writable(cells[j])
    ensures HeaderFields(Written(header, cells)) == header
    ensures |DataRows(Written(header, cells))| == |cells|
    ensures forall j :: 0 <= j < |cells| ==> DataRows(Written(header, cells))[j] == Row(cells[j])
  {
    ParseLineJoin(header);
    forall j | 0 <= j < |cells| ensures DataRows(Written(header, cells))[j] == Row(cells[j]) {
      WrittenRowAt(header, cells, j);
    }
  }

  lemma WrittenRowAt(header: seq<string>, cells: seq<seq<string>>, j: nat)
    requires j < |cells| && Writable(cells[j])
    ensures DataRows(Written(header, cells))[j] == Row(cells[j])
  {
    var lines := Written(header, cells);
    DataRowAt(lines, j);
    assert lines[j + 1] == Join(cells[j]);
    ParseLineJoin(cells[j]);
  }

  /** A header that occurs once names exactly its own column. */
  lemma HeaderOnce(fields: seq<string>, j: nat)
    requires j < |fields|
    requires forall i :: 0 <= i < |fields| && i != j ==> fields[i] != fields[j]
    ensures fields[j] in HeaderMap(fields) && HeaderMap(fields)[fields[j]] == j
  {
    HeaderMapSpec(fields);
  }
}
