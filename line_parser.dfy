/**
 The line parser: one line of the input, with a single trailing carriage
 return removed, split into fields on ',' the way repeated
 std::getline(stream, field, ',') splits it.
 */
module LineParser {

  /**
   The comma-free pieces of `s`: one more piece than `s` has commas, empty
   pieces included.  Defined from the end so that it follows a left-to-right
   scan.
   */
  function Split(s: string): (r: seq<string>)
    ensures |r| >= 1
    decreases |s|
  {
    if s == [] then [[]]
    else
      var init := Split(s[..|s| - 1]);
      var c := s[|s| - 1];
      if c == ',' then init + [[]]
      else init[..|init| - 1] + [init[|init| - 1] + [c]]
  }

  /** The pieces written out again with ',' between neighbours. */
  function Join(ps: seq<string>): string
    decreases |ps|
  {
    if |ps| == 0 then []
    else if |ps| == 1 then ps[0]
    else Join(ps[..|ps| - 1]) + [','] + ps[|ps| - 1]
  }

  ghost predicate CommaFree(ps: seq<string>)
  {
    forall i :: 0 <= i < |ps| ==> ',' !in ps[i]
  }

  lemma {:induction false} SplitJoin(s: string)
    ensures Join(Split(s)) == s
    decreases |s|
  {
    if s != [] {
      var s' := s[..|s| - 1];
      var c := s[|s| - 1];
      assert s == s' + [c];
      SplitJoin(s');
      var init := Split(s');
      if c == ',' {
        assert (init + [[]])[..|init|] == init;
      } else {
        var last := init[|init| - 1];
        var front := init[..|init| - 1];
        var r := front + [last + [c]];
        assert r[..|r| - 1] == front;
        if |init| > 1 {
          assert init[..|init| - 1] == front;
          assert Join(init) == Join(front) + [','] + last;
        }
        assert Join(r) == Join(init) + [c];
      }
    }
  }

  lemma {:induction false} SplitCommaFree(s: string)
    ensures CommaFree(Split(s))
    decreases |s|
  {
    if s != [] {
      var s' := s[..|s| - 1];
      SplitCommaFree(s');
      var init := Split(s');
      var c := s[|s| - 1];
      if c != ',' {
        assert ',' !in init[|init| - 1] + [c];
      }
    }
  }

  /** Appending comma-free text extends the last piece. */
  lemma {:induction false} SplitAppendPlain(s: string, t: string)
    requires ',' !in t
    ensures Split(s + t) == Split(s)[..|Split(s)| - 1] + [Split(s)[|Split(s)| - 1] + t]
    decreases |t|
  {
    if t == [] {
      var ps := Split(s);
      assert s + t == s;
      assert ps[|ps| - 1] + t == ps[|ps| - 1];
      assert ps == ps[..|ps| - 1] + [ps[|ps| - 1]];
    } else {
      var t' := t[..|t| - 1];
      var c := t[|t| - 1];
      assert (s + t)[..|s + t| - 1] == s + t';
      assert (s + t)[|s + t| - 1] == c;
      SplitAppendPlain(s, t');
      var ps := Split(s);
      var front := ps[..|ps| - 1];
      var init := Split(s + t');
      assert init == front + [ps[|ps| - 1] + t'];
      assert c != ',' by { assert c == t[|t| - 1]; }
      assert init[..|init| - 1] == front;
      assert t' + [c] == t;
      assert ps[|ps| - 1] + t' + [c] == ps[|ps| - 1] + t;
    }
  }

  lemma {:induction false} JoinSplit(ps: seq<string>)
    requires |ps| >= 1 && CommaFree(ps)
    ensures Split(Join(ps)) == ps
    decreases |ps|
  {
    var last := ps[|ps| - 1];
    assert ',' !in last;
    if |ps| == 1 {
      SplitAppendPlain([], last);
      assert [] + last == last;
    } else {
      var init := ps[..|ps| - 1];
      assert CommaFree(init) by {
        forall i | 0 <= i < |init| ensures ',' !in init[i] { assert init[i] == ps[i]; }
      }
      JoinSplit(init);
      var j := Join(init) + [','];
      assert Split(j) == init + [[]] by {
        assert j[..|j| - 1] == Join(init);
      }
      SplitAppendPlain(j, last);
      assert (init + [[]])[..|init|] == init;
      assert j + last == Join(ps);
      assert [] + last == last;
      assert init + [last] == ps;
    }
  }

  /**
   What the loop `while (getline(ss, field, ',')) fields.push_back(field)`
   collects: getline fails only when it reaches the end without extracting a
   character, so a final empty piece (the line is empty or ends in ',') is
   not a field.
   */
  function Fields(line: string): (r: seq<string>)
    ensures r <= Split(line) && |Split(line)| - |r| <= 1
  {
    var ps := Split(line);
    if ps[|ps| - 1] == [] then ps[..|ps| - 1] else ps
  }

  /** The last piece is empty exactly when the text is empty or ends in ','. */
  lemma SplitLastEmpty(s: string)
    ensures Split(s)[|Split(s)| - 1] == [] <==> s == [] || s[|s| - 1] == ','
  {
  }

  lemma FieldsSpec(line: string)
    ensures CommaFree(Fields(line))
    ensures line == [] ==> Fields(line) == []
    ensures line != [] && line[|line| - 1] != ',' ==>
              Fields(line) == Split(line) && Join(Fields(line)) == line
    ensures line != [] && line[|line| - 1] == ',' ==>
              Fields(line) + [[]] == Split(line) && Join(Fields(line) + [[]]) == line
  {
    SplitJoin(line);
    SplitCommaFree(line);
    SplitLastEmpty(line);
    var ps := Split(line);
    var fs := Fields(line);
    forall i | 0 <= i < |fs| ensures ',' !in fs[i] {
      assert fs[i] == ps[i];
    }
    if ps[|ps| - 1] == [] {
      assert fs == ps[..|ps| - 1];
      assert ps == fs + [[]];
    } else {
      assert fs == ps;
    }
  }

  /** A line with one trailing carriage return (and only one) removed. */
  function StripCR(line: string): (r: string)
    ensures r <= line && |line| - |r| <= 1
  {
    if |line| > 0 && line[|line| - 1] == '\r' then line[..|line| - 1] else line
  }

  lemma StripCRSpec(line: string)
    ensures StripCR(line) == line || StripCR(line) + ['\r'] == line
    ensures StripCR(line) + ['\r'] == line <==> |line| > 0 && line[|line| - 1] == '\r'
  {
  }

  /** The fields parse_next_line produces from one line of the input. */
  function ParseLine(line: string): (r: seq<string>)
    ensures CommaFree(r)
  {
    FieldsSpec(StripCR(line));
    Fields(StripCR(line))
  }

  /**
   A row of cells that survives being written as one line and read back:
   no cells at all (an empty line), or cells none of which holds ',' or a
   line break, with a last cell that is non-empty and does not end in a
   carriage return.  A line break would split the row over two lines of
   the file.
   */
  ghost predicate Writable(cells: seq<string>)
  {
    || cells == []
    || (&& CommaFree(cells)
        && (forall i :: 0 <= i < |cells| ==> '\n' !in cells[i])
        && cells[|cells| - 1] != []
        && cells[|cells| - 1][|cells[|cells| - 1]| - 1] != '\r')
  }

  lemma ParseLineJoin(cells: seq<string>)
    requires Writable(cells)
    ensures ParseLine(Join(cells)) == cells
  {
    if cells != [] {
      JoinSplit(cells);
      JoinEndsWith(cells);
      var line := Join(cells);
      assert StripCR(line) == line;
    }
  }

  lemma JoinEndsWith(ps: seq<string>)
    requires |ps| >= 1 && ps[|ps| - 1] != []
    ensures |Join(ps)| > 0 && Join(ps)[|Join(ps)| - 1] == ps[|ps| - 1][|ps[|ps| - 1]| - 1]
  {
  }

  /**
   The getline loop of parse_next_line, character by character: a ',' ends
   the current field, and text left over at the end is a last field.
   */
  method SplitFields(line: string) returns (fields: seq<string>)
    ensures fields == Fields(line)
    ensures CommaFree(fields)
    ensures line != [] && line[|line| - 1] != ',' ==> Join(fields) == line
  {
    fields := [];
    var field: string := [];
    var i := 0;
    while i < |line|
      invariant 0 <= i <= |line|
      invariant Split(line[..i]) == fields + [field]
    {
      assert line[..i + 1][..i] == line[..i];
      if line[i] == ',' {
        fields := fields + [field];
        field := [];
      } else {
        field := field + [line[i]];
      }
      i := i + 1;
    }
    assert line[..i] == line;
    if field != [] {
      fields := fields + [field];
    }
    FieldsSpec(line);
  }

  /** An input stream read line by line: the lines and the read position. */
  class LineStream {
    const lines: seq<string>
    var pos: nat

    constructor (lines: seq<string>)
      ensures this.lines == lines && pos == 0
    {
      this.lines := lines;
      pos := 0;
    }
  }

  /**
   parse_next_line: at the end of the input, report 0 and leave `container`
   as it was; otherwise consume one line, report 1 and replace `container`
   by that line's fields.
   */
  method ParseNextLine(fs: LineStream, container: seq<string>) returns (status: int, result: seq<string>)
    modifies fs
    ensures old(fs.pos) >= |fs.lines| ==> status == 0 && result == container && fs.pos == old(fs.pos)
    ensures old(fs.pos) < |fs.lines| ==>
              status == 1 && result == ParseLine(fs.lines[old(fs.pos)]) && fs.pos == old(fs.pos) + 1
  {
    if fs.pos >= |fs.lines| {
      return 0, container;
    }
    var line := fs.lines[fs.pos];
    fs.pos := fs.pos + 1;
    if |line| > 0 && line[|line| - 1] == '\r' {
      line := line[..|line| - 1];
    }
    result := SplitFields(line);
    status := 1;
  }
}
