/**
 A worked instance of the first analysis `main` runs: the mean maximum
 speed per player over the practice sessions only.
 */
module CsvExample {
  import opened LineParser
  import opened Filter
  import opened Stats
  import opened StatViews
  import opened Table
  import opened Grouping
  import opened CsvTable

  function Header(): seq<string>
  {
    ["Name", "Session_Type", "Max_Speed"]
  }

  /** Three sessions: a practice and a game for Al, a practice for Bo. */
  function Sessions(): seq<seq<string>>
  {
    [["Al", "Practice", "10"], ["Al", "Game", "20"], ["Bo", "Practice", "30"]]
  }

  function PracticeOnly(): CsvFilter
  {
    Filtered("Session_Type", EqualsStr("Practice"))
  }

  /** The header and every session can be written as one line and read back. */
  lemma ExampleWritable()
    ensures Writable(Header())
    ensures forall j :: 0 <= j < |Sessions()| ==> Writable(Sessions()[j])
  {
    HeaderWritable();
    SessionWritable(0);
    SessionWritable(1);
    SessionWritable(2);
  }

  lemma HeaderWritable()
    ensures Writable(Header())
  {
  }

  lemma SessionWritable(j: nat)
    requires j < |Sessions()|
    ensures Writable(Sessions()[j])
  {
    if j == 0 {
      assert Sessions()[j] == ["Al", "Practice", "10"];
    } else if j == 1 {
      assert Sessions()[j] == ["Al", "Game", "20"];
    } else {
      assert Sessions()[j] == ["Bo", "Practice", "30"];
    }
  }

  /** The header line names columns 0, 1 and 2. */
  lemma ExampleHeaders(lines: seq<string>)
    requires lines == Written(Header(), Sessions())
    ensures HeaderMap(HeaderFields(lines)) == map["Name" := 0, "Session_Type" := 1, "Max_Speed" := 2]
  {
    var h := Header();
    ExampleWritable();
    ParseLineJoin(h);
    assert lines[0] == Join(h);
    assert HeaderFields(lines) == h;
    assert h[..2][..1] == ["Name"] && ["Name"][..0] == [];
    assert h[..2] == ["Name", "Session_Type"];
  }

  /** Loading the written sessions file gives one row per session. */
  lemma ExampleRows(lines: seq<string>)
    requires lines == Written(Header(), Sessions())
    ensures |DataRows(lines)| == |Sessions()|
    ensures forall j :: 0 <= j < |Sessions()| ==> DataRows(lines)[j] == Row(Sessions()[j])
  {
    var cells := Sessions();
    ExampleWritable();
    LoadWritten(Header(), cells);
  }

  lemma ExampleGroupsPrefix(rows: seq<Row>, stod: string -> real)
    requires |rows| == |Sessions()| && forall j :: 0 <= j < |Sessions()| ==> rows[j] == Row(Sessions()[j])
    ensures InRange(rows, PracticeOnly(), 1, 0, 2)
    ensures InRange(rows[..2], PracticeOnly(), 1, 0, 2)
    ensures Groups(rows[..2], PracticeOnly(), 1, 0, 2, stod) == map["Al" := [stod("10")]]
  {
    var f := PracticeOnly();
    assert rows[0].cells == ["Al", "Practice", "10"] && rows[1].cells == ["Al", "Game", "20"];
    assert rows[2].cells == ["Bo", "Practice", "30"];
    assert InRange(rows, f, 1, 0, 2);
    assert rows[..0] == [];
    GroupsStep(rows, f, 1, 0, 2, stod, 0);
    assert Passes(rows[0], f, 1);
    var e: seq<real> := [];
    assert e + [stod("10")] == [stod("10")];
    GroupsStep(rows, f, 1, 0, 2, stod, 1);
    assert rows[1].cells[1] != "Practice";
  }

  /** Al's practice session and Bo's form one group each; Al's game is filtered out. */
  lemma ExampleGroups(rows: seq<Row>, stod: string -> real)
    requires |rows| == |Sessions()| && forall j :: 0 <= j < |Sessions()| ==> rows[j] == Row(Sessions()[j])
    ensures InRange(rows, PracticeOnly(), 1, 0, 2)
    ensures Groups(rows, PracticeOnly(), 1, 0, 2, stod) == map["Al" := [stod("10")], "Bo" := [stod("30")]]
  {
    var f := PracticeOnly();
    ExampleGroupsPrefix(rows, stod);
    GroupsStep(rows, f, 1, 0, 2, stod, 2);
    assert rows[2].cells == ["Bo", "Practice", "30"];
    assert Passes(rows[2], f, 1);
    var e: seq<real> := [];
    assert e + [stod("30")] == [stod("30")];
    assert rows[..3] == rows;
  }

  /**
   A table loaded from the sessions file groups, under the practice filter
   on "Session_Type", Al's and Bo's practice "Max_Speed" values; a mean
   view built from it holds the single value of each (see MeanOfOne).
   */
  lemma PracticeSpeeds(c: Csv, stod: string -> real)
    requires c.Valid() && c.lines == Written(Header(), Sessions())
    ensures c.ColumnOf("Name") == 0 && c.ColumnOf("Session_Type") == 1 && c.ColumnOf("Max_Speed") == 2
    ensures InRange(c.rows, PracticeOnly(), c.ColumnOf("Session_Type"), c.ColumnOf("Name"), c.ColumnOf("Max_Speed"))
    ensures c.Collected("Name", "Max_Speed", PracticeOnly(), stod) == map["Al" := [stod("10")], "Bo" := [stod("30")]]
  {
    ExampleHeaders(c.lines);
    ExampleRows(c.lines);
    ExampleColumns(c);
    ExampleGroups(c.rows, stod);
  }

  lemma ExampleColumns(c: Csv)
    requires c.headers == map["Name" := 0, "Session_Type" := 1, "Max_Speed" := 2]
    ensures c.ColumnOf("Name") == 0 && c.ColumnOf("Session_Type") == 1 && c.ColumnOf("Max_Speed") == 2
  {
    assert "Name"[0] == 'N' && "Session_Type"[0] == 'S' && "Max_Speed"[0] == 'M';
  }

  /** The mean of a single session is its value. */
  lemma MeanOfOne(a: real)
    ensures forall x :: IsStat(Mean, [a], x) <==> x == a
  {
    assert [a][..0] == [];
    assert Sum([a]) == a;
  }

  /** A mean view over the practice groups holds each player's one value. */
  lemma PracticeView(m: map<string, real>, coll: map<string, seq<real>>, stod: string -> real)
    requires coll == map["Al" := [stod("10")], "Bo" := [stod("30")]]
    requires forall k :: k in m <==> k in coll
    requires forall k :: k in coll ==> IsStat(Mean, coll[k], m[k])
    ensures m == map["Al" := stod("10"), "Bo" := stod("30")]
  {
    MeanOfOne(stod("10"));
    MeanOfOne(stod("30"));
    assert m.Keys == {"Al", "Bo"};
  }

  /**
   The analysis end to end: load the sessions file, reduce "Max_Speed" by
   "Name" over the practice sessions into a fresh mean view.  The view
   holds Al's only practice value and Bo's, and nothing else.
   */
  method PracticeMeanSpeeds(stod: string -> real) returns (sv: StatView)
    ensures sv.sm == Mean
    ensures sv.view == map["Al" := stod("10"), "Bo" := stod("30")]
  {
    var lines := Written(Header(), Sessions());
    var c := new Csv(lines);
    PracticeSpeeds(c, stod);
    sv := new StatView(Mean);
    c.ToStatView(sv, "Name", "Max_Speed", PracticeOnly(), stod);
    PracticeView(sv.view, c.Collected("Name", "Max_Speed", PracticeOnly(), stod), stod);
  }
}
