/**
 * Small files run through the parser model, each showing one behaviour of the code:
 * a negative time hides the most time-consuming topic, an empty topic cell makes a
 * topic of its own, and a file without a correctness column still ranks topics.
 */
module Scenarios {
  import opened Wrappers
  import opened Text
  import opened Numerals
  import opened Aggregation
  import opened Metrics
  import opened Pipeline

  /** Lines built from printable, comma-free cells split back into those cells. */
  lemma PrintableCells(cells: seq<string>)
    requires |cells| >= 1
    requires forall k :: 0 <= k < |cells| ==> ',' !in cells[k]
    requires forall k :: 0 <= k < |cells| ==> Printable(cells[k])
    ensures Cells(Join(cells, ',')) == cells
  {
    PrintableFixed(cells);
    CellsOfJoin(cells);
  }

  /** Printable cells are their own trim. */
  lemma PrintableFixed(cells: seq<string>)
    requires forall k :: 0 <= k < |cells| ==> Printable(cells[k])
    ensures forall k :: 0 <= k < |cells| ==> Trim(cells[k]) == cells[k]
  {
    forall k | 0 <= k < |cells|
      ensures Trim(cells[k]) == cells[k]
    {
      PrintableTrim(cells[k]);
    }
  }

  /** A header of printable lower-case names resolves each name to its position. */
  lemma PrintableHeader(cells: seq<string>)
    requires |cells| >= 1
    requires forall k :: 0 <= k < |cells| ==>
      Printable(cells[k]) && ',' !in cells[k] && forall i :: 0 <= i < |cells[k]| ==> !('A' <= cells[k][i] <= 'Z')
    ensures HeaderNames(Join(cells, ',')) == cells
  {
    PrintableCells(cells);
    var raw := Split(Join(cells, ','), ',');
    forall k | 0 <= k < |cells|
      ensures ToLower(Trim(raw[k])) == cells[k]
    {
      assert Trim(raw[k]) == Cells(Join(cells, ','))[k] == cells[k];
      ToLowerUnchanged(cells[k]);
    }
  }

  /** A file of two lines, the header and one row. */
  lemma TwoLines(header: string, row: string)
    requires '\n' !in header && '\n' !in row
    ensures Split(header + "\n" + row, '\n') == [header, row]
  {
    SplitJoin([header, row], '\n');
    assert Join([header, row], '\n') == header + "\n" + row;
  }

  /** A file of a header and one non-blank row folds that row once, from the start. */
  lemma OneRow(header: string, row: string)
    requires '\n' !in header && '\n' !in row
    ensures Tallied(header + "\n" + row) == Step(ResolveColumns(header), Start, row)
  {
    TwoLines(header, row);
    var c := ResolveColumns(header);
    assert [row][..0] == [];
    assert Run(c, [row]) == Step(c, Run(c, []), row);
  }

  /** A row of printable characters is not blank. */
  lemma PrintableNotBlank(row: string)
    requires row != [] && Printable(row)
    ensures !IsBlank(row)
  {
    PrintableTrim(row);
  }

  /** The first row of a file: a new topic record holding just that row. */
  lemma FoldRow(topic: string, ok: Option<bool>, time: Option<int>)
    ensures var n := if ok == Some(true) then 1 else 0; var m := if ok.Some? then 1 else 0;
      Clock(Mark(Open(Start, topic), topic, ok), topic, time) ==
      Tally(n, m, time.GetOr(0), [topic], map[topic := Counts(n, m, time.GetOr(0))])
  {
    var t1 := Open(Start, topic);
    assert t1 == Tally(0, 0, 0, [topic], map[topic := Zero]);
  }

  // The files below are passed as parameters fixed by a precondition, so that the
  // verifier reasons about their parts through the lemmas above instead of unfolding
  // every function on the literal text.

  lemma TimedColumns(header: string)
    requires header == "topic,correct,time_taken"
    ensures ResolveColumns(header) == Columns(1, 2, 0)
  {
    assert Join(["topic", "correct", "time_taken"], ',') == header;
    PrintableHeader(["topic", "correct", "time_taken"]);
  }

  lemma NegativeCells(row: string)
    requires row == "A,true,-5"
    ensures Cells(row) == ["A", "true", "-5"]
  {
    assert Join(["A", "true", "-5"], ',') == row;
    PrintableCells(["A", "true", "-5"]);
  }

  lemma NegativeValues(values: seq<string>)
    requires values == ["A", "true", "-5"]
    ensures RowTopic(Columns(1, 2, 0), values) == "A"
    ensures RowCorrect(Columns(1, 2, 0), values) == Some(true)
    ensures RowTime(Columns(1, 2, 0), values) == Some(-5)
  {
    ToLowerUnchanged("true");
    assert IntToString(-5) + "" == "-5";
    ParseSecondsOfNumeral(-5, "");
  }

  /**
   * One answered row of topic A that took -5 seconds: A has an answer and a negative
   * average time, so the ranking loop never passes its starting bound of -1 and the
   * file has no most time-consuming topic although it has a topic.
   */
  lemma NegativeTally(header: string, row: string)
    requires header == "topic,correct,time_taken" && row == "A,true,-5"
    ensures Tallied(header + "\n" + row) == Tally(1, 1, -5, ["A"], map["A" := Counts(1, 1, -5)])
  {
    OneRow(header, row);
    TimedColumns(header);
    NegativeStep(row);
  }

  lemma NegativeStep(row: string)
    requires row == "A,true,-5"
    ensures Step(Columns(1, 2, 0), Start, row) == Tally(1, 1, -5, ["A"], map["A" := Counts(1, 1, -5)])
  {
    NegativeCells(row);
    PrintableNotBlank(row);
    NegativeValues(Cells(row));
    StepOfRow(Columns(1, 2, 0), Start, row);
    FoldRow("A", Some(true), Some(-5));
  }


  lemma NegativeEntries()
    ensures var es := Entries(["A"], map["A" := Counts(1, 1, -5)]);
      |es| == 1 && AvgTimes(es)[0] == -5
  {
    var es := Entries(["A"], map["A" := Counts(1, 1, -5)]);
    assert es[0] == TopicEntry("A", Counts(1, 1, -5));
    assert AverageTime(-5, 1) == -5;
  }

  lemma NegativeTimeHidesSlowest(header: string, row: string)
    requires header == "topic,correct,time_taken" && row == "A,true,-5"
    ensures var t := Tallied(header + "\n" + row);
      t.order == ["A"] && t.totalTimeSeconds == -5 && t.correctCount == 1 && t.totalCount == 1 &&
      forall p :: SlowestOf(p, Entries(t.order, t.stats)) ==> p.None?
  {
    NegativeTally(header, row);
    NegativeEntries();
  }


  lemma TopicColumns(header: string)
    requires header == "topic,correct"
    ensures ResolveColumns(header) == Columns(1, -1, 0)
  {
    assert Join(["topic", "correct"], ',') == header;
    PrintableHeader(["topic", "correct"]);
  }

  lemma EmptyTopicCells(row: string)
    requires row == ",true"
    ensures Cells(row) == ["", "true"]
  {
    assert Join(["", "true"], ',') == row;
    PrintableCells(["", "true"]);
  }

  lemma EmptyTopicValues(values: seq<string>)
    requires values == ["", "true"]
    ensures RowTopic(Columns(1, -1, 0), values) == ""
    ensures RowCorrect(Columns(1, -1, 0), values) == Some(true)
    ensures RowTime(Columns(1, -1, 0), values) == None
  {
    ToLowerUnchanged("true");
  }

  /**
   * A row whose topic cell is empty is filed under the empty topic, not under
   * "General", which only stands for a missing topic cell.
   */
  lemma EmptyTopicTally(header: string, row: string)
    requires header == "topic,correct" && row == ",true"
    ensures Tallied(header + "\n" + row) == Tally(1, 1, 0, [""], map["" := Counts(1, 1, 0)])
  {
    OneRow(header, row);
    TopicColumns(header);
    EmptyTopicStep(row);
  }

  lemma EmptyTopicStep(row: string)
    requires row == ",true"
    ensures Step(Columns(1, -1, 0), Start, row) == Tally(1, 1, 0, [""], map["" := Counts(1, 1, 0)])
  {
    EmptyTopicCells(row);
    PrintableNotBlank(row);
    EmptyTopicValues(Cells(row));
    StepOfRow(Columns(1, -1, 0), Start, row);
    FoldRow("", Some(true), None);
  }


  lemma EmptyTopicCell(header: string, row: string)
    requires header == "topic,correct" && row == ",true"
    ensures var t := Tallied(header + "\n" + row);
      t.order == [""] && t.stats == map["" := Counts(1, 1, 0)]
  {
    EmptyTopicTally(header, row);
  }


  lemma UntimedColumns(header: string)
    requires header == "topic,time_taken"
    ensures ResolveColumns(header) == Columns(-1, 1, 0)
  {
    assert Join(["topic", "time_taken"], ',') == header;
    PrintableHeader(["topic", "time_taken"]);
  }

  lemma UntimedCells(row: string)
    requires row == "A,30"
    ensures Cells(row) == ["A", "30"]
  {
    assert Join(["A", "30"], ',') == row;
    PrintableCells(["A", "30"]);
  }

  lemma UntimedValues(values: seq<string>)
    requires values == ["A", "30"]
    ensures RowTopic(Columns(-1, 1, 0), values) == "A"
    ensures RowCorrect(Columns(-1, 1, 0), values) == None
    ensures RowTime(Columns(-1, 1, 0), values) == Some(30)
  {
    assert IntToString(30) + "" == "30" by {
      assert NatToString(30) == NatToString(3) + "0";
    }
    ParseSecondsOfNumeral(30, "");
  }

  /**
   * Without a correctness column no answer is counted, so a topic's average time is 0
   * whatever time it took, and the percentage is 0.
   */
  lemma UntimedTally(header: string, row: string)
    requires header == "topic,time_taken" && row == "A,30"
    ensures Tallied(header + "\n" + row) == Tally(0, 0, 30, ["A"], map["A" := Counts(0, 0, 30)])
  {
    OneRow(header, row);
    UntimedColumns(header);
    UntimedStep(row);
  }

  lemma UntimedStep(row: string)
    requires row == "A,30"
    ensures Step(Columns(-1, 1, 0), Start, row) == Tally(0, 0, 30, ["A"], map["A" := Counts(0, 0, 30)])
  {
    UntimedCells(row);
    PrintableNotBlank(row);
    UntimedValues(Cells(row));
    StepOfRow(Columns(-1, 1, 0), Start, row);
    FoldRow("A", None, Some(30));
  }


  lemma NoAnswersNoAverage(header: string, row: string)
    requires header == "topic,time_taken" && row == "A,30"
    ensures var t := Tallied(header + "\n" + row);
      t.totalCount == 0 && t.totalTimeSeconds == 30 && Percent(t.correctCount, t.totalCount) == 0 &&
      AvgTimes(Entries(t.order, t.stats)) == [0]
  {
    UntimedTally(header, row);
    var t := Tally(0, 0, 30, ["A"], map["A" := Counts(0, 0, 30)]);
    assert Entries(t.order, t.stats) == [TopicEntry("A", Counts(0, 0, 30))];
  }

}
