/**
 * The row fold of the CSV attempt parser: column lookup in the header line, then one
 * pass over the body lines that counts answered and correct questions, adds up the
 * time column and keeps one counter record per topic.
 *
 * `Run` is the specification (a left fold of `Step` over the body lines); `Aggregate`
 * is the loop that updates running counters and a topic dictionary in place, proved
 * equal to `Run`. The lemmas state what the fold computes.
 */
module Aggregation {
  import opened Wrappers
  import opened Text
  import opened Numerals

  /** A header position as `indexOf` returns it: -1 when the column is missing. */
  type ColumnIndex = i: int | -1 <= i witness -1

  datatype Columns = Columns(correct: ColumnIndex, time: ColumnIndex, topic: ColumnIndex)

  /** Every piece trimmed. */
  function TrimEach(raw: seq<string>): (r: seq<string>)
    ensures |r| == |raw| && forall k :: 0 <= k < |raw| ==> r[k] == Trim(raw[k])
  {
    seq(|raw|, i requires 0 <= i < |raw| => Trim(raw[i]))
  }

  /** A line's cells: split on commas, each cell trimmed. */
  function Cells(line: string): (r: seq<string>)
    ensures |r| == |Split(line, ',')|
  {
    TrimEach(Split(line, ','))
  }

  /** A line written from comma-free cells that are their own trim reads back as those cells. */
  lemma CellsOfJoin(cells: seq<string>)
    requires |cells| >= 1
    requires forall k :: 0 <= k < |cells| ==> ',' !in cells[k]
    requires forall k :: 0 <= k < |cells| ==> Trim(cells[k]) == cells[k]
    ensures Cells(Join(cells, ',')) == cells
  {
    SplitJoin(cells, ',');
  }

  /**
   * Every cell of a row is free of commas and is its own trim, so writing the cells back
   * with commas and reading them again gives the same cells.
   */
  lemma CellsShape(line: string)
    ensures |Cells(line)| >= 1
    ensures forall k :: 0 <= k < |Cells(line)| ==> ',' !in Cells(line)[k] && Trim(Cells(line)[k]) == Cells(line)[k]
    ensures Cells(Join(Cells(line), ',')) == Cells(line)
  {
    var raw := Split(line, ',');
    var cells := Cells(line);
    forall k | 0 <= k < |cells|
      ensures ',' !in cells[k] && Trim(cells[k]) == cells[k]
    {
      TrimWithin(raw[k], ',');
      TrimIdempotent(raw[k]);
    }
    CellsOfJoin(cells);
  }

  /** The header line's cells, trimmed and lower-cased for matching. */
  function HeaderNames(headerLine: string): seq<string> {
    var raw := Split(headerLine, ',');
    seq(|raw|, i requires 0 <= i < |raw| => ToLower(Trim(raw[i])))
  }

  /** A column resolves to the first header cell that matches its name, or to -1. */
  ghost predicate Resolves(names: seq<string>, name: string, i: ColumnIndex) {
    (i == -1 <==> name !in names) &&
    (i != -1 ==> i < |names| && names[i] == name && forall j :: 0 <= j < i ==> names[j] != name)
  }

  function ResolveColumns(headerLine: string): (c: Columns)
    ensures var names := HeaderNames(headerLine);
      Resolves(names, "correct", c.correct) && Resolves(names, "time_taken", c.time) &&
      Resolves(names, "topic", c.topic)
  {
    var names := HeaderNames(headerLine);
    Columns(IndexOf(names, "correct"), IndexOf(names, "time_taken"), IndexOf(names, "topic"))
  }

  /** The column exists and this row has a cell at its position. */
  predicate Present(i: ColumnIndex, values: seq<string>) {
    i != -1 && |values| > i
  }

  /** The row's topic: its topic cell (even when empty), or "General" when there is none. */
  function RowTopic(c: Columns, values: seq<string>): string {
    if Present(c.topic, values) then values[c.topic] else "General"
  }

  /** Whether the row is answered correctly; None when it has no correctness cell. */
  function RowCorrect(c: Columns, values: seq<string>): Option<bool> {
    if Present(c.correct, values) then Some(ToLower(values[c.correct]) == "true") else None
  }

  /** The row's time in seconds; None when it has no time cell or the cell is not a number. */
  function RowTime(c: Columns, values: seq<string>): Option<int> {
    if Present(c.time, values) then ParseSeconds(values[c.time]) else None
  }

  /** One topic's counters. */
  datatype Counts = Counts(correct: nat, total: nat, totalTime: int)

  const Zero := Counts(0, 0, 0)

  function Add(a: Counts, b: Counts): Counts {
    Counts(a.correct + b.correct, a.total + b.total, a.totalTime + b.totalTime)
  }

  /**
   * The state of the fold: the running counters and the topic dictionary, whose keys
   * are kept in `order`, the order in which they were first inserted.
   */
  datatype Tally = Tally(correctCount: nat, totalCount: nat, totalTimeSeconds: int,
                         order: seq<string>, stats: map<string, Counts>)

  const Start := Tally(0, 0, 0, [], map[])

  /** Makes sure the topic has a counter record, appending it to the key order when new. */
  function Open(t: Tally, topic: string): (r: Tally)
    ensures topic in r.stats
  {
    if topic in t.stats then t
    else t.(order := t.order + [topic], stats := t.stats[topic := Zero])
  }

  /** Counts an answered question, and a correct one when it is. */
  function Mark(t: Tally, topic: string, correct: Option<bool>): (r: Tally)
    requires topic in t.stats
    ensures topic in r.stats
  {
    match correct
    case None => t
    case Some(ok) =>
      var b := t.stats[topic];
      var counted := t.(totalCount := t.totalCount + 1, stats := t.stats[topic := b.(total := b.total + 1)]);
      if ok then
        var b' := counted.stats[topic];
        counted.(correctCount := counted.correctCount + 1,
                 stats := counted.stats[topic := b'.(correct := b'.correct + 1)])
      else counted
  }

  /** Adds a parsed time to the running total and to the topic's total. */
  function Clock(t: Tally, topic: string, time: Option<int>): Tally
    requires topic in t.stats
  {
    match time
    case None => t
    case Some(v) =>
      var b := t.stats[topic];
      t.(totalTimeSeconds := t.totalTimeSeconds + v,
         stats := t.stats[topic := b.(totalTime := b.totalTime + v)])
  }

  /**
   * Opening a topic leaves every existing record and the counters as they were; a new
   * topic gets a zero record and is appended to the key order, a known one changes nothing.
   */
  lemma OpenEffect(t: Tally, topic: string)
    ensures var r := Open(t, topic);
      (forall k :: k in r.stats <==> k in t.stats || k == topic) &&
      (forall k :: k in t.stats ==> r.stats[k] == t.stats[k]) &&
      r.correctCount == t.correctCount && r.totalCount == t.totalCount && r.totalTimeSeconds == t.totalTimeSeconds
    ensures topic in t.stats ==> Open(t, topic) == t
    ensures topic !in t.stats ==> Open(t, topic).stats[topic] == Zero && Open(t, topic).order == t.order + [topic]
  {
  }

  /**
   * Counting an answer adds one answer, and one correct answer when it is correct, to
   * the topic's record and to the running counters; no other record, no key and no
   * time changes.
   */
  lemma MarkEffect(t: Tally, topic: string, correct: Option<bool>)
    requires topic in t.stats
    ensures var r := Mark(t, topic, correct);
      var n := if correct == Some(true) then 1 else 0;
      var m := if correct.Some? then 1 else 0;
      (forall k :: k in r.stats <==> k in t.stats) &&
      (forall k :: k in t.stats && k != topic ==> r.stats[k] == t.stats[k]) &&
      r.stats[topic] == Add(t.stats[topic], Counts(n, m, 0)) &&
      r.correctCount == t.correctCount + n && r.totalCount == t.totalCount + m &&
      r.totalTimeSeconds == t.totalTimeSeconds && r.order == t.order
  {
  }

  /**
   * Adding a time adds it to the topic's record and to the running total, and a missing
   * time adds nothing; no other record, no key and no answer count changes.
   */
  lemma ClockEffect(t: Tally, topic: string, time: Option<int>)
    requires topic in t.stats
    ensures var r := Clock(t, topic, time);
      (forall k :: k in r.stats <==> k in t.stats) &&
      (forall k :: k in t.stats && k != topic ==> r.stats[k] == t.stats[k]) &&
      r.stats[topic] == Add(t.stats[topic], Counts(0, 0, time.GetOr(0))) &&
      r.correctCount == t.correctCount && r.totalCount == t.totalCount &&
      r.totalTimeSeconds == t.totalTimeSeconds + time.GetOr(0) && r.order == t.order
  {
  }

  /** What one body line does to the state; a blank line does nothing. */
  function Step(c: Columns, t: Tally, line: string): Tally {
    if IsBlank(line) then t
    else
      var values := Cells(line);
      var topic := RowTopic(c, values);
      Clock(Mark(Open(t, topic), topic, RowCorrect(c, values)), topic, RowTime(c, values))
  }

  /** The state after the given body lines, folded from the first to the last. */
  function Run(c: Columns, lines: seq<string>): Tally {
    if lines == [] then Start else Step(c, Run(c, lines[..|lines| - 1]), lines[|lines| - 1])
  }

  /**
   * The updates the loop body makes for one non-blank row: create the topic's record
   * when missing, count the answer, add the time.
   */
  method CountRow(t: Tally, topic: string, answer: Option<bool>, timeValue: Option<int>) returns (r: Tally)
    ensures r == Clock(Mark(Open(t, topic), topic, answer), topic, timeValue)
  {
    var correctCount, totalCount, totalTimeSeconds := t.correctCount, t.totalCount, t.totalTimeSeconds;
    var order, stats := t.order, t.stats;
    if topic !in stats {
      stats := stats[topic := Zero];
      order := order + [topic];
    }
    if answer.Some? {
      totalCount := totalCount + 1;
      stats := stats[topic := stats[topic].(total := stats[topic].total + 1)];
      if answer.value {
        correctCount := correctCount + 1;
        stats := stats[topic := stats[topic].(correct := stats[topic].correct + 1)];
      }
    }
    if timeValue.Some? {
      totalTimeSeconds := totalTimeSeconds + timeValue.value;
      stats := stats[topic := stats[topic].(totalTime := stats[topic].totalTime + timeValue.value)];
    }
    r := Tally(correctCount, totalCount, totalTimeSeconds, order, stats);
  }

  /** A non-blank line is one `Open`, `Mark`, `Clock` sequence on its cells. */
  lemma StepOfRow(c: Columns, t: Tally, line: string)
    requires !IsBlank(line)
    ensures var values := Cells(line); var topic := RowTopic(c, values);
      Step(c, t, line) == Clock(Mark(Open(t, topic), topic, RowCorrect(c, values)), topic, RowTime(c, values))
  {
  }

  /** The fold of lines ending in `x` is one `Step` with `x` after the fold of the others. */
  lemma RunLast(c: Columns, lines: seq<string>, init: seq<string>, x: string)
    requires lines == init + [x]
    ensures Run(c, lines) == Step(c, Run(c, init), x)
  {
    assert lines[..|lines| - 1] == init;
  }

  /** Folding one more line of the body is one more `Step`. */
  lemma RunExtend(c: Columns, lines: seq<string>, i: int)
    requires 1 <= i < |lines|
    ensures Run(c, lines[1..i + 1]) == Step(c, Run(c, lines[1..i]), lines[i])
  {
    RunLast(c, lines[1..i + 1], lines[1..i], lines[i]);
  }

  /** The loop of the parser over the lines after the header. */
  method Aggregate(lines: seq<string>) returns (c: Columns, t: Tally)
    requires |lines| >= 1
    ensures c == ResolveColumns(lines[0])
    ensures t == Run(c, lines[1..])
  {
    c := ResolveColumns(lines[0]);
    t := Start;
    for i := 1 to |lines|
      invariant t == Run(c, lines[1..i])
    {
      RunExtend(c, lines, i);
      if !IsBlank(lines[i]) {
        var values := Cells(lines[i]);
        var topic := RowTopic(c, values);
        var answer := RowCorrect(c, values);
        var timeValue := RowTime(c, values);
        StepOfRow(c, t, lines[i]);
        t := CountRow(t, topic, answer, timeValue);
      }
    }
    assert lines[1..|lines|] == lines[1..];
  }
}
