/**
 * What the row fold computes: the invariants every state of the fold keeps, the
 * counters as independent counts over the body lines, the order of the topic keys,
 * and the lines that contribute nothing.
 */
module TallyFacts {
  import opened Wrappers
  import opened Text
  import opened Aggregation

  ghost predicate Distinct(s: seq<string>) {
    forall i, j :: 0 <= i < j < |s| ==> s[i] != s[j]
  }

  /** No topic has more correct answers than answers. */
  ghost predicate Bounded(stats: map<string, Counts>) {
    forall n :: n in stats ==> stats[n].correct <= stats[n].total
  }

  /** The counters of the listed topics added together. */
  function Pooled(order: seq<string>, stats: map<string, Counts>): Counts
    requires forall n :: n in order ==> n in stats
  {
    if order == [] then Zero
    else Add(Pooled(order[..|order| - 1], stats), stats[order[|order| - 1]])
  }

  /**
   * The invariant of the fold: the key order lists each dictionary key exactly once,
   * no topic has more correct answers than answers, and the topic records add up to
   * the running counters.
   */
  ghost predicate Consistent(t: Tally) {
    Distinct(t.order) &&
    (forall n :: n in t.stats <==> n in t.order) &&
    Bounded(t.stats) &&
    t.correctCount <= t.totalCount &&
    Pooled(t.order, t.stats) == Counts(t.correctCount, t.totalCount, t.totalTimeSeconds)
  }

  lemma {:induction false} PooledFrame(order: seq<string>, stats: map<string, Counts>, k: string, v: Counts)
    requires forall n :: n in order ==> n in stats
    requires k !in order
    ensures Pooled(order, stats[k := v]) == Pooled(order, stats)
  {
    if order != [] {
      PooledFrame(order[..|order| - 1], stats, k, v);
    }
  }

  /** Replacing one listed record changes the sum by the difference. */
  lemma {:induction false} PooledUpdate(order: seq<string>, stats: map<string, Counts>, k: string, v: Counts)
    requires forall n :: n in order ==> n in stats
    requires Distinct(order) && k in order
    ensures Add(Pooled(order, stats[k := v]), stats[k]) == Add(Pooled(order, stats), v)
  {
    var init, last := order[..|order| - 1], order[|order| - 1];
    assert forall n :: n in init ==> n in order;
    if last == k {
      assert k !in init;
      PooledFrame(init, stats, k, v);
    } else {
      assert k in init;
      PooledUpdate(init, stats, k, v);
    }
  }

  lemma DistinctAppend(s: seq<string>, x: string)
    requires Distinct(s) && x !in s
    ensures Distinct(s + [x])
  {
  }

  lemma AddZero(x: Counts)
    ensures Add(x, Zero) == x
  {
  }

  /** A new topic starts at zero, so the pooled counters do not move. */
  lemma {:induction false} OpenPooled(order: seq<string>, stats: map<string, Counts>, topic: string)
    requires forall n :: n in order ==> n in stats
    requires topic !in order
    ensures Pooled(order + [topic], stats[topic := Zero]) == Pooled(order, stats)
  {
    var o := order + [topic];
    assert o[..|o| - 1] == order;
    assert Pooled(o, stats[topic := Zero]) == Add(Pooled(order, stats[topic := Zero]), Zero);
    PooledFrame(order, stats, topic, Zero);
    AddZero(Pooled(order, stats));
  }

  lemma KeysAppend(order: seq<string>, stats: map<string, Counts>, topic: string, v: Counts)
    requires forall n :: n in stats <==> n in order
    ensures forall n :: n in stats[topic := v] <==> n in order + [topic]
  {
  }

  lemma BoundedUpdate(stats: map<string, Counts>, k: string, v: Counts)
    requires Bounded(stats) && v.correct <= v.total
    ensures Bounded(stats[k := v])
  {
  }

  lemma OpenKeeps(t: Tally, topic: string)
    requires Consistent(t)
    ensures Consistent(Open(t, topic))
  {
    if topic !in t.stats {
      assert topic !in t.order;
      DistinctAppend(t.order, topic);
      OpenPooled(t.order, t.stats, topic);
      KeysAppend(t.order, t.stats, topic, Zero);
      BoundedUpdate(t.stats, topic, Zero);
    }
  }

  /** What one line does to the key order: a new topic is appended, nothing else changes it. */
  lemma StepOrder(c: Columns, t: Tally, line: string)
    ensures Step(c, t, line).order ==
      if IsBlank(line) then t.order
      else
        var topic := RowTopic(c, Cells(line));
        if topic in t.stats then t.order else t.order + [topic]
  {
  }

  /**
   * Replacing one topic's record keeps the invariant when the running counters move by
   * the same amount as the record and the new record is bounded.
   */
  lemma RecordKeeps(t: Tally, topic: string, v: Counts, r: Tally)
    requires Consistent(t) && topic in t.stats && v.correct <= v.total
    requires r.order == t.order && r.stats == t.stats[topic := v] && r.correctCount <= r.totalCount
    requires Add(Counts(r.correctCount, r.totalCount, r.totalTimeSeconds), t.stats[topic]) ==
             Add(Counts(t.correctCount, t.totalCount, t.totalTimeSeconds), v)
    ensures Consistent(r)
  {
    PooledUpdate(t.order, t.stats, topic, v);
    BoundedUpdate(t.stats, topic, v);
  }

  /** Adds `d` to one topic's record and to the running counters. */
  function Bump(t: Tally, topic: string, d: Counts): Tally
    requires topic in t.stats
  {
    t.(correctCount := t.correctCount + d.correct, totalCount := t.totalCount + d.total,
       totalTimeSeconds := t.totalTimeSeconds + d.totalTime,
       stats := t.stats[topic := Add(t.stats[topic], d)])
  }

  lemma BumpKeeps(t: Tally, topic: string, d: Counts)
    requires Consistent(t) && topic in t.stats && d.correct <= d.total
    ensures Consistent(Bump(t, topic, d))
  {
    RecordKeeps(t, topic, Add(t.stats[topic], d), Bump(t, topic, d));
  }

  /** Counting an answer is one addition to the topic's record and to the counters. */
  lemma MarkBump(t: Tally, topic: string, ok: bool)
    requires topic in t.stats
    ensures Mark(t, topic, Some(ok)) == Bump(t, topic, Counts(if ok then 1 else 0, 1, 0))
  {
    var b := t.stats[topic];
    var b1 := b.(total := b.total + 1);
    if ok {
      assert t.stats[topic := b1][topic := b1.(correct := b1.correct + 1)] == t.stats[topic := Add(b, Counts(1, 1, 0))];
    }
  }

  lemma MarkKeeps(t: Tally, topic: string, correct: Option<bool>)
    requires Consistent(t) && topic in t.stats
    ensures Consistent(Mark(t, topic, correct))
  {
    if correct.Some? {
      MarkBump(t, topic, correct.value);
      BumpKeeps(t, topic, Counts(if correct.value then 1 else 0, 1, 0));
    }
  }

  lemma ClockKeeps(t: Tally, topic: string, time: Option<int>)
    requires Consistent(t) && topic in t.stats
    ensures Consistent(Clock(t, topic, time))
  {
    if time.Some? {
      BumpKeeps(t, topic, Counts(0, 0, time.value));
      assert Clock(t, topic, time) == Bump(t, topic, Counts(0, 0, time.value));
    }
  }

  lemma StepKeeps(c: Columns, t: Tally, line: string)
    requires Consistent(t)
    ensures Consistent(Step(c, t, line))
  {
    if !IsBlank(line) {
      var values := Cells(line);
      var topic := RowTopic(c, values);
      OpenKeeps(t, topic);
      var t1 := Open(t, topic);
      MarkKeeps(t1, topic, RowCorrect(c, values));
      ClockKeeps(Mark(t1, topic, RowCorrect(c, values)), topic, RowTime(c, values));
    }
  }

  /** Every state the fold reaches keeps the invariant. */
  lemma {:induction false} RunConsistent(c: Columns, lines: seq<string>)
    ensures Consistent(Run(c, lines))
  {
    if lines != [] {
      RunConsistent(c, lines[..|lines| - 1]);
      StepKeeps(c, Run(c, lines[..|lines| - 1]), lines[|lines| - 1]);
    }
  }

  /** `correct <= total` overall and for every topic, and the topics add up to the totals. */
  lemma CountsBounded(c: Columns, lines: seq<string>)
    ensures var t := Run(c, lines);
      t.correctCount <= t.totalCount &&
      (forall n :: n in t.stats ==> t.stats[n].correct <= t.stats[n].total) &&
      (forall n :: n in t.stats <==> n in t.order) &&
      Pooled(t.order, t.stats) == Counts(t.correctCount, t.totalCount, t.totalTimeSeconds)
  {
    RunConsistent(c, lines);
  }

  // ---- The counters as counts over the lines ----

  /** A line's answer: None for a blank line or one without a correctness cell. */
  function Answer(c: Columns, line: string): Option<bool> {
    if IsBlank(line) then None else RowCorrect(c, Cells(line))
  }

  /** A line's time: None for a blank line, a missing time cell or a cell that is not a number. */
  function LineTime(c: Columns, line: string): Option<int> {
    if IsBlank(line) then None else RowTime(c, Cells(line))
  }

  /** Number of lines that have a correctness cell. */
  function Answered(c: Columns, lines: seq<string>): nat {
    if lines == [] then 0
    else Answered(c, lines[..|lines| - 1]) + (if Answer(c, lines[|lines| - 1]).Some? then 1 else 0)
  }

  /** Number of lines whose correctness cell reads "true" in any case. */
  function AnsweredCorrectly(c: Columns, lines: seq<string>): nat {
    if lines == [] then 0
    else AnsweredCorrectly(c, lines[..|lines| - 1]) + (if Answer(c, lines[|lines| - 1]) == Some(true) then 1 else 0)
  }

  /** Sum of the times that parse. */
  function TimeSum(c: Columns, lines: seq<string>): int {
    if lines == [] then 0
    else TimeSum(c, lines[..|lines| - 1]) + LineTime(c, lines[|lines| - 1]).GetOr(0)
  }

  lemma StepCounters(c: Columns, t: Tally, line: string)
    ensures var r := Step(c, t, line);
      r.totalCount == t.totalCount + (if Answer(c, line).Some? then 1 else 0) &&
      r.correctCount == t.correctCount + (if Answer(c, line) == Some(true) then 1 else 0) &&
      r.totalTimeSeconds == t.totalTimeSeconds + LineTime(c, line).GetOr(0)
  {
  }

  /**
   * `totalCount` is the number of non-blank lines with a correctness cell,
   * `correctCount` the number of those whose cell is "true" in any case, and
   * `totalTimeSeconds` the sum of the time cells that parse.
   */
  lemma {:induction false} RunCounts(c: Columns, lines: seq<string>)
    ensures Run(c, lines).totalCount == Answered(c, lines)
    ensures Run(c, lines).correctCount == AnsweredCorrectly(c, lines)
    ensures Run(c, lines).totalTimeSeconds == TimeSum(c, lines)
  {
    if lines != [] {
      RunCounts(c, lines[..|lines| - 1]);
      StepCounters(c, Run(c, lines[..|lines| - 1]), lines[|lines| - 1]);
    }
  }

  /** A time cell that does not parse leaves the running time and every topic's time as they were. */
  lemma UnparsedTimeAddsNothing(c: Columns, t: Tally, line: string)
    requires LineTime(c, line).None?
    ensures Step(c, t, line).totalTimeSeconds == t.totalTimeSeconds
    ensures forall n :: n in t.stats ==> Step(c, t, line).stats[n].totalTime == t.stats[n].totalTime
  {
  }

  /**
   * A non-blank line always has a topic record afterwards, even when it adds neither an
   * answer nor a time.
   */
  lemma RowAlwaysHasBucket(c: Columns, t: Tally, line: string)
    requires !IsBlank(line)
    ensures RowTopic(c, Cells(line)) in Step(c, t, line).stats
  {
  }

  // ---- Each topic's record as counts over its own lines ----

  /** A topic's record, read as zero when the topic has none. */
  function Bucket(t: Tally, n: string): Counts {
    if n in t.stats then t.stats[n] else Zero
  }

  /** Whether a line is a non-blank row filed under topic `n`. */
  predicate Names(c: Columns, line: string, n: string) {
    !IsBlank(line) && RowTopic(c, Cells(line)) == n
  }

  /** What a line adds to its topic's record: its answer, its correct answer, its time. */
  function LineCounts(c: Columns, line: string): Counts {
    RowCounts(Answer(c, line), LineTime(c, line))
  }

  /** The additions of the lines filed under topic `n`, in line order. */
  function TopicCounts(c: Columns, lines: seq<string>, n: string): Counts {
    if lines == [] then Zero
    else
      var last := lines[|lines| - 1];
      Add(TopicCounts(c, lines[..|lines| - 1], n), if Names(c, last, n) then LineCounts(c, last) else Zero)
  }

  /** Opening a topic changes no record, read with zero for a missing one. */
  lemma OpenBucket(t: Tally, topic: string, n: string)
    ensures Bucket(Open(t, topic), n) == Bucket(t, n)
  {
    OpenEffect(t, topic);
  }

  /** Counting an answer adds to the record of its topic only. */
  lemma MarkBucket(t: Tally, topic: string, correct: Option<bool>, n: string)
    requires topic in t.stats
    ensures Bucket(Mark(t, topic, correct), n) ==
      Add(Bucket(t, n), if topic == n then RowCounts(correct, None) else Zero)
  {
    MarkEffect(t, topic, correct);
    if topic != n {
      AddZero(Bucket(t, n));
    }
  }

  /** Adding a time adds to the record of its topic only. */
  lemma ClockBucket(t: Tally, topic: string, time: Option<int>, n: string)
    requires topic in t.stats
    ensures Bucket(Clock(t, topic, time), n) ==
      Add(Bucket(t, n), if topic == n then Counts(0, 0, time.GetOr(0)) else Zero)
  {
    ClockEffect(t, topic, time);
    if topic != n {
      AddZero(Bucket(t, n));
    }
  }

  /** One row's updates add its counts to the record of its topic and to no other. */
  lemma RowBucket(t: Tally, topic: string, correct: Option<bool>, time: Option<int>, n: string)
    ensures var r := Clock(Mark(Open(t, topic), topic, correct), topic, time);
      Bucket(r, n) == Add(Bucket(t, n), if topic == n then RowCounts(correct, time) else Zero)
  {
    var t1 := Open(t, topic);
    var t2 := Mark(t1, topic, correct);
    OpenBucket(t, topic, n);
    MarkBucket(t1, topic, correct, n);
    ClockBucket(t2, topic, time, n);
  }

  /** What a row adds to its topic's record, given its answer and its time. */
  function RowCounts(correct: Option<bool>, time: Option<int>): Counts {
    Counts(if correct == Some(true) then 1 else 0, if correct.Some? then 1 else 0, time.GetOr(0))
  }

  /** One line adds to the record of its own topic and leaves every other record alone. */
  lemma StepBucket(c: Columns, t: Tally, line: string, n: string)
    ensures Bucket(Step(c, t, line), n) == Add(Bucket(t, n), if Names(c, line, n) then LineCounts(c, line) else Zero)
  {
    if IsBlank(line) {
      AddZero(Bucket(t, n));
    } else {
      var values := Cells(line);
      var topic := RowTopic(c, values);
      StepOfRow(c, t, line);
      RowBucket(t, topic, RowCorrect(c, values), RowTime(c, values), n);
      assert LineCounts(c, line) == RowCounts(RowCorrect(c, values), RowTime(c, values));
      assert Names(c, line, n) <==> topic == n;
    }
  }

  /**
   * A topic's record holds the number of its lines with a correctness cell, the number
   * of those that read "true", and the sum of its times that parse; a topic without a
   * record has no such line to count.
   */
  lemma {:induction false} RunTopicCounts(c: Columns, lines: seq<string>, n: string)
    ensures Bucket(Run(c, lines), n) == TopicCounts(c, lines, n)
    ensures n in Run(c, lines).stats ==> Run(c, lines).stats[n] == TopicCounts(c, lines, n)
  {
    if lines != [] {
      var init, last := lines[..|lines| - 1], lines[|lines| - 1];
      RunTopicCounts(c, init, n);
      StepBucket(c, Run(c, init), last, n);
    }
  }

  // ---- Blank lines ----

  /** A blank line anywhere in the body changes nothing. */
  lemma {:induction false} BlankLineIgnored(c: Columns, a: seq<string>, b: string, z: seq<string>)
    requires IsBlank(b)
    ensures Run(c, a + [b] + z) == Run(c, a + z)
  {
    if z == [] {
      SnocShape(a, b, z, [], "");
      RunLast(c, a + [b], a, b);
    } else {
      var z', x := z[..|z| - 1], z[|z| - 1];
      SnocShape(a, b, z, z', x);
      BlankLineIgnored(c, a, b, z');
      RunLast(c, a + [b] + z, a + [b] + z', x);
      RunLast(c, a + z, a + z', x);
    }
  }

  /** How the two line lists of `BlankLineIgnored` end. */
  lemma SnocShape(a: seq<string>, b: string, z: seq<string>, z': seq<string>, x: string)
    ensures z == [] ==> a + [b] + z == a + [b] && a + z == a
    ensures z != [] && z' == z[..|z| - 1] && x == z[|z| - 1] ==>
      a + [b] + z == (a + [b] + z') + [x] && a + z == (a + z') + [x]
  {
    if z != [] && z' == z[..|z| - 1] && x == z[|z| - 1] {
      assert z == z' + [x];
    }
  }

  // ---- Topic order ----

  /** The topic of each non-blank line, in line order. */
  function Topics(c: Columns, lines: seq<string>): seq<string> {
    if lines == [] then []
    else
      var last := lines[|lines| - 1];
      Topics(c, lines[..|lines| - 1]) + (if IsBlank(last) then [] else [RowTopic(c, Cells(last))])
  }

  /** The distinct elements of `s`, each at the place it first occurs. */
  function FirstSeen(s: seq<string>): (r: seq<string>)
    ensures forall x :: x in r <==> x in s
    ensures Distinct(r)
  {
    if s == [] then []
    else
      var d := FirstSeen(s[..|s| - 1]);
      var x := s[|s| - 1];
      assert forall y :: y in s <==> y in s[..|s| - 1] || y == x;
      if x in d then d else d + [x]
  }

  /**
   * The dictionary's keys, in `Object.entries` order, are the topics of the non-blank
   * lines, each once, in the order in which they first appear.
   */
  lemma {:induction false} RunOrder(c: Columns, lines: seq<string>)
    ensures Run(c, lines).order == FirstSeen(Topics(c, lines))
  {
    if lines != [] {
      var init, last := lines[..|lines| - 1], lines[|lines| - 1];
      RunOrder(c, init);
      RunConsistent(c, init);
      var t := Run(c, init);
      StepOrder(c, t, last);
      if !IsBlank(last) {
        var topic := RowTopic(c, Cells(last));
        var ts := Topics(c, lines);
        assert ts == Topics(c, init) + [topic];
        assert ts[..|ts| - 1] == Topics(c, init);
        assert topic in t.stats <==> topic in t.order;
      } else {
        assert Topics(c, lines) == Topics(c, init);
      }
    }
  }

  /** A topic has a record exactly when some non-blank line carries it. */
  lemma TopicKeys(c: Columns, lines: seq<string>, n: string)
    ensures n in Run(c, lines).stats <==> n in Topics(c, lines)
  {
    RunOrder(c, lines);
    RunConsistent(c, lines);
  }
}
