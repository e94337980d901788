/**
 * The whole of the CSV parser for an uploaded attempt: the file text is split into
 * lines, the first line names the columns, the fold counts the rest, and the result
 * carries the counts, the rounded percentage, the time label and the topic analysis.
 */
module Pipeline {
  import opened Wrappers
  import opened Text
  import opened Aggregation
  import TallyFacts
  import Duration
  import opened Metrics

  datatype TopicAnalysis = TopicAnalysis(strongestTopic: Option<Pick>, weakestTopic: Option<Pick>,
                                         mostTimeConsumingTopic: Option<Pick>)

  /** The score data the parser resolves with. */
  datatype Summary = Summary(correct: nat, total: nat, percentage: nat, totalTimeSeconds: int,
                             timeString: string, topicAnalysis: TopicAnalysis)

  /** The fold's result for a file: the columns of its first line, the counts of the others. */
  function Tallied(csv: string): (r: Tally)
    ensures TallyFacts.Consistent(r)
  {
    var lines := Split(csv, '\n');
    TallyFacts.RunConsistent(ResolveColumns(lines[0]), lines[1..]);
    Run(ResolveColumns(lines[0]), lines[1..])
  }

  /**
   * `parseCSVAndCalculateScore` once the file text has been read. The counts are those
   * of the fold over the lines after the first; the percentage is the rounded share of
   * correct answers, at most 100; the label is the formatted total time; the picks are
   * the first best, the first worst and the first slowest topic in key order.
   */
  method ParseCsvAndScore(csv: string) returns (s: Summary)
    ensures var t := Tallied(csv);
      s.correct == t.correctCount && s.total == t.totalCount && s.totalTimeSeconds == t.totalTimeSeconds
    ensures s.percentage == Percent(s.correct, s.total)
    ensures s.correct <= s.total && s.percentage <= 100
    ensures s.timeString == Duration.FormatDuration(s.totalTimeSeconds)
    ensures var t := Tallied(csv);
      (forall n :: n in t.order ==> n in t.stats) &&
      StrongestOf(s.topicAnalysis.strongestTopic, Entries(t.order, t.stats)) &&
      WeakestOf(s.topicAnalysis.weakestTopic, Entries(t.order, t.stats)) &&
      SlowestOf(s.topicAnalysis.mostTimeConsumingTopic, Entries(t.order, t.stats))
    ensures var t := Tallied(csv);
      (s.topicAnalysis.strongestTopic.Some? <==> t.order != []) &&
      (s.topicAnalysis.weakestTopic.Some? <==> t.order != [])
    ensures var t := Tallied(csv);
      (forall n :: n in t.stats ==> t.stats[n].totalTime >= 0) ==>
        (s.topicAnalysis.mostTimeConsumingTopic.Some? <==> t.order != [])
  {
    var lines := Split(csv, '\n');
    var c, t := Aggregate(lines);
    TallyFacts.RunConsistent(c, lines[1..]);
    var percentage := Percent(t.correctCount, t.totalCount);
    var timeString := Duration.FormatDuration(t.totalTimeSeconds);
    var entries := Entries(t.order, t.stats);
    var strongest, weakest, slowest := RankTopics(entries);
    PicksExist(t.order, t.stats, strongest, weakest);
    if forall n :: n in t.stats ==> t.stats[n].totalTime >= 0 {
      SlowestExists(t.order, t.stats, slowest);
    }
    s := Summary(t.correctCount, t.totalCount, percentage, t.totalTimeSeconds, timeString,
                 TopicAnalysis(strongest, weakest, slowest));
  }

  /**
   * The topic analysis reads one entry per topic, in the order in which the topics
   * first occur in the file's rows, and each entry carries the counts of that topic's
   * own rows: the rows with a correctness cell, those reading "true", and their times.
   */
  lemma TopicEntries(csv: string)
    ensures var lines := Split(csv, '\n'); var c := ResolveColumns(lines[0]); var t := Tallied(csv);
      var topics := TallyFacts.FirstSeen(TallyFacts.Topics(c, lines[1..]));
      (forall n :: n in t.order ==> n in t.stats) &&
      |Entries(t.order, t.stats)| == |topics| &&
      forall k :: 0 <= k < |topics| ==>
        Entries(t.order, t.stats)[k] == TopicEntry(topics[k], TallyFacts.TopicCounts(c, lines[1..], topics[k]))
  {
    var lines := Split(csv, '\n');
    var c := ResolveColumns(lines[0]);
    var t := Tallied(csv);
    TallyFacts.RunOrder(c, lines[1..]);
    forall k | 0 <= k < |t.order|
      ensures t.stats[t.order[k]] == TallyFacts.TopicCounts(c, lines[1..], t.order[k])
    {
      TallyFacts.RunTopicCounts(c, lines[1..], t.order[k]);
    }
  }
}
