/**
 * What the parser derives from the fold: the rounded overall percentage, and per
 * topic the rounded accuracy and average time, with the ranking loop that picks the
 * strongest, the weakest and the most time-consuming topic.
 */
module Metrics {
  import opened Wrappers
  import opened Aggregation

  /**
   * `Math.round(p / q)` for a positive divisor: the whole number nearest to p/q, a
   * half rounded up (towards +infinity, also for negative p).
   */
  function RoundDiv(p: int, q: int): (r: int)
    requires q > 0
    ensures 2 * q * r <= 2 * p + q < 2 * q * (r + 1)
  {
    (2 * p + q) / (2 * q)
  }

  lemma MulMono(q: int, a: int, b: int)
    requires q >= 0
    ensures a <= b ==> q * a <= q * b
  {
    assert q * b - q * a == q * (b - a);
  }

  /** Rounding picks a single whole number: any r with the nearest-number bounds is it. */
  lemma RoundDivUnique(p: int, q: int, r: int)
    requires q > 0
    requires 2 * q * r <= 2 * p + q < 2 * q * (r + 1)
    ensures r == RoundDiv(p, q)
  {
    var s := RoundDiv(p, q);
    MulMono(2 * q, r + 1, s);
    MulMono(2 * q, s + 1, r);
  }

  lemma RoundDivAtMost(p: int, q: int, m: int)
    requires q > 0 && p <= m * q
    ensures RoundDiv(p, q) <= m
  {
    var r := RoundDiv(p, q);
    assert 2 * q * (m + 1) == 2 * (m * q) + 2 * q;
    MulMono(2 * q, m + 1, r);
  }

  /** `total > 0 ? Math.round((correct / total) * 100) : 0`. */
  function Percent(correct: nat, total: nat): (r: nat)
    ensures total == 0 ==> r == 0
    ensures total > 0 ==> 2 * total * r <= 200 * correct + total < 2 * total * (r + 1)
    ensures correct <= total ==> r <= 100
    ensures correct == total && total > 0 ==> r == 100
  {
    if total > 0 then
      var r := RoundDiv(100 * correct, total);
      assert correct <= total ==> r <= 100 by {
        if correct <= total {
          RoundDivAtMost(100 * correct, total, 100);
        }
      }
      assert correct == total ==> r == 100 by {
        if correct == total {
          RoundDivUnique(100 * correct, total, 100);
        }
      }
      r
    else 0
  }

  /** `total > 0 ? Math.round(totalTime / total) : 0`. */
  function AverageTime(totalTime: int, total: nat): (r: int)
    ensures total == 0 ==> r == 0
    ensures total > 0 ==> 2 * total * r <= 2 * totalTime + total < 2 * total * (r + 1)
    ensures totalTime >= 0 ==> r >= 0
    ensures totalTime < 0 && total > 0 && 2 * -totalTime > total ==> r < 0
  {
    if total > 0 then
      var r := RoundDiv(totalTime, total);
      assert 2 * total * r <= 2 * totalTime + total;
      r
    else 0
  }

  /** One `[name, stats]` pair of `Object.entries(topicStats)`. */
  datatype TopicEntry = TopicEntry(name: string, stats: Counts)

  /** The entries in key order, the order in which the topics were first inserted. */
  function Entries(order: seq<string>, stats: map<string, Counts>): (r: seq<TopicEntry>)
    requires forall n :: n in order ==> n in stats
    ensures |r| == |order|
    ensures forall i :: 0 <= i < |r| ==> r[i] == TopicEntry(order[i], stats[order[i]])
  {
    seq(|order|, i requires 0 <= i < |order| => TopicEntry(order[i], stats[order[i]]))
  }

  function Accuracy(e: TopicEntry): int {
    Percent(e.stats.correct, e.stats.total)
  }

  function AvgTime(e: TopicEntry): int {
    AverageTime(e.stats.totalTime, e.stats.total)
  }

  function Accuracies(es: seq<TopicEntry>): (r: seq<int>)
    ensures |r| == |es| && forall i :: 0 <= i < |es| ==> r[i] == Accuracy(es[i])
  {
    seq(|es|, i requires 0 <= i < |es| => Accuracy(es[i]))
  }

  function AvgTimes(es: seq<TopicEntry>): (r: seq<int>)
    ensures |r| == |es| && forall i :: 0 <= i < |es| ==> r[i] == AvgTime(es[i])
  {
    seq(|es|, i requires 0 <= i < |es| => AvgTime(es[i]))
  }

  /** Among the first k values, `i` holds the largest, and every earlier value is strictly smaller. */
  ghost predicate FirstMaxBefore(xs: seq<int>, k: int, i: int) {
    0 <= i < k <= |xs| && (forall j :: 0 <= j < k ==> xs[j] <= xs[i]) && (forall j :: 0 <= j < i ==> xs[j] < xs[i])
  }

  /** Among the first k values, `i` holds the smallest, and every earlier value is strictly larger. */
  ghost predicate FirstMinBefore(xs: seq<int>, k: int, i: int) {
    0 <= i < k <= |xs| && (forall j :: 0 <= j < k ==> xs[i] <= xs[j]) && (forall j :: 0 <= j < i ==> xs[i] < xs[j])
  }

  ghost predicate IsFirstMax(xs: seq<int>, i: int) {
    FirstMaxBefore(xs, |xs|, i)
  }

  ghost predicate IsFirstMin(xs: seq<int>, i: int) {
    FirstMinBefore(xs, |xs|, i)
  }

  /** There is only one first maximum, so a pick stated with it is determined. */
  lemma FirstMaxUnique(xs: seq<int>, i: int, k: int)
    requires IsFirstMax(xs, i) && IsFirstMax(xs, k)
    ensures i == k
  {
    assert xs[i] <= xs[k] && xs[k] <= xs[i];
  }

  lemma FirstMinUnique(xs: seq<int>, i: int, k: int)
    requires IsFirstMin(xs, i) && IsFirstMin(xs, k)
    ensures i == k
  {
    assert xs[i] <= xs[k] && xs[k] <= xs[i];
  }

  /** A picked topic: its name and its accuracy, or its average time. */
  datatype Pick = Pick(name: string, value: int)

  /**
   * What "keep the strictly largest value above `bound`" has produced after the first k
   * values: nothing while no value passed the bound, else the first largest, `i`.
   */
  ghost predicate MaxSoFar(pick: Option<Pick>, best: int, bound: int, es: seq<TopicEntry>, xs: seq<int>, k: int, i: int)
    requires |es| == |xs|
  {
    match pick
    case None => best == bound && k <= |xs| && forall j :: 0 <= j < k ==> xs[j] <= bound
    case Some(p) => FirstMaxBefore(xs, k, i) && best == xs[i] > bound && p == Pick(es[i].name, xs[i])
  }

  /** The same for "keep the strictly smallest value below `bound`". */
  ghost predicate MinSoFar(pick: Option<Pick>, best: int, bound: int, es: seq<TopicEntry>, xs: seq<int>, k: int, i: int)
    requires |es| == |xs|
  {
    match pick
    case None => best == bound && k <= |xs| && forall j :: 0 <= j < k ==> xs[j] >= bound
    case Some(p) => FirstMinBefore(xs, k, i) && best == xs[i] < bound && p == Pick(es[i].name, xs[i])
  }

  /** One comparison of the loop: `if (value > best) { best = value; pick = { name, value } }`. */
  method RaiseTo(ghost es: seq<TopicEntry>, ghost xs: seq<int>, ghost bound: int, k: int, ghost i: int,
                 pick: Option<Pick>, best: int, name: string, value: int)
    returns (pick': Option<Pick>, best': int, ghost i': int)
    requires |es| == |xs| && 0 <= k < |xs| && name == es[k].name && value == xs[k]
    requires MaxSoFar(pick, best, bound, es, xs, k, i)
    ensures MaxSoFar(pick', best', bound, es, xs, k + 1, i')
  {
    pick', best', i' := pick, best, i;
    if value > best {
      pick', best', i' := Some(Pick(name, value)), value, k;
    }
  }

  /** One comparison of the loop: `if (value < best) { best = value; pick = { name, value } }`. */
  method LowerTo(ghost es: seq<TopicEntry>, ghost xs: seq<int>, ghost bound: int, k: int, ghost i: int,
                 pick: Option<Pick>, best: int, name: string, value: int)
    returns (pick': Option<Pick>, best': int, ghost i': int)
    requires |es| == |xs| && 0 <= k < |xs| && name == es[k].name && value == xs[k]
    requires MinSoFar(pick, best, bound, es, xs, k, i)
    ensures MinSoFar(pick', best', bound, es, xs, k + 1, i')
  {
    pick', best', i' := pick, best, i;
    if value < best {
      pick', best', i' := Some(Pick(name, value)), value, k;
    }
  }

  /** The first topic with the highest accuracy; none only when no accuracy passes -1. */
  ghost predicate StrongestOf(pick: Option<Pick>, es: seq<TopicEntry>) {
    var acc := Accuracies(es);
    (pick.None? <==> forall j :: 0 <= j < |acc| ==> acc[j] <= -1) &&
    (pick.Some? ==> exists i :: IsFirstMax(acc, i) && pick.value == Pick(es[i].name, acc[i]))
  }

  /** The first topic with the lowest accuracy; none only when no accuracy is below 101. */
  ghost predicate WeakestOf(pick: Option<Pick>, es: seq<TopicEntry>) {
    var acc := Accuracies(es);
    (pick.None? <==> forall j :: 0 <= j < |acc| ==> acc[j] >= 101) &&
    (pick.Some? ==> exists i :: IsFirstMin(acc, i) && pick.value == Pick(es[i].name, acc[i]))
  }

  /** The first topic with the longest rounded average time; none when every average is below 0. */
  ghost predicate SlowestOf(pick: Option<Pick>, es: seq<TopicEntry>) {
    var avg := AvgTimes(es);
    (pick.None? <==> forall j :: 0 <= j < |avg| ==> avg[j] <= -1) &&
    (pick.Some? ==> exists i :: IsFirstMax(avg, i) && pick.value == Pick(es[i].name, avg[i]))
  }

  /**
   * The ranking loop over the entries. A topic replaces the current pick only when it
   * is strictly better, starting from -1 for the best accuracy, 101 for the worst and
   * -1 for the longest average time; so ties go to the earlier topic, and a topic whose
   * value does not pass the starting bound is never picked.
   */
  method RankTopics(entries: seq<TopicEntry>) returns (strongest: Option<Pick>, weakest: Option<Pick>, slowest: Option<Pick>)
    ensures StrongestOf(strongest, entries)
    ensures WeakestOf(weakest, entries)
    ensures SlowestOf(slowest, entries)
  {
    var acc := Accuracies(entries);
    var avg := AvgTimes(entries);
    strongest, weakest, slowest := None, None, None;
    var maxAccuracy, minAccuracy, maxTime := -1, 101, -1;
    ghost var si, wi, ti := 0, 0, 0;
    for k := 0 to |entries|
      invariant MaxSoFar(strongest, maxAccuracy, -1, entries, acc, k, si)
      invariant MinSoFar(weakest, minAccuracy, 101, entries, acc, k, wi)
      invariant MaxSoFar(slowest, maxTime, -1, entries, avg, k, ti)
    {
      var name := entries[k].name;
      var accuracy := acc[k];
      var avgTime := avg[k];
      strongest, maxAccuracy, si := RaiseTo(entries, acc, -1, k, si, strongest, maxAccuracy, name, accuracy);
      weakest, minAccuracy, wi := LowerTo(entries, acc, 101, k, wi, weakest, minAccuracy, name, accuracy);
      slowest, maxTime, ti := RaiseTo(entries, avg, -1, k, ti, slowest, maxTime, name, avgTime);
    }
  }

  /**
   * For topic records with no more correct answers than answers, every accuracy lies in
   * 0..100; so the strongest and the weakest topic exist exactly when there is a topic,
   * and their accuracies lie in 0..100.
   */
  lemma PicksExist(order: seq<string>, stats: map<string, Counts>, strongest: Option<Pick>, weakest: Option<Pick>)
    requires forall n :: n in order ==> n in stats
    requires forall n :: n in stats ==> stats[n].correct <= stats[n].total
    requires StrongestOf(strongest, Entries(order, stats)) && WeakestOf(weakest, Entries(order, stats))
    ensures strongest.Some? <==> order != []
    ensures weakest.Some? <==> order != []
    ensures strongest.Some? ==> 0 <= strongest.value.value <= 100
    ensures weakest.Some? ==> 0 <= weakest.value.value <= strongest.value.value
  {
    var es := Entries(order, stats);
    var acc := Accuracies(es);
    assert forall j :: 0 <= j < |acc| ==> 0 <= acc[j] <= 100 by {
      forall j | 0 <= j < |acc| ensures 0 <= acc[j] <= 100 {
        assert es[j].stats == stats[order[j]];
      }
    }
    if order != [] {
      assert acc[0] >= 0 && acc[0] <= 100;
      var i :| IsFirstMax(acc, i) && strongest.value == Pick(es[i].name, acc[i]);
      var k :| IsFirstMin(acc, k) && weakest.value == Pick(es[k].name, acc[k]);
      assert acc[k] <= acc[i];
    }
  }

  /**
   * For topic records whose times are not negative, every average time is at least 0,
   * so the most time-consuming topic exists exactly when there is a topic.
   */
  lemma SlowestExists(order: seq<string>, stats: map<string, Counts>, slowest: Option<Pick>)
    requires forall n :: n in order ==> n in stats
    requires forall n :: n in stats ==> stats[n].totalTime >= 0
    requires SlowestOf(slowest, Entries(order, stats))
    ensures slowest.Some? <==> order != []
    ensures slowest.Some? ==> slowest.value.value >= 0
  {
    var es := Entries(order, stats);
    var avg := AvgTimes(es);
    if order != [] {
      assert es[0].stats == stats[order[0]];
      assert avg[0] >= 0;
      var i :| IsFirstMax(avg, i) && slowest.value == Pick(es[i].name, avg[i]);
      assert avg[0] <= avg[i];
    }
  }

  /** One correct answer in three reads 33, two in three 67. */
  lemma ThirdsRound()
    ensures Percent(1, 3) == 33 && Percent(2, 3) == 67
  {
  }

  /** Half points round up, also for negative averages: 2.5 is 3, -2.5 is -2. */
  lemma HalvesRoundUp()
    ensures AverageTime(5, 2) == 3 && AverageTime(-5, 2) == -2
  {
  }
}
