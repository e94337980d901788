/**
 * The duration label of an attempt: total seconds written as "Xh Ym Zs", keeping only
 * the non-zero parts, or the dash "—" when there is no positive time at all.
 */
module Duration {
  import opened Wrappers
  import opened Text
  import opened Numerals

  /** The dash shown in place of a missing value: a time that is not positive, and any empty cell of the attempt table. */
  const NoTime := "—"

  /**
   * Whole hours, whole minutes of the remainder, whole seconds of the remainder. The
   * label is only built for a positive total, where these divisions agree with
   * `Math.floor` and the truncating `%`.
   */
  function Hours(t: int): int { t / 3600 }
  function Minutes(t: int): int { (t % 3600) / 60 }
  function Seconds(t: int): int { t % 60 }

  /** The labelled parts that are non-zero, in hour, minute, second order. */
  function Parts(t: int): seq<string> {
    (if Hours(t) > 0 then [NatToString(Hours(t)) + "h"] else []) +
    (if Minutes(t) > 0 then [NatToString(Minutes(t)) + "m"] else []) +
    (if Seconds(t) > 0 then [NatToString(Seconds(t)) + "s"] else [])
  }

  /** The time string of a summary, computed from its total seconds. */
  function FormatDuration(totalSeconds: int): string {
    if totalSeconds > 0 then
      var parts := Parts(totalSeconds);
      if |parts| > 0 then Join(parts, ' ') else "0s"
    else NoTime
  }

  /** What one unit letter is worth in seconds; 0 for any other character. */
  function UnitWeight(u: char): nat {
    if u == 'h' then 3600 else if u == 'm' then 60 else if u == 's' then 1 else 0
  }

  /** Position of a unit letter in the order hours, minutes, seconds. */
  function UnitRank(u: char): nat {
    if u == 'h' then 0 else if u == 'm' then 1 else 2
  }

  /** The count written in front of a part's unit letter. */
  function PartCount(p: string): Option<nat> {
    if |p| < 2 then None else ParseNat(p[..|p| - 1])
  }

  function PartUnit(p: string): char
    requires |p| >= 1
  {
    p[|p| - 1]
  }

  /** The seconds one part such as "40s" stands for. */
  function PartSeconds(p: string): Option<int> {
    if |p| < 2 || UnitWeight(PartUnit(p)) == 0 then None
    else
      match PartCount(p)
      case None => None
      case Some(n) => Some(n * UnitWeight(PartUnit(p)))
  }

  function SumParts(ps: seq<string>): Option<int> {
    if ps == [] then Some(0)
    else
      var head := PartSeconds(ps[0]);
      var rest := SumParts(ps[1..]);
      if head.Some? && rest.Some? then Some(head.value + rest.value) else None
  }

  /** Reads a time string back into seconds: the parts between single spaces, added up. */
  function ParseDuration(text: string): Option<int> {
    SumParts(Split(text, ' '))
  }

  /**
   * The shape of a label: every part is a count without a leading zero and greater than
   * zero followed by a unit letter, units appear at most once and in h, m, s order, and
   * minutes and seconds stay below 60.
   */
  ghost predicate Canonical(ps: seq<string>) {
    (forall k :: 0 <= k < |ps| ==>
      |ps[k]| >= 2 && UnitWeight(PartUnit(ps[k])) > 0 && ps[k][0] != '0' &&
      PartCount(ps[k]).Some? && PartCount(ps[k]).value > 0 &&
      (PartUnit(ps[k]) != 'h' ==> PartCount(ps[k]).value < 60)) &&
    (forall j, k :: 0 <= j < k < |ps| ==> UnitRank(PartUnit(ps[j])) < UnitRank(PartUnit(ps[k])))
  }

  lemma {:induction false} SumPartsConcat(a: seq<string>, b: seq<string>)
    requires SumParts(a).Some? && SumParts(b).Some?
    ensures SumParts(a + b) == Some(SumParts(a).value + SumParts(b).value)
  {
    if a != [] {
      assert (a + b)[1..] == a[1..] + b;
      SumPartsConcat(a[1..], b);
    } else {
      assert a + b == b;
    }
  }

  /** A part built from a positive count and a unit letter reads back as that count. */
  lemma PartOf(n: nat, u: char)
    requires n > 0 && UnitWeight(u) > 0
    ensures var p := NatToString(n) + [u];
      |p| >= 2 && PartUnit(p) == u && p[0] != '0' && PartCount(p) == Some(n) &&
      PartSeconds(p) == Some(n * UnitWeight(u)) && SumParts([p]) == Some(n * UnitWeight(u)) &&
      ' ' !in p
  {
    var digits := NatToString(n);
    var p := digits + [u];
    assert p[..|p| - 1] == digits;
    assert PartUnit(p) == u;
    ParseNatToString(n);
    assert PartCount(p) == Some(n);
    assert PartSeconds(p) == Some(n * UnitWeight(u));
    assert [p][1..] == [];
    assert SumParts([p]) == Some(n * UnitWeight(u) + 0);
    assert p[0] == digits[0];
    if |digits| == 1 {
      assert digits == [DigitChar(n)];
    }
    forall i | 0 <= i < |p|
      ensures p[i] != ' '
    {
      if i < |digits| {
        assert IsDigit(digits[i]);
      }
    }
  }

  /** A positive whole number of seconds always has a non-zero part. */
  lemma PartsNonEmpty(t: int)
    requires t > 0
    ensures |Parts(t)| > 0
  {
    Decompose(t);
  }

  /** One optional part: empty when the count is zero, else the count and its unit. */
  function Part(n: int, u: char): seq<string> {
    if n > 0 then [NatToString(n) + [u]] else []
  }

  /** What an optional part is worth: its count times the weight of its unit. */
  lemma PartWorth(n: int, u: char, w: int)
    requires n >= 0 && UnitWeight(u) == w > 0
    ensures SumParts(Part(n, u)) == Some(w * n)
  {
    if n > 0 {
      PartOf(n, u);
    }
  }

  lemma {:induction false} PartFacts(n: int, u: char)
    requires UnitWeight(u) > 0
    ensures SumParts(Part(n, u)) == Some(if n > 0 then n * UnitWeight(u) else 0)
    ensures forall k :: 0 <= k < |Part(n, u)| ==>
      var p := Part(n, u)[k];
      |p| >= 2 && PartUnit(p) == u && p[0] != '0' && PartCount(p) == Some(n) && ' ' !in p
  {
    if n > 0 {
      PartOf(n, u);
    }
  }

  /** Hours, minutes and seconds recompose the total. */
  lemma Decompose(t: int)
    requires t >= 0
    ensures t == 3600 * Hours(t) + 60 * Minutes(t) + Seconds(t)
    ensures 0 <= Minutes(t) < 60 && 0 <= Seconds(t) < 60
    ensures Hours(t) >= 0
  {
    var r := t % 3600;
    assert t == 3600 * (t / 3600) + r;
    assert r == 60 * (r / 60) + r % 60;
    assert t == 60 * (60 * (t / 3600) + r / 60) + r % 60;
    assert t % 60 == r % 60;
  }

  /** Three lists of parts read together add up their sums. */
  lemma SumThree(a: seq<string>, b: seq<string>, c: seq<string>, x: int, y: int, z: int)
    requires SumParts(a) == Some(x) && SumParts(b) == Some(y) && SumParts(c) == Some(z)
    ensures SumParts(a + b + c) == Some(x + y + z)
  {
    SumPartsConcat(a, b);
    SumPartsConcat(a + b, c);
  }

  /** The optional hour, minute and second parts add up to what their counts are worth. */
  lemma PartsSum(h: int, m: int, s: int)
    requires h >= 0 && m >= 0 && s >= 0
    ensures SumParts(Part(h, 'h') + Part(m, 'm') + Part(s, 's')) == Some(3600 * h + 60 * m + s)
  {
    PartWorth(h, 'h', 3600);
    PartWorth(m, 'm', 60);
    PartWorth(s, 's', 1);
    SumThree(Part(h, 'h'), Part(m, 'm'), Part(s, 's'), 3600 * h, 60 * m, s);
  }

  /** The parts of a positive time add up to that time. */
  lemma {:induction false} PartsAddUp(t: int)
    requires t > 0
    ensures Parts(t) == Part(Hours(t), 'h') + Part(Minutes(t), 'm') + Part(Seconds(t), 's')
    ensures SumParts(Parts(t)) == Some(t)
  {
    Decompose(t);
    PartsSum(Hours(t), Minutes(t), Seconds(t));
  }

  /** Optional hour, minute and second parts, with minutes and seconds below 60, have the canonical shape. */
  lemma {:induction false} PartsShape(h: int, m: int, s: int)
    requires 0 <= m < 60 && 0 <= s < 60
    ensures Canonical(Part(h, 'h') + Part(m, 'm') + Part(s, 's'))
    ensures forall k :: 0 <= k < |Part(h, 'h') + Part(m, 'm') + Part(s, 's')| ==>
      ' ' !in (Part(h, 'h') + Part(m, 'm') + Part(s, 's'))[k]
  {
    var hp, mp, sp := Part(h, 'h'), Part(m, 'm'), Part(s, 's');
    PartFacts(h, 'h');
    PartFacts(m, 'm');
    PartFacts(s, 's');
    var ps := hp + mp + sp;
    forall k | 0 <= k < |ps|
      ensures |ps[k]| >= 2 && UnitWeight(PartUnit(ps[k])) > 0 && ps[k][0] != '0'
      ensures PartCount(ps[k]).Some? && PartCount(ps[k]).value > 0
      ensures PartUnit(ps[k]) != 'h' ==> PartCount(ps[k]).value < 60
      ensures ' ' !in ps[k]
      ensures UnitRank(PartUnit(ps[k])) == if k < |hp| then 0 else if k < |hp| + |mp| then 1 else 2
    {
      if k < |hp| {
        assert ps[k] == hp[k];
      } else if k < |hp| + |mp| {
        assert ps[k] == mp[k - |hp|];
      } else {
        assert ps[k] == sp[k - |hp| - |mp|];
      }
    }
    assert |hp| <= 1 && |mp| <= 1 && |sp| <= 1;
  }

  /** The parts of a positive time have the canonical shape. */
  lemma PartsCanonical(t: int)
    requires t > 0
    ensures Canonical(Parts(t))
    ensures forall k :: 0 <= k < |Parts(t)| ==> ' ' !in Parts(t)[k]
  {
    Decompose(t);
    PartsShape(Hours(t), Minutes(t), Seconds(t));
    assert Parts(t) == Part(Hours(t), 'h') + Part(Minutes(t), 'm') + Part(Seconds(t), 's');
  }

  /**
   * For a positive number of seconds the label is canonical and reads back as exactly
   * that number; otherwise it is the dash.
   */
  lemma {:induction false} FormatDurationRoundTrip(t: int)
    ensures t <= 0 ==> FormatDuration(t) == NoTime
    ensures t > 0 ==> Canonical(Split(FormatDuration(t), ' ')) && ParseDuration(FormatDuration(t)) == Some(t)
  {
    if t > 0 {
      var ps := Parts(t);
      PartsAddUp(t);
      PartsCanonical(t);
      PartsNonEmpty(t);
      SplitJoin(ps, ' ');
      assert FormatDuration(t) == Join(ps, ' ');
    }
  }

  /** The label is the dash exactly when there is no positive time. */
  lemma NoTimeIffNotPositive(t: int)
    ensures FormatDuration(t) == NoTime <==> t <= 0
  {
    if t > 0 {
      FormatDurationRoundTrip(t);
      assert ParseDuration(NoTime) == None by {
        SplitPrefix(NoTime, "", ' ');
        assert NoTime + "" == NoTime;
        assert Split(NoTime, ' ') == [NoTime];
      }
    }
  }

  /** 100 seconds read "1m 40s". */
  lemma HundredSeconds()
    ensures FormatDuration(100) == "1m 40s"
  {
    assert Hours(100) == 0 && Minutes(100) == 1 && Seconds(100) == 40;
    assert NatToString(1) == "1";
    assert NatToString(40) == NatToString(4) + "0" == "40";
    assert NatToString(1) + "m" == "1m";
    assert NatToString(40) + "s" == "40s";
    assert Parts(100) == [] + ["1m"] + ["40s"];
    assert Parts(100) == ["1m", "40s"];
  }
}
