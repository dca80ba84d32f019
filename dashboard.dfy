/**
 * app/dashboard/DashboardClient.tsx: the figures the dashboard derives from the student's
 * essays (newest first, as the essay endpoint returns them): the recent list, the growth
 * chart, the two average scores, the number of essays of the past week, and the greeting.
 *
 * Scores are the analyser's values in [0, 1], or null when an essay has not been scored;
 * `uploadedAt` is the millisecond timestamp `new Date(uploadedAt)` stands for, and the
 * current time enters as a parameter.
 */
module Dashboard {
  import opened Wrappers
  import opened Text

  datatype Essay = Essay(id: string, title: string, uploadedAt: int,
                         thesisClarity: Option<real>, argumentDepth: Option<real>,
                         structureBalance: Option<real>, evidenceQuality: Option<real>)

  /** The four rubric dimensions the dashboard charts. */
  datatype Dimension = Clarity | Depth | Structure | Evidence

  function Score(e: Essay, d: Dimension): Option<real> {
    match d
    case Clarity => e.thesisClarity
    case Depth => e.argumentDepth
    case Structure => e.structureBalance
    case Evidence => e.evidenceQuality
  }

  /** A score as the analyser produces it: absent, or a value in [0, 1]. */
  predicate InUnitRange(x: Option<real>) {
    x.None? || 0.0 <= x.value <= 1.0
  }

  /** `essays.slice(0, 4)`: the first four essays, or all of them when there are fewer. */
  function RecentEssays(essays: seq<Essay>): (r: seq<Essay>)
    ensures |r| == if |essays| < 4 then |essays| else 4
    ensures r == essays[..|r|]
  {
    if |essays| < 4 then essays else essays[..4]
  }

  /** The "View all" link shows (`essays.length > 4`) exactly when the recent list leaves essays out. */
  lemma ViewAllWhenTruncated(essays: seq<Essay>)
    ensures |essays| > 4 <==> RecentEssays(essays) != essays
  {
  }

  /** `x ? Math.round(x * 100) : 0`: a chart value, 0 for a null or zero score. */
  function Metric(x: Option<real>): (v: int)
    ensures x.None? ==> v == 0
    ensures InUnitRange(x) ==> 0 <= v <= 100
  {
    if x.Some? && x.value != 0.0 then Round(x.value * 100.0) else 0
  }

  /** The falsy test only spares a rounding: the value is the rounded percentage of `x || 0`. */
  lemma MetricOfOrZero(x: Option<real>)
    ensures Metric(x) == Round(OrZero(x) * 100.0)
  {
  }

  /** One point of the growth chart. */
  datatype GrowthPoint = GrowthPoint(name: string, clarity: int, depth: int, structure: int, evidence: int)

  /** `Essay ${index + 1}` */
  function PointName(index: nat): (name: string)
    ensures StartsWith(name, "Essay ") && name[6..] == NatToString(index + 1)
  {
    "Essay " + NatToString(index + 1)
  }

  function PointOf(e: Essay, index: nat): GrowthPoint {
    GrowthPoint(PointName(index), Metric(e.thesisClarity), Metric(e.argumentDepth),
                Metric(e.structureBalance), Metric(e.evidenceQuality))
  }

  /**
   * `essays.slice(-6).map(...)`: one point for each of the last six essays (all of them when
   * there are fewer), in list order, named from "Essay 1" and carrying the four metrics.
   */
  function GrowthData(essays: seq<Essay>): (points: seq<GrowthPoint>)
    ensures |points| == if |essays| < 6 then |essays| else 6
    ensures forall i :: 0 <= i < |points| ==>
      && points[i].name == PointName(i)
      && points[i].clarity == Metric(Score(essays[|essays| - |points| + i], Clarity))
      && points[i].depth == Metric(Score(essays[|essays| - |points| + i], Depth))
      && points[i].structure == Metric(Score(essays[|essays| - |points| + i], Structure))
      && points[i].evidence == Metric(Score(essays[|essays| - |points| + i], Evidence))
  {
    var tail := if |essays| < 6 then essays else essays[|essays| - 6..];
    seq(|tail|, i requires 0 <= i < |tail| => PointOf(tail[i], i))
  }

  /** The chart's points have pairwise different names. */
  lemma GrowthNamesDistinct(essays: seq<Essay>, i: nat, j: nat)
    requires i < j < |GrowthData(essays)|
    ensures GrowthData(essays)[i].name != GrowthData(essays)[j].name
  {
    var points := GrowthData(essays);
    assert points[i].name[6..] == NatToString(i + 1);
    assert points[j].name[6..] == NatToString(j + 1);
    NatToStringInjective(i + 1, j + 1);
  }

  /** `essays.reduce((sum, e) => sum + (score || 0), 0)`, added from the left. */
  function Sum(essays: seq<Essay>, d: Dimension): real
    decreases |essays|
  {
    if essays == [] then 0.0 else Sum(essays[..|essays| - 1], d) + OrZero(Score(essays[|essays| - 1], d))
  }

  /**
   * `avgClarity` and `avgDepth`: 0 without essays, otherwise the mean score (null counting
   * as 0) as a rounded percentage.
   */
  function Average(essays: seq<Essay>, d: Dimension): (v: int)
    ensures essays == [] ==> v == 0
    ensures essays != [] ==> v == Round(Sum(essays, d) / (|essays| as real) * 100.0)
  {
    if |essays| > 0 then Round(Sum(essays, d) / (|essays| as real) * 100.0) else 0
  }

  /** The clarity card: 0 without essays, and a percentage when every clarity score lies in [0, 1]. */
  function AvgClarity(essays: seq<Essay>): (v: int)
    ensures essays == [] ==> v == 0
    ensures (forall i :: 0 <= i < |essays| ==> InUnitRange(Score(essays[i], Clarity))) ==> 0 <= v <= 100
  {
    AverageBounded(essays, Clarity);
    Average(essays, Clarity)
  }

  /** The depth card: 0 without essays, and a percentage when every depth score lies in [0, 1]. */
  function AvgDepth(essays: seq<Essay>): (v: int)
    ensures essays == [] ==> v == 0
    ensures (forall i :: 0 <= i < |essays| ==> InUnitRange(Score(essays[i], Depth))) ==> 0 <= v <= 100
  {
    AverageBounded(essays, Depth);
    Average(essays, Depth)
  }

  lemma AverageBounded(essays: seq<Essay>, d: Dimension)
    ensures (forall i :: 0 <= i < |essays| ==> InUnitRange(Score(essays[i], d))) ==> 0 <= Average(essays, d) <= 100
  {
    if forall i :: 0 <= i < |essays| ==> InUnitRange(Score(essays[i], d)) {
      AverageIsPercentage(essays, d);
    }
  }

  lemma {:induction false} SumBounds(essays: seq<Essay>, d: Dimension)
    requires forall i :: 0 <= i < |essays| ==> InUnitRange(Score(essays[i], d))
    ensures 0.0 <= Sum(essays, d) <= |essays| as real
    decreases |essays|
  {
    if essays != [] {
      var front := essays[..|essays| - 1];
      assert forall i :: 0 <= i < |front| ==> front[i] == essays[i];
      SumBounds(front, d);
      assert InUnitRange(Score(essays[|essays| - 1], d));
    }
  }

  /** With scores in [0, 1] the averages are percentages the progress bars can show. */
  lemma AverageIsPercentage(essays: seq<Essay>, d: Dimension)
    requires forall i :: 0 <= i < |essays| ==> InUnitRange(Score(essays[i], d))
    ensures 0 <= Average(essays, d) <= 100
  {
    if essays != [] {
      SumBounds(essays, d);
      var n := |essays| as real;
      var mean := Sum(essays, d) / n;
      assert mean * n == Sum(essays, d);
      assert 0.0 <= mean <= 1.0;
      RoundMonotonic(0.0, mean * 100.0);
      RoundMonotonic(mean * 100.0, 100.0);
    }
  }

  lemma {:induction false} SumOfEqual(essays: seq<Essay>, d: Dimension, x: real)
    requires forall i :: 0 <= i < |essays| ==> Score(essays[i], d) == Some(x)
    ensures Sum(essays, d) == |essays| as real * x
    decreases |essays|
  {
    if essays != [] {
      var front := essays[..|essays| - 1];
      assert forall i :: 0 <= i < |front| ==> front[i] == essays[i];
      SumOfEqual(front, d, x);
    }
  }

  /** When every essay has the same score, the average is that score's rounded percentage. */
  lemma AverageOfEqual(essays: seq<Essay>, d: Dimension, x: real)
    requires essays != []
    requires forall i :: 0 <= i < |essays| ==> Score(essays[i], d) == Some(x)
    ensures Average(essays, d) == Round(x * 100.0)
  {
    SumOfEqual(essays, d, x);
    var n := |essays| as real;
    assert (n * x) / n == x;
    assert Sum(essays, d) / n == x;
  }

  /** Seven days, in milliseconds. */
  const WeekMs := 7 * 24 * 60 * 60 * 1000

  /** The essay was uploaded strictly after the moment one week before `now`. */
  predicate UploadedThisWeek(e: Essay, now: int) {
    e.uploadedAt > now - WeekMs
  }

  /** `weekEssays`: how many essays were uploaded strictly within the past week. */
  function WeekEssays(essays: seq<Essay>, now: int): (n: nat)
    ensures n <= |essays|
    ensures n == |essays| <==> forall i :: 0 <= i < |essays| ==> UploadedThisWeek(essays[i], now)
    decreases |essays|
  {
    if essays == [] then 0
    else
      WeekEssaysTail(essays, now);
      (if UploadedThisWeek(essays[0], now) then 1 else 0) + WeekEssays(essays[1..], now)
  }

  lemma WeekEssaysTail(essays: seq<Essay>, now: int)
    requires essays != []
    ensures (forall i :: 0 <= i < |essays| ==> UploadedThisWeek(essays[i], now)) <==>
      UploadedThisWeek(essays[0], now) && forall i :: 0 <= i < |essays[1..]| ==> UploadedThisWeek(essays[1..][i], now)
  {
    assert forall i :: 0 <= i < |essays[1..]| ==> essays[1..][i] == essays[i + 1];
    assert forall i :: 1 <= i < |essays| ==> essays[i] == essays[1..][i - 1];
  }

  /** As time passes the weekly count can only fall. */
  lemma {:induction false} WeekEssaysAntitone(essays: seq<Essay>, earlier: int, later: int)
    requires earlier <= later
    ensures WeekEssays(essays, later) <= WeekEssays(essays, earlier)
    decreases |essays|
  {
    if essays != [] {
      WeekEssaysAntitone(essays[1..], earlier, later);
    }
  }

  /**
   * `user.name?.split(' ')[0] || 'Student'`: the name up to its first space, or "Student"
   * when there is no name or that part is empty (an empty name, or one that opens with a
   * space).
   */
  function Greeting(name: Option<string>): (r: string)
    ensures r != []
    ensures name.None? || name.value == [] || name.value[0] == ' ' ==> r == "Student"
    ensures name.Some? && name.value != [] && name.value[0] != ' ' ==>
      && StartsWith(name.value, r) && ' ' !in r
      && (|r| == |name.value| || name.value[|r|] == ' ')
  {
    if name.None? then "Student"
    else
      var first := Split(name.value, ' ')[0];
      FirstPart(name.value);
      if first != [] then first else "Student"
  }

  lemma FirstPart(s: string)
    ensures ' ' !in s ==> Split(s, ' ')[0] == s
    ensures ' ' in s ==> Split(s, ' ')[0] == s[..IndexOf(s, ' ')]
  {
  }

  /** A name is greeted by its first word. */
  lemma GreetingFirstWord(first: string, rest: string)
    requires first != [] && ' ' !in first
    ensures Greeting(Some(first + " " + rest)) == first
    ensures Greeting(Some(first)) == first
  {
    var s := first + " " + rest;
    assert s[..|first|] == first;
    IndexOfAt(s, ' ', |first|);
    FirstPart(s);
    FirstPart(first);
  }

  /** A first name is greeted as itself. */
  lemma GreetingExamples()
    ensures Greeting(Some("Ada Lovelace")) == "Ada"
    ensures Greeting(Some("Ada")) == "Ada"
    ensures Greeting(None) == "Student"
  {
    GreetingFirstWord("Ada", "Lovelace");
    assert "Ada" + " " + "Lovelace" == "Ada Lovelace";
  }
}
