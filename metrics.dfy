/**
 * FitnessMetricsCalculator: four scans over the loaded workout records. Each
 * method runs the Java loop and is proved equal to a recursive definition over
 * the records; the properties of the metrics are lemmas about those definitions.
 */
module Metrics {
  import opened JavaText
  import opened Workouts

  /** The number of workouts in the programme, TOTAL_PLANNED_WORKOUTS. */
  const TotalPlannedWorkouts: int := 30

  /** The minutes a record holds, when its time text is a Java int. */
  function TimeOf(w: WorkoutRecord): Option<int> {
    ParseInt(w.timeTaken)
  }

  /** What a record adds to a sum of times: its minutes, or nothing when they do not parse. */
  function Contribution(w: WorkoutRecord): int {
    if TimeOf(w).Some? then TimeOf(w).value else 0
  }

  /** The exact sum of the parseable times, whatever the completed flags say. */
  function ParsedSum(ws: seq<WorkoutRecord>): int {
    if ws == [] then 0 else ParsedSum(ws[..|ws| - 1]) + Contribution(ws[|ws| - 1])
  }

  /** How many records have a parseable time. */
  function ParsedCount(ws: seq<WorkoutRecord>): (n: nat)
    ensures n <= |ws|
  {
    if ws == [] then 0
    else ParsedCount(ws[..|ws| - 1]) + (if TimeOf(ws[|ws| - 1]).Some? then 1 else 0)
  }

  /** The completed records, in their order. */
  function CompletedOnly(ws: seq<WorkoutRecord>): (cs: seq<WorkoutRecord>)
    ensures |cs| <= |ws|
  {
    if ws == [] then []
    else
      var front := CompletedOnly(ws[..|ws| - 1]);
      if ws[|ws| - 1].completed then front + [ws[|ws| - 1]] else front
  }

  /** calculateTotalTime: the int sum of every parseable time; others are skipped. */
  method CalculateTotalTime(ws: seq<WorkoutRecord>) returns (total: int)
    ensures total == Wrap32(ParsedSum(ws))
    ensures ws == [] ==> total == 0
  {
    if ws == [] {
      return 0;
    }
    total := 0;
    for i := 0 to |ws|
      invariant total == Wrap32(ParsedSum(ws[..i]))
    {
      TotalStep(ws, i, total);
      var t := TimeOf(ws[i]);
      if t.Some? {
        total := Wrap32(total + t.value);
      }
    }
    assert ws[..|ws|] == ws;
  }

  /** What one step of the total loop does to the wrapped sum. */
  lemma TotalStep(ws: seq<WorkoutRecord>, i: int, total: int)
    requires 0 <= i < |ws| && total == Wrap32(ParsedSum(ws[..i]))
    ensures Wrap32(ParsedSum(ws[..i + 1])) ==
              if TimeOf(ws[i]).Some? then Wrap32(total + TimeOf(ws[i]).value) else total
  {
    assert ws[..i + 1][..i] == ws[..i];
    if TimeOf(ws[i]).Some? {
      WrapAdd(ParsedSum(ws[..i]), TimeOf(ws[i]).value);
    }
  }

  /**
   * calculateAverageTime: the int sum of the parseable times of the completed
   * records, over how many of them there are; 0 when there is none.
   */
  method CalculateAverageTime(ws: seq<WorkoutRecord>) returns (avg: real)
    ensures var done := CompletedOnly(ws);
            avg == if ParsedCount(done) == 0 then 0.0
                   else Ratio(Wrap32(ParsedSum(done)), ParsedCount(done))
    ensures ws == [] ==> avg == 0.0
  {
    if ws == [] {
      return 0.0;
    }
    var totalTime := 0;
    var completedWorkouts := 0;
    for i := 0 to |ws|
      invariant totalTime == Wrap32(ParsedSum(CompletedOnly(ws[..i])))
      invariant completedWorkouts == ParsedCount(CompletedOnly(ws[..i]))
    {
      var workout := ws[i];
      if workout.completed {
        var t := TimeOf(workout);
        AverageStep(ws, i, totalTime, t);
        if t.Some? {
          totalTime := Wrap32(totalTime + t.value);
          completedWorkouts := completedWorkouts + 1;
        }
      } else {
        AverageStep(ws, i, totalTime, None);
      }
    }
    assert ws[..|ws|] == ws;
    if completedWorkouts == 0 {
      return 0.0;
    }
    avg := Ratio(totalTime, completedWorkouts);
  }

  /** One more record read: sum and count of the completed records grow by its contribution when it is completed. */
  lemma CompletedStep(ws: seq<WorkoutRecord>, i: int)
    requires 0 <= i < |ws|
    ensures ParsedSum(CompletedOnly(ws[..i + 1])) ==
              ParsedSum(CompletedOnly(ws[..i])) + if ws[i].completed then Contribution(ws[i]) else 0
    ensures ParsedCount(CompletedOnly(ws[..i + 1])) ==
              ParsedCount(CompletedOnly(ws[..i])) + if ws[i].completed && TimeOf(ws[i]).Some? then 1 else 0
  {
    assert ws[..i + 1][..i] == ws[..i];
    var cs := CompletedOnly(ws[..i]);
    if ws[i].completed {
      assert (cs + [ws[i]])[..|cs|] == cs;
    }
  }

  /** What one step of the average loop does to the wrapped sum. */
  lemma AverageStep(ws: seq<WorkoutRecord>, i: int, total: int, t: Option<int>)
    requires 0 <= i < |ws| && total == Wrap32(ParsedSum(CompletedOnly(ws[..i])))
    requires t == if ws[i].completed then TimeOf(ws[i]) else None
    ensures Wrap32(ParsedSum(CompletedOnly(ws[..i + 1]))) == if t.Some? then Wrap32(total + t.value) else total
    ensures ParsedCount(CompletedOnly(ws[..i + 1])) == ParsedCount(CompletedOnly(ws[..i])) + if t.Some? then 1 else 0
  {
    CompletedStep(ws, i);
    var before := ParsedSum(CompletedOnly(ws[..i]));
    if t.Some? {
      assert ParsedSum(CompletedOnly(ws[..i + 1])) == before + t.value;
      WrapAdd(before, t.value);
    }
  }

  function Ratio(a: int, b: int): real
    requires b != 0
  {
    a as real / b as real
  }

  /** The result of calculateConsistencyScore: a percentage, or IllegalArgumentException. */
  datatype ScoreOutcome = Score(percent: real) | InvalidArgument

  /**
   * calculateConsistencyScore: completed records per planned workout, as a
   * percentage. The empty list is answered before the planned count is checked.
   */
  method CalculateConsistencyScore(ws: seq<WorkoutRecord>, totalPlannedWorkouts: int) returns (r: ScoreOutcome)
    ensures ws == [] ==> r == Score(0.0)
    ensures ws != [] && totalPlannedWorkouts == 0 ==> r == InvalidArgument
    ensures ws != [] && totalPlannedWorkouts != 0 ==>
              r == Score(Ratio(|CompletedOnly(ws)|, totalPlannedWorkouts) * 100.0)
  {
    if ws == [] {
      return Score(0.0);
    }
    if totalPlannedWorkouts == 0 {
      return InvalidArgument;
    }
    var completedWorkouts := 0;
    for i := 0 to |ws|
      invariant completedWorkouts == |CompletedOnly(ws[..i])|
    {
      assert ws[..i + 1][..i] == ws[..i];
      if ws[i].completed {
        completedWorkouts := completedWorkouts + 1;
      }
    }
    assert ws[..|ws|] == ws;
    r := Score(Ratio(completedWorkouts, totalPlannedWorkouts) * 100.0);
  }

  /** The parsed time of every record, in order. */
  function Times(ws: seq<WorkoutRecord>): (ts: seq<Option<int>>)
    ensures |ts| == |ws|
    ensures forall i :: 0 <= i < |ws| ==> ts[i] == TimeOf(ws[i])
  {
    if ws == [] then [] else [TimeOf(ws[0])] + Times(ws[1..])
  }

  /** The candidate takes the lead only when both times parse and its own is strictly longer. */
  predicate Beats(candidate: Option<int>, best: Option<int>) {
    candidate.Some? && best.Some? && candidate.value > best.value
  }

  /** The index of the personal best among the first n times, starting from time 0. */
  function BestAmong(ts: seq<Option<int>>, n: nat): (b: nat)
    requires 0 < n <= |ts|
    ensures b < n
  {
    if n == 1 then 0
    else
      var b := BestAmong(ts, n - 1);
      if Beats(ts[n - 1], ts[b]) then n - 1 else b
  }

  function BestIndex(ws: seq<WorkoutRecord>): (b: nat)
    requires ws != []
    ensures b < |ws|
  {
    BestAmong(Times(ws), |ws|)
  }

  /** The personal-best line, "%s minutes on %s" filled with the time and the day. */
  function BestText(w: WorkoutRecord): string {
    w.timeTaken + " minutes on " + w.day
  }

  /** calculatePersonalBests: the longest parseable workout, the first one on ties. */
  method CalculatePersonalBests(ws: seq<WorkoutRecord>) returns (s: string)
    ensures ws == [] ==> s == "No data available"
    ensures ws != [] ==> s == BestText(ws[BestIndex(ws)])
  {
    if ws == [] {
      return "No data available";
    }
    var personalBest := ws[0];
    ghost var ts := Times(ws);
    ghost var b: nat := 0;
    for i := 0 to |ws|
      invariant b < |ws| && personalBest == ws[b]
      invariant b == if i == 0 then 0 else BestAmong(ts, i)
    {
      var t := TimeOf(ws[i]);
      var bt := TimeOf(personalBest);
      if Beats(t, bt) {
        personalBest := ws[i];
        b := i;
      }
    }
    s := personalBest.timeTaken + " minutes on " + personalBest.day;
  }

  // ---------------------------------------------------------------------------
  // Properties of the metrics
  // ---------------------------------------------------------------------------

  /** Sums split at any point. */
  lemma {:induction false} ParsedSumAppend(a: seq<WorkoutRecord>, b: seq<WorkoutRecord>)
    ensures ParsedSum(a + b) == ParsedSum(a) + ParsedSum(b)
    decreases |b|
  {
    if b == [] {
      assert a + b == a;
    } else {
      var b' := b[..|b| - 1];
      assert (a + b)[..|a + b| - 1] == a + b';
      ParsedSumAppend(a, b');
    }
  }

  /** A record whose time does not parse changes no total, wherever it stands. */
  lemma UnparseableAddsNothing(a: seq<WorkoutRecord>, w: WorkoutRecord, b: seq<WorkoutRecord>)
    requires TimeOf(w).None?
    ensures ParsedSum(a + [w] + b) == ParsedSum(a + b)
  {
    ParsedSumAppend(a + [w], b);
    ParsedSumAppend(a, [w]);
    ParsedSumAppend(a, b);
    assert [w][..0] == [];
  }

  /** The total depends on the times only: setting completed flags differently does not change it. */
  lemma {:induction false} TotalIgnoresCompletion(ws: seq<WorkoutRecord>, vs: seq<WorkoutRecord>)
    requires |ws| == |vs|
    requires forall i :: 0 <= i < |ws| ==> ws[i].timeTaken == vs[i].timeTaken
    ensures ParsedSum(ws) == ParsedSum(vs)
    decreases |ws|
  {
    if ws != [] {
      TotalIgnoresCompletion(ws[..|ws| - 1], vs[..|vs| - 1]);
    }
  }

  /** With times in [0, hi], the exact total is between 0 and |ws| * hi. */
  lemma {:induction false} TotalBounds(ws: seq<WorkoutRecord>, hi: int)
    requires 0 <= hi
    requires forall i :: 0 <= i < |ws| ==> TimeOf(ws[i]).Some? ==> 0 <= TimeOf(ws[i]).value <= hi
    ensures 0 <= ParsedSum(ws) <= |ws| * hi
    decreases |ws|
  {
    if ws != [] {
      var front := ws[..|ws| - 1];
      TotalBounds(front, hi);
      assert 0 <= Contribution(ws[|ws| - 1]) <= hi;
      MulSucc(|front|, hi);
    }
  }

  lemma MulSucc(n: int, x: int)
    ensures (n + 1) * x == n * x + x
  {
  }

  /** The bounds carry over to calculateTotalTime when |ws| * hi fits in an int. */
  lemma TotalTimeWithoutWrap(ws: seq<WorkoutRecord>, hi: int)
    requires 0 <= hi && |ws| * hi <= MaxInt
    requires forall i :: 0 <= i < |ws| ==> TimeOf(ws[i]).Some? ==> 0 <= TimeOf(ws[i]).value <= hi
    ensures Wrap32(ParsedSum(ws)) == ParsedSum(ws)
    ensures 0 <= Wrap32(ParsedSum(ws)) <= |ws| * hi
  {
    TotalBounds(ws, hi);
  }

  /** The sum of the parseable times lies between count * lo and count * hi. */
  lemma {:induction false} SumBetween(ws: seq<WorkoutRecord>, lo: int, hi: int)
    requires forall i :: 0 <= i < |ws| ==> TimeOf(ws[i]).Some? ==> lo <= TimeOf(ws[i]).value <= hi
    ensures ParsedCount(ws) * lo <= ParsedSum(ws) <= ParsedCount(ws) * hi
    decreases |ws|
  {
    if ws != [] {
      var front := ws[..|ws| - 1];
      var c := ParsedCount(front);
      SumBetween(front, lo, hi);
      if TimeOf(ws[|ws| - 1]).Some? {
        MulSucc(c, lo);
        MulSucc(c, hi);
      }
    }
  }

  /** The completed records are records of the list, each one completed. */
  lemma {:induction false} CompletedOnlyMembers(ws: seq<WorkoutRecord>)
    ensures forall i :: 0 <= i < |CompletedOnly(ws)| ==>
              CompletedOnly(ws)[i].completed && CompletedOnly(ws)[i] in ws
  {
    if ws != [] {
      var front := ws[..|ws| - 1];
      CompletedOnlyMembers(front);
      assert forall w :: w in front ==> w in ws;
    }
  }

  /** An exact quotient of a sum lying between n * lo and n * hi lies between lo and hi. */
  lemma RatioBetween(s: int, n: int, lo: int, hi: int)
    requires n > 0 && n * lo <= s <= n * hi
    ensures lo as real <= Ratio(s, n) <= hi as real
  {
    var q := Ratio(s, n);
    var nr := n as real;
    assert q * nr == s as real;
    assert (q - lo as real) * nr == s as real - (n * lo) as real;
    assert (hi as real - q) * nr == (n * hi) as real - s as real;
    NonNegativeFactor(q - lo as real, nr);
    NonNegativeFactor(hi as real - q, nr);
  }

  lemma NonNegativeFactor(x: real, y: real)
    requires y > 0.0 && x * y >= 0.0
    ensures x >= 0.0
  {
  }

  /**
   * When every completed record's time lies in [lo, hi] and the sum cannot wrap,
   * the average lies in [lo, hi] too, whenever some time was counted.
   */
  lemma AverageBetween(ws: seq<WorkoutRecord>, lo: int, hi: int)
    requires 0 <= lo <= hi && |ws| * hi <= MaxInt
    requires forall i :: 0 <= i < |ws| ==> ws[i].completed && TimeOf(ws[i]).Some? ==>
               lo <= TimeOf(ws[i]).value <= hi
    ensures var done := CompletedOnly(ws);
            var n := ParsedCount(done);
            n > 0 ==> lo as real <= Ratio(Wrap32(ParsedSum(done)), n) <= hi as real
  {
    var done := CompletedOnly(ws);
    var n := ParsedCount(done);
    CompletedOnlyMembers(ws);
    forall i | 0 <= i < |done| && TimeOf(done[i]).Some?
      ensures lo <= TimeOf(done[i]).value <= hi
    {
      var k :| 0 <= k < |ws| && ws[k] == done[i];
    }
    SumBetween(done, lo, hi);
    TotalBounds(done, hi);
    MulMono(|done|, |ws|, hi);
    if n > 0 {
      RatioBetween(ParsedSum(done), n, lo, hi);
    }
  }

  lemma MulMono(a: int, b: int, x: int)
    requires 0 <= a <= b && 0 <= x
    ensures a * x <= b * x
  {
  }

  /** The score of a non-empty list against at least as many planned workouts is a percentage. */
  lemma ConsistencyIsPercentage(ws: seq<WorkoutRecord>, totalPlannedWorkouts: int)
    requires 0 < |ws| <= totalPlannedWorkouts
    ensures 0.0 <= Ratio(|CompletedOnly(ws)|, totalPlannedWorkouts) * 100.0 <= 100.0
  {
    RatioBetween(|CompletedOnly(ws)|, totalPlannedWorkouts, 0, 1);
  }

  /** Every completed record counts once: the count grows by one per completed record appended. */
  lemma {:induction false} CompletedOnlyAppend(a: seq<WorkoutRecord>, b: seq<WorkoutRecord>)
    ensures CompletedOnly(a + b) == CompletedOnly(a) + CompletedOnly(b)
    decreases |b|
  {
    if b == [] {
      assert a + b == a;
    } else {
      var b' := b[..|b| - 1];
      assert (a + b)[..|a + b| - 1] == a + b';
      CompletedOnlyAppend(a, b');
    }
  }

  /** Among the first n times, b is the first one that parses and that none exceeds. */
  predicate IsFirstLongest(ts: seq<Option<int>>, n: int, b: int) {
    && 0 <= b < n <= |ts|
    && ts[b].Some?
    && (forall j :: 0 <= j < n && ts[j].Some? ==> ts[j].value <= ts[b].value)
    && (forall j :: 0 <= j < b && ts[j].Some? ==> ts[j].value < ts[b].value)
  }

  /** When the first time parses, the personal best is the first time of greatest value. */
  lemma {:induction false} BestAmongIsFirstLongest(ts: seq<Option<int>>, n: nat)
    requires 0 < n <= |ts| && ts[0].Some?
    ensures IsFirstLongest(ts, n, BestAmong(ts, n))
  {
    if n > 1 {
      BestAmongIsFirstLongest(ts, n - 1);
    }
  }

  /** An unparseable first time is never replaced: the personal best stays record 0. */
  lemma {:induction false} BestStaysAtUnparseableFirst(ts: seq<Option<int>>, n: nat)
    requires 0 < n <= |ts| && ts[0].None?
    ensures BestAmong(ts, n) == 0
  {
    if n > 1 {
      BestStaysAtUnparseableFirst(ts, n - 1);
    }
  }

  /** There is at most one first time of greatest value. */
  lemma FirstLongestUnique(ts: seq<Option<int>>, n: int, b: int, c: int)
    requires IsFirstLongest(ts, n, b) && IsFirstLongest(ts, n, c)
    ensures b == c
  {
  }

  /**
   * calculatePersonalBests reports record b exactly when b is the first record
   * of longest parseable time, provided record 0's time parses; otherwise it
   * reports record 0.
   */
  lemma PersonalBestCharacterised(ws: seq<WorkoutRecord>, b: int)
    requires ws != []
    ensures TimeOf(ws[0]).Some? ==> (BestIndex(ws) == b <==> IsFirstLongest(Times(ws), |ws|, b))
    ensures TimeOf(ws[0]).None? ==> BestIndex(ws) == 0
  {
    var ts := Times(ws);
    if TimeOf(ws[0]).Some? {
      BestAmongIsFirstLongest(ts, |ws|);
      if IsFirstLongest(ts, |ws|, b) {
        FirstLongestUnique(ts, |ws|, b, BestIndex(ws));
      }
    } else {
      BestStaysAtUnparseableFirst(ts, |ws|);
    }
  }
}
