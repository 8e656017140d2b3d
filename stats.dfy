/** The overview panel's figures over the whole collection. */
module Stats {
  import opened HabitModel
  import opened Rounding

  /** How many habits have today among their dates. */
  function CompletedToday(hs: seq<Habit>, today: Day): (r: nat)
    ensures r <= |hs|
  {
    if hs == [] then 0
    else (if today in hs[0].completedDates then 1 else 0) + CompletedToday(hs[1..], today)
  }

  /** The count reaches the number of habits exactly when every habit has today. */
  lemma {:induction false} CompletedTodayAll(hs: seq<Habit>, today: Day)
    ensures CompletedToday(hs, today) == |hs| <==> forall h :: h in hs ==> today in h.completedDates
  {
    if hs != [] {
      CompletedTodayAll(hs[1..], today);
      assert hs == [hs[0]] + hs[1..];
    }
  }

  /** The count is zero exactly when no habit has today. */
  lemma {:induction false} CompletedTodayNone(hs: seq<Habit>, today: Day)
    ensures CompletedToday(hs, today) == 0 <==> forall h :: h in hs ==> today !in h.completedDates
  {
    if hs != [] {
      CompletedTodayNone(hs[1..], today);
      assert hs == [hs[0]] + hs[1..];
    }
  }

  /** The sum of the habits' current streaks. */
  function StreakSum(hs: seq<Habit>): int
  {
    if hs == [] then 0 else hs[0].currentStreak + StreakSum(hs[1..])
  }

  /** Streaks between 0 and `m` add up to between 0 and `m` times the count. */
  lemma {:induction false} StreakSumBounds(hs: seq<Habit>, m: int)
    requires forall h :: h in hs ==> 0 <= h.currentStreak <= m
    ensures 0 <= StreakSum(hs) <= m * |hs|
  {
    if hs != [] {
      var tail := hs[1..];
      assert hs[0] in hs;
      assert forall h :: h in tail ==> h in hs by {
        assert hs == [hs[0]] + tail;
      }
      StreakSumBounds(tail, m);
      MulStep(m, |tail|);
    }
  }

  /** One more summand of `m`. */
  lemma MulStep(m: int, n: int)
    ensures m * n + m == m * (n + 1)
  {
  }

  /** `averageStreak`: 0 for no habits, otherwise the rounded mean current streak. */
  function AverageStreak(hs: seq<Habit>): (r: int)
    ensures hs == [] ==> r == 0
    ensures hs != [] ==> |hs| * (2 * r - 1) <= 2 * StreakSum(hs) < |hs| * (2 * r + 1)
  {
    if |hs| > 0 then RoundDiv(StreakSum(hs), |hs|) else 0
  }

  /** When every current streak lies in 0..m, so does the average. */
  lemma AverageStreakBounds(hs: seq<Habit>, m: int)
    requires forall h :: h in hs ==> 0 <= h.currentStreak <= m
    requires hs != []
    ensures 0 <= AverageStreak(hs) <= m
  {
    StreakSumBounds(hs, m);
    RoundDivBounds(StreakSum(hs), |hs|, m);
  }

  /** `completionRate`: 0 for no habits, otherwise the rounded percentage completed today. */
  function CompletionRate(hs: seq<Habit>, today: Day): (r: int)
    ensures 0 <= r <= 100
    ensures hs == [] ==> r == 0
    ensures hs != [] ==>
      |hs| * (2 * r - 1) <= 200 * CompletedToday(hs, today) < |hs| * (2 * r + 1)
  {
    if |hs| > 0 then
      RoundDivBounds(100 * CompletedToday(hs, today), |hs|, 100);
      RoundDiv(100 * CompletedToday(hs, today), |hs|)
    else 0
  }

  /** The rate shows 100 exactly when at least 99.5% of the habits are completed today. */
  lemma CompletionRateFull(hs: seq<Habit>, today: Day)
    ensures CompletionRate(hs, today) == 100 <==> hs != [] && 200 * CompletedToday(hs, today) >= 199 * |hs|
  {
    if hs != [] {
      var c, t := CompletedToday(hs, today), |hs|;
      if 200 * c >= 199 * t {
        assert t * (2 * 100 - 1) <= 200 * c < t * (2 * 100 + 1);
        RoundDivUnique(100 * c, t, 100);
      }
    }
  }

  /** Every habit completed today gives a rate of 100. */
  lemma AllCompletedIsFull(hs: seq<Habit>, today: Day)
    requires hs != []
    requires forall h :: h in hs ==> today in h.completedDates
    ensures CompletionRate(hs, today) == 100
  {
    CompletedTodayAll(hs, today);
    CompletionRateFull(hs, today);
  }

  /** With fewer than 200 habits, a rate of 100 means every habit is completed today. */
  lemma FullIsAllCompleted(hs: seq<Habit>, today: Day)
    requires |hs| < 200
    requires CompletionRate(hs, today) == 100
    ensures forall h :: h in hs ==> today in h.completedDates
  {
    CompletionRateFull(hs, today);
    CompletedTodayAll(hs, today);
  }

  /** With 200 habits and 199 completed today the rate still shows 100. */
  lemma FullWithOneMissing(hs: seq<Habit>, today: Day)
    requires |hs| == 200 && CompletedToday(hs, today) == 199
    ensures CompletionRate(hs, today) == 100
    ensures exists h :: h in hs && today !in h.completedDates
  {
    CompletionRateFull(hs, today);
    CompletedTodayAll(hs, today);
  }

  /** What the overview panel shows. */
  datatype Overview = Overview(totalHabits: nat, completedToday: nat, averageStreak: int, completionRate: int)

  /** The panel: nothing at all for an empty collection, otherwise the four figures. */
  function OverviewOf(hs: seq<Habit>, today: Day): (r: Option<Overview>)
    ensures r == None <==> hs == []
    ensures r.Some? ==> r.value.completedToday <= r.value.totalHabits == |hs|
    ensures r.Some? ==> 0 <= r.value.completionRate <= 100
  {
    if |hs| == 0 then None
    else Some(Overview(|hs|, CompletedToday(hs, today), AverageStreak(hs), CompletionRate(hs, today)))
  }
}
