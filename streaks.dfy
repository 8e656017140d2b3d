/** The two streak numbers recomputed after every toggle. */
module Streaks {
  import opened HabitModel
  import opened Completion

  /** The backward walk looks at days `today - 1` down to `today - 29`: it stops before this distance. */
  const Lookback := 30

  function Max(a: int, b: int): (m: int)
    ensures m >= a && m >= b && (m == a || m == b)
  {
    if a >= b then a else b
  }

  /** How many of the days `today - i`, `today - i - 1`, … (stopping before
      `today - Lookback`) are present before the first missing one. */
  function RunBack(s: seq<Day>, today: Day, i: int): (n: nat)
    requires 1 <= i <= Lookback
    ensures n <= Lookback - i
    decreases Lookback - i
  {
    if i < Lookback && today - i in s then 1 + RunBack(s, today, i + 1) else 0
  }

  /** The walk back from `today - i` finds only completed days and stops at a
      missing one or at the lookback bound. */
  lemma {:induction false} RunBackSpec(s: seq<Day>, today: Day, i: int)
    requires 1 <= i <= Lookback
    ensures var n := RunBack(s, today, i);
      (forall day :: today - (i + n) < day <= today - i ==> day in s)
      && (i + n < Lookback ==> today - (i + n) !in s)
    decreases Lookback - i
  {
    if i < Lookback && today - i in s {
      RunBackSpec(s, today, i + 1);
    }
  }

  /** The current streak: 0 unless `today` is completed; otherwise 1 plus the
      consecutive completed days just before it, looked back at most 29 days. */
  function CurrentStreak(s: seq<Day>, today: Day): (c: nat)
    ensures c <= Lookback
    ensures c == 0 <==> today !in s
  {
    if today in s then 1 + RunBack(s, today, 1) else 0
  }

  /** The current streak counts a run of completed days ending today that
      stops at a missing day or at the lookback bound. */
  lemma CurrentStreakSpec(s: seq<Day>, today: Day)
    ensures var c := CurrentStreak(s, today);
      (forall day :: today - c < day <= today ==> day in s)
      && (0 < c < Lookback ==> today - c !in s)
  {
    if today in s {
      RunBackSpec(s, today, 1);
    }
  }

  /** The longest streak the code stores: the larger of the loop's count of
      entries and the current streak. */
  function LongestStreak(s: seq<Day>, today: Day): (l: int)
    ensures l >= CurrentStreak(s, today) && l >= |s|
  {
    Max(|s|, CurrentStreak(s, today))
  }

  /** `c` distinct days all present force at least `c` entries. */
  lemma {:induction false} RunFitsInList(s: seq<Day>, today: Day, c: nat)
    requires forall day :: today - c < day <= today ==> day in s
    ensures c <= |s|
    decreases c
  {
    if c > 0 {
      var last := today - (c - 1);
      var rest := Toggled(s, last);
      assert last in s;
      ToggledSpec(s, last);
      forall day | today - (c - 1) < day <= today ensures day in rest {
        assert day in s;
        assert day in multiset(s);
        assert multiset(rest)[day] == multiset(s)[day];
      }
      RunFitsInList(rest, today, c - 1);
    }
  }

  /** As written, the longest streak is always the number of entries: the
      counter `tempStreak` is never reset, and the current streak never exceeds it. */
  lemma LongestStreakIsCount(s: seq<Day>, today: Day)
    ensures LongestStreak(s, today) == |s|
  {
    CurrentStreakSpec(s, today);
    RunFitsInList(s, today, CurrentStreak(s, today));
  }

  /** A run of `n` completed days ending today, preceded by a gap, gives a
      current streak of exactly `n` when `n` is below the lookback bound. */
  lemma StreakOfRun(s: seq<Day>, today: Day, n: nat)
    requires 0 < n < Lookback
    requires forall day :: today - n < day <= today ==> day in s
    requires today - n !in s
    ensures CurrentStreak(s, today) == n
  {
    var c := CurrentStreak(s, today);
    assert today in s;
    CurrentStreakSpec(s, today);
    assert c >= n;
  }

  /** However long the run ending today, the current streak stops at the lookback bound. */
  lemma StreakCapped(s: seq<Day>, today: Day)
    requires forall day :: today - Lookback < day <= today ==> day in s
    ensures CurrentStreak(s, today) == Lookback
  {
    var c := CurrentStreak(s, today);
    assert today in s;
    CurrentStreakSpec(s, today);
  }

  /** The streak part of the toggle: the backward walk from `today`, the counting
      loop over the sorted dates, and the final `Math.max`. */
  method ComputeStreaks(sortedDates: seq<Day>, today: Day) returns (current: int, longest: int)
    ensures current == CurrentStreak(sortedDates, today)
    ensures longest == LongestStreak(sortedDates, today)
  {
    current := 0;
    longest := 0;
    var tempStreak := 0;
    if today in sortedDates {
      current := 1;
      var i := 1;
      while i < Lookback
        invariant 1 <= i <= Lookback
        invariant current == i
        invariant CurrentStreak(sortedDates, today) == current + RunBack(sortedDates, today, i)
      {
        if today - i in sortedDates {
          current := current + 1;
          i := i + 1;
        } else {
          break;
        }
      }
    }
    for j := 0 to |sortedDates|
      invariant tempStreak == j && longest == j
    {
      tempStreak := tempStreak + 1;
      longest := Max(longest, tempStreak);
    }
    longest := Max(longest, current);
  }
}
