/** Concrete completion histories and what the streak code, as written,
    makes of them. */
module Scenarios {
  import opened HabitModel
  import opened Sorting
  import opened Completion
  import opened Streaks
  import opened Store
  import opened HabitCard

  /** The `n` consecutive days starting at `first`. */
  function Run(first: Day, n: nat): (r: seq<Day>)
    ensures |r| == n
    ensures forall k :: 0 <= k < n ==> r[k] == first + k
  {
    seq(n, k => first + k)
  }

  lemma RunMembership(first: Day, n: nat, day: Day)
    ensures day in Run(first, n) <==> first <= day < first + n
  {
    if first <= day < first + n {
      assert Run(first, n)[day - first] == day;
    }
  }

  /** Five consecutive days ending today: both streaks are 5. */
  lemma FiveDayRun(today: Day)
    ensures CurrentStreak(Run(today - 4, 5), today) == 5
    ensures LongestStreak(Run(today - 4, 5), today) == 5
  {
    var s := Run(today - 4, 5);
    forall day | today - 5 < day <= today ensures day in s {
      RunMembership(today - 4, 5, day);
    }
    RunMembership(today - 4, 5, today - 5);
    StreakOfRun(s, today, 5);
    LongestStreakIsCount(s, today);
  }

  /** A run of 5 days long ago and a run of 3 ending today: the current streak
      is 3, and the stored longest streak is 8 (the number of entries), not 5. */
  lemma TwoRuns(today: Day)
    ensures CurrentStreak(Run(today - 20, 5) + Run(today - 2, 3), today) == 3
    ensures LongestStreak(Run(today - 20, 5) + Run(today - 2, 3), today) == 8
  {
    var s := Run(today - 20, 5) + Run(today - 2, 3);
    forall day | today - 3 < day <= today ensures day in s {
      RunMembership(today - 2, 3, day);
    }
    RunMembership(today - 20, 5, today - 3);
    RunMembership(today - 2, 3, today - 3);
    StreakOfRun(s, today, 3);
    LongestStreakIsCount(s, today);
  }

  /** Forty days ending today with the day 31 days back missing: the current
      streak stops at the lookback bound of 30 and the longest streak is the 39 entries. */
  lemma FortyDaysWithGap(today: Day)
    ensures CurrentStreak(Run(today - 39, 8) + Run(today - 30, 31), today) == Lookback
    ensures LongestStreak(Run(today - 39, 8) + Run(today - 30, 31), today) == 39
  {
    var s := Run(today - 39, 8) + Run(today - 30, 31);
    forall day | today - Lookback < day <= today ensures day in s {
      RunMembership(today - 30, 31, day);
    }
    StreakCapped(s, today);
    LongestStreakIsCount(s, today);
  }

  /** A new habit toggled on today twice is back to no dates and zero streaks. */
  lemma NewHabitToggledTwice(draft: Draft, id: string, createdAt: int, today: Day)
    ensures var h := ToggledHabit(ToggledHabit(NewHabit(draft, id, createdAt), today, today), today, today);
      h.completedDates == [] && h.currentStreak == 0 && h.longestStreak == 0
  {
    var h0 := NewHabit(draft, id, createdAt);
    var h1 := ToggledHabit(h0, today, today);
    assert Toggled([], today) == [today];
    SortOfSorted([today]);
    assert h1.completedDates == [today];
    assert Toggled([today], today) == [];
  }

  /** Toggling the day before yesterday, then yesterday, on an empty list. */
  lemma TwoDaysDates(today: Day)
    ensures ToggledDates(ToggledDates([], today - 2), today - 1) == [today - 2, today - 1]
  {
    ToggleLaterDate([], today - 2);
    assert [] + [today - 2] == [today - 2];
    ToggleLaterDate([today - 2], today - 1);
  }

  /** Toggling the three days ending today, oldest first, on an empty list. */
  lemma ThreeDaysDates(today: Day)
    ensures ToggledDates(ToggledDates(ToggledDates([], today - 2), today - 1), today)
         == [today - 2, today - 1, today]
  {
    TwoDaysDates(today);
    ToggleLaterDate([today - 2, today - 1], today);
  }

  /** The three days ending today give both streaks 3. */
  lemma ThreeDaysStreaks(today: Day)
    ensures CurrentStreak([today - 2, today - 1, today], today) == 3
    ensures LongestStreak([today - 2, today - 1, today], today) == 3
  {
    var s := [today - 2, today - 1, today];
    assert today - 3 !in s;
    StreakOfRun(s, today, 3);
    LongestStreakIsCount(s, today);
  }

  /** A new habit toggled on each of the three days ending today has both streaks at 3. */
  lemma NewHabitThreeDays(draft: Draft, id: string, createdAt: int, today: Day)
    ensures var h := ToggledHabit(ToggledHabit(ToggledHabit(NewHabit(draft, id, createdAt),
                       today - 2, today), today - 1, today), today, today);
      h.completedDates == [today - 2, today - 1, today]
      && h.currentStreak == 3 && h.longestStreak == 3
  {
    ThreeDaysDates(today);
    ThreeDaysStreaks(today);
  }

  /** The same history driven through the store: create, then toggle today twice. */
  method CreateThenToggleTodayTwice(draft: Draft, id: string, createdAt: int, today: Day)
    returns (h: Habit)
    ensures h.completedDates == [] && h.currentStreak == 0 && h.longestStreak == 0
  {
    var store := new HabitStore();
    store.AddHabit(draft, id, createdAt);
    store.ToggleHabitCompletion(id, today, today);
    store.ToggleHabitCompletion(id, today, today);
    NewHabitToggledTwice(draft, id, createdAt, today);
    h := store.habits[0];
  }

  /** On a duplicate-free habit the today button flips the card's done state;
      the other calendar days keep theirs. */
  lemma TodayButtonFlips(h: Habit, today: Day)
    requires NoDuplicates(h.completedDates)
    ensures var r := ToggledHabit(h, today, today);
      (IsCompletedToday(r, today) <==> !IsCompletedToday(h, today))
      && forall d :: d != today ==> (IsCellCompleted(r, d) <==> IsCellCompleted(h, d))
  {
    ToggledDatesMembership(h.completedDates, today);
  }

  /** Two clicks on the delete button of a fresh card: the first arms, the second deletes. */
  method DeleteTakesTwoClicks(h: Habit, today: Day) returns (first: Option<string>, second: Option<string>)
    ensures first == None && second == Some(h.id)
  {
    var card := new Card(h, today);
    first := card.HandleDelete();
    second := card.HandleDelete();
  }

  /** When the confirmation times out between the clicks, neither click deletes. */
  method DisarmedBetweenClicks(h: Habit, today: Day) returns (first: Option<string>, second: Option<string>)
    ensures first == None && second == None
  {
    var card := new Card(h, today);
    first := card.HandleDelete();
    card.Disarm();
    second := card.HandleDelete();
  }
}
