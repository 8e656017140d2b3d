/** One habit's card: the today button, the seven-day mini calendar, the
    completion rate and the two-click delete. */
module HabitCard {
  import opened HabitModel
  import opened Rounding

  /** Milliseconds in one day. */
  const MsPerDay := 86400000

  /** The today button shows as done when today is among the habit's dates. */
  predicate IsCompletedToday(h: Habit, today: Day)
  {
    today in h.completedDates
  }

  /** A calendar cell shows as done when its day is among the habit's dates. */
  predicate IsCellCompleted(h: Habit, date: Day)
  {
    date in h.completedDates
  }

  /** The seven days the mini calendar shows, oldest first. */
  function Last7Days(today: Day): (days: seq<Day>)
    ensures |days| == 7
    ensures forall k :: 0 <= k < 7 ==> days[k] == today - 6 + k
  {
    seq(7, k => today - 6 + k)
  }

  /** `getLast7Days`: pushes today - 6, today - 5, ..., today. */
  method GetLast7Days(today: Day) returns (days: seq<Day>)
    ensures days == Last7Days(today)
  {
    days := [];
    var i := 6;
    while i >= 0
      invariant -1 <= i <= 6
      invariant |days| == 6 - i
      invariant forall k :: 0 <= k < |days| ==> days[k] == today - 6 + k
    {
      days := days + [today - i];
      i := i - 1;
    }
  }

  /** The window is strictly ascending by one day and ends with today, so the
      last cell and the today button show the same state. */
  lemma Last7DaysEndsToday(h: Habit, today: Day)
    ensures Last7Days(today)[6] == today
    ensures forall k :: 0 < k < 7 ==> Last7Days(today)[k] == Last7Days(today)[k - 1] + 1
    ensures IsCellCompleted(h, Last7Days(today)[6]) == IsCompletedToday(h, today)
    ensures forall d :: d in Last7Days(today) <==> today - 6 <= d <= today
  {
    var days := Last7Days(today);
    forall d | today - 6 <= d <= today ensures d in days {
      assert days[d - today + 6] == d;
    }
  }

  /** The elapsed time since creation rounded up to whole days, and at least one. */
  function DaysSinceCreation(createdAt: int, now: int): (r: int)
    ensures r >= 1
    ensures r == 1 <==> now - createdAt <= MsPerDay
    ensures now - createdAt > MsPerDay ==> MsPerDay * (r - 1) < now - createdAt <= MsPerDay * r
  {
    var d := CeilDiv(now - createdAt, MsPerDay);
    if d >= 1 then d else 1
  }

  /** The card's `completionRate`: 0 for no entries, otherwise the entry count
      as a rounded percentage of the days since creation. */
  function CompletionRate(h: Habit, now: int): (r: int)
    ensures |h.completedDates| == 0 ==> r == 0
    ensures r >= 0
    ensures |h.completedDates| > 0 ==>
      var days := DaysSinceCreation(h.createdAt, now);
      days * (2 * r - 1) <= 200 * |h.completedDates| < days * (2 * r + 1)
  {
    if |h.completedDates| > 0 then
      var days := DaysSinceCreation(h.createdAt, now);
      RoundDivBounds(100 * |h.completedDates|, days, 100 * |h.completedDates|);
      RoundDiv(100 * |h.completedDates|, days)
    else 0
  }

  /** No more entries than days since creation keeps the rate at most 100. */
  lemma CompletionRateAtMost100(h: Habit, now: int)
    requires |h.completedDates| <= DaysSinceCreation(h.createdAt, now)
    ensures 0 <= CompletionRate(h, now) <= 100
  {
    if |h.completedDates| > 0 {
      RoundDivBounds(100 * |h.completedDates|, DaysSinceCreation(h.createdAt, now), 100);
    }
  }

  /** Entries back-dated before creation push the rate past 100: seven entries
      on a habit created within the last day give 700. */
  lemma CompletionRateAboveHundred(h: Habit, now: int)
    requires |h.completedDates| == 7
    requires h.createdAt <= now <= h.createdAt + MsPerDay
    ensures CompletionRate(h, now) == 700
  {
    assert DaysSinceCreation(h.createdAt, now) == 1;
    RoundDivUnique(700, 1, 700);
  }

  /** A click asking the page to toggle a date on a habit. */
  datatype ToggleRequest = ToggleRequest(habitId: string, date: Day)

  /** A card as rendered: its habit, the page's `today`, and the confirm flag. */
  class Card {
    const habit: Habit
    const today: Day
    var showDeleteConfirm: bool

    /** A new card is not armed. */
    constructor (habit: Habit, today: Day)
      ensures this.habit == habit && this.today == today && !showDeleteConfirm
    {
      this.habit := habit;
      this.today := today;
      showDeleteConfirm := false;
    }

    /** `handleDelete`: an armed card asks for the delete; otherwise it arms itself. */
    method HandleDelete() returns (deleteRequest: Option<string>)
      modifies this
      ensures old(showDeleteConfirm) ==> deleteRequest == Some(habit.id)
      ensures !old(showDeleteConfirm) ==> deleteRequest == None
      ensures showDeleteConfirm
    {
      if showDeleteConfirm {
        deleteRequest := Some(habit.id);
      } else {
        showDeleteConfirm := true;
        deleteRequest := None;
      }
    }

    /** The `setTimeout` callback three seconds after arming: disarms the card. */
    method Disarm()
      modifies this
      ensures !showDeleteConfirm
    {
      showDeleteConfirm := false;
    }

    /** The today button: toggles today on this card's habit. */
    method ToggleToday() returns (request: ToggleRequest)
      ensures request.habitId == habit.id && request.date == today
    {
      request := ToggleRequest(habit.id, today);
    }

    /** A click on calendar cell `k`: toggles that cell's day on this card's habit. */
    method ToggleCell(k: int) returns (request: ToggleRequest)
      requires 0 <= k < 7
      ensures request.habitId == habit.id && request.date == today - 6 + k
      ensures request.date in Last7Days(today)
    {
      var days := GetLast7Days(today);
      request := ToggleRequest(habit.id, days[k]);
    }
  }
}
