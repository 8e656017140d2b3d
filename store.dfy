/** The habit collection held by the page: add, update, delete and the
    completion toggle that recomputes the streaks. */
module Store {
  import opened HabitModel
  import opened Sorting
  import opened Completion
  import opened Streaks

  /** The record `addHabit` builds from a draft, a fresh id and a creation time. */
  function NewHabit(draft: Draft, id: string, createdAt: int): Habit
  {
    Habit(id, draft.name, draft.description, draft.category, draft.color,
          [], 0, 0, draft.targetFrequency, createdAt)
  }

  /** The habit a toggle of `date` produces: sorted toggled dates and both
      streaks recomputed from them; every other field is kept. */
  function ToggledHabit(h: Habit, date: Day, today: Day): Habit
  {
    var dates := ToggledDates(h.completedDates, date);
    h.(completedDates := dates,
       currentStreak := CurrentStreak(dates, today),
       longestStreak := LongestStreak(dates, today))
  }

  /** The list with the patch merged into every habit carrying the id. */
  function Updated(hs: seq<Habit>, id: string, p: HabitPatch): (r: seq<Habit>)
    ensures |r| == |hs|
    ensures forall i :: 0 <= i < |hs| ==> r[i] == if hs[i].id == id then Merge(hs[i], p) else hs[i]
  {
    if hs == [] then []
    else [if hs[0].id == id then Merge(hs[0], p) else hs[0]] + Updated(hs[1..], id, p)
  }

  /** The list without the habits carrying the id. */
  function Deleted(hs: seq<Habit>, id: string): (r: seq<Habit>)
    ensures |r| <= |hs|
  {
    if hs == [] then []
    else (if hs[0].id == id then [] else [hs[0]]) + Deleted(hs[1..], id)
  }

  /** Exactly the habits without the id survive a delete; with no match nothing changes. */
  lemma {:induction false} DeletedMembers(hs: seq<Habit>, id: string)
    ensures forall h :: h in Deleted(hs, id) <==> h in hs && h.id != id
    ensures (forall h :: h in hs ==> h.id != id) ==> Deleted(hs, id) == hs
  {
    if hs != [] {
      assert hs == [hs[0]] + hs[1..];
      DeletedMembers(hs[1..], id);
    }
  }

  /** Deleting keeps the survivors in their order: it distributes over concatenation. */
  lemma {:induction false} DeletedConcat(a: seq<Habit>, b: seq<Habit>, id: string)
    ensures Deleted(a + b, id) == Deleted(a, id) + Deleted(b, id)
  {
    if a == [] {
      assert a + b == b;
    } else {
      var head, t := if a[0].id == id then [] else [a[0]], a[1..];
      calc {
        Deleted(a + b, id);
        == { assert a + b == [a[0]] + (t + b); DeletedCons(a[0], t + b, id); }
        head + Deleted(t + b, id);
        == { DeletedConcat(t, b, id); }
        head + (Deleted(t, id) + Deleted(b, id));
        (head + Deleted(t, id)) + Deleted(b, id);
        == { assert a == [a[0]] + t; DeletedCons(a[0], t, id); }
        Deleted(a, id) + Deleted(b, id);
      }
    }
  }

  /** One step of the filter: the head survives exactly when its id differs. */
  lemma DeletedCons(h: Habit, t: seq<Habit>, id: string)
    ensures Deleted([h] + t, id) == (if h.id == id then [] else [h]) + Deleted(t, id)
  {
    assert ([h] + t)[0] == h && ([h] + t)[1..] == t;
  }

  /** Deleting a habit just added under an id no other habit has restores the collection. */
  lemma AddThenDelete(hs: seq<Habit>, draft: Draft, id: string, createdAt: int)
    requires forall h :: h in hs ==> h.id != id
    ensures Deleted(hs + [NewHabit(draft, id, createdAt)], id) == hs
  {
    DeletedConcat(hs, [NewHabit(draft, id, createdAt)], id);
    DeletedMembers(hs, id);
    assert Deleted([NewHabit(draft, id, createdAt)], id) == [];
  }

  /** Applying the same patch twice is applying it once. A patch that renames
      the id leaves no habit with the id, so its second pass matches nothing. */
  lemma {:induction false} UpdatedIdempotent(hs: seq<Habit>, id: string, p: HabitPatch)
    ensures Updated(Updated(hs, id, p), id, p) == Updated(hs, id, p)
  {
    var once := Updated(hs, id, p);
    var twice := Updated(once, id, p);
    forall i | 0 <= i < |hs| ensures twice[i] == once[i] {
      if p.id.Some? && p.id.value != id {
        assert once[i].id != id;
      } else if hs[i].id == id {
        assert once[i].id == id;
      }
    }
  }

  /** A patch with no fields changes nothing. */
  lemma UpdatedEmptyPatch(hs: seq<Habit>, id: string)
    ensures Updated(hs, id, EmptyPatch) == hs
  {
    var r := Updated(hs, id, EmptyPatch);
    forall i | 0 <= i < |hs| ensures r[i] == hs[i] {
      assert Merge(hs[i], EmptyPatch) == hs[i];
    }
  }

  /** After a toggle the streaks obey current <= longest, current <= 30 and
      longest == number of entries; a duplicate-free list stays duplicate-free and sorted. */
  lemma ToggledHabitStreaks(h: Habit, date: Day, today: Day)
    ensures var r := ToggledHabit(h, date, today);
      0 <= r.currentStreak <= r.longestStreak
      && r.currentStreak <= Lookback
      && r.longestStreak == |r.completedDates|
      && Sorted(r.completedDates)
      && (NoDuplicates(h.completedDates) ==> NoDuplicates(r.completedDates))
  {
    var dates := ToggledDates(h.completedDates, date);
    ToggledDatesContents(h.completedDates, date);
    LongestStreakIsCount(dates, today);
    if NoDuplicates(h.completedDates) {
      ToggledDatesNoDuplicates(h.completedDates, date);
    }
  }

  /** Toggling the same date twice on a duplicate-free habit leaves its
      dates sorted and its streaks recomputed from them. */
  lemma ToggledHabitTwice(h: Habit, date: Day, today: Day)
    requires NoDuplicates(h.completedDates)
    ensures var r := ToggledHabit(ToggledHabit(h, date, today), date, today);
      r.completedDates == Sort(h.completedDates)
      && r.currentStreak == CurrentStreak(Sort(h.completedDates), today)
      && r.longestStreak == |h.completedDates|
      && r.(completedDates := h.completedDates, currentStreak := h.currentStreak,
            longestStreak := h.longestStreak) == h
  {
    ToggleTwice(h.completedDates, date);
    SortSpec(h.completedDates);
    LongestStreakIsCount(Sort(h.completedDates), today);
  }

  /** The body of the `map` callback for the matching habit:
      copy, `indexOf`, `splice` or `push`, in-place `sort`, then the streaks. */
  method ToggleCompletion(habit: Habit, date: Day, today: Day) returns (r: Habit)
    ensures r == ToggledHabit(habit, date, today)
  {
    var completedDates := habit.completedDates;
    var dateIndex := IndexOf(completedDates, date);
    if dateIndex > -1 {
      completedDates := completedDates[..dateIndex] + completedDates[dateIndex + 1..];
    } else {
      completedDates := completedDates + [date];
    }
    var a := new Day[|completedDates|](k requires 0 <= k < |completedDates| => completedDates[k]);
    assert a[..] == completedDates;
    SortInPlace(a);
    var sortedDates := a[..];
    var currentStreak, longestStreak := ComputeStreaks(sortedDates, today);
    r := habit.(completedDates := sortedDates,
                currentStreak := currentStreak,
                longestStreak := longestStreak);
  }

  /** The `map` callback of `toggleHabitCompletion`: toggle a matching habit, keep any other. */
  function ToggleIfMatch(h: Habit, id: string, date: Day, today: Day): Habit
  {
    if h.id == id then ToggledHabit(h, date, today) else h
  }

  /** The whole list after a toggle, as a value: each habit passed through `ToggleIfMatch`. */
  function ToggleAll(hs: seq<Habit>, id: string, date: Day, today: Day): (r: seq<Habit>)
  {
    if hs == [] then []
    else ToggleAll(hs[..|hs| - 1], id, date, today) + [ToggleIfMatch(hs[|hs| - 1], id, date, today)]
  }

  /** The toggle's `map` keeps the length and position of every habit and
      toggles exactly the matching ones. */
  lemma {:induction false} ToggleAllSpec(hs: seq<Habit>, id: string, date: Day, today: Day)
    ensures |ToggleAll(hs, id, date, today)| == |hs|
    ensures forall k :: 0 <= k < |hs| ==>
      ToggleAll(hs, id, date, today)[k] == ToggleIfMatch(hs[k], id, date, today)
  {
    if hs != [] {
      var init := hs[..|hs| - 1];
      ToggleAllSpec(init, id, date, today);
      var r := ToggleAll(hs, id, date, today);
      assert r == ToggleAll(init, id, date, today) + [ToggleIfMatch(hs[|hs| - 1], id, date, today)];
      forall k | 0 <= k < |hs| ensures r[k] == ToggleIfMatch(hs[k], id, date, today) {
        if k < |hs| - 1 {
          assert init[k] == hs[k];
        }
      }
    }
  }

  /** A toggle for an id no habit carries leaves the collection unchanged. */
  lemma ToggleAllNoMatch(hs: seq<Habit>, id: string, date: Day, today: Day)
    requires forall h :: h in hs ==> h.id != id
    ensures ToggleAll(hs, id, date, today) == hs
  {
    ToggleAllSpec(hs, id, date, today);
    var r := ToggleAll(hs, id, date, today);
    forall k | 0 <= k < |hs| ensures r[k] == hs[k] {
      assert hs[k] in hs;
    }
  }

  /** The toggle's walk over the list: the matching habits are
      toggled where they stand in the list, all others are kept. */
  method ToggleEach(prev: seq<Habit>, id: string, date: Day, today: Day) returns (next: seq<Habit>)
    ensures next == ToggleAll(prev, id, date, today)
  {
    next := [];
    for i := 0 to |prev|
      invariant next == ToggleAll(prev[..i], id, date, today)
    {
      var h := prev[i];
      if h.id == id {
        h := ToggleCompletion(h, date, today);
      }
      assert prev[..i + 1][..i] == prev[..i];
      next := next + [h];
    }
    assert prev[..|prev|] == prev;
  }

  /** Toggling the matching habits preserves the ordering of every habit's streaks. */
  lemma ToggleEachKeepsOrder(prev: seq<Habit>, next: seq<Habit>, id: string, date: Day, today: Day)
    requires |next| == |prev|
    requires forall k :: 0 <= k < |prev| ==> next[k] == ToggleIfMatch(prev[k], id, date, today)
    requires StreaksOrdered(prev)
    ensures StreaksOrdered(next)
  {
    forall h | h in next ensures 0 <= h.currentStreak <= h.longestStreak {
      var k :| 0 <= k < |next| && next[k] == h;
      if prev[k].id == id {
        ToggledHabitStreaks(prev[k], date, today);
      } else {
        assert prev[k] in prev;
      }
    }
  }

  /** Every habit's streaks are ordered: 0 <= current <= longest. */
  ghost predicate StreaksOrdered(hs: seq<Habit>)
  {
    forall h :: h in hs ==> 0 <= h.currentStreak <= h.longestStreak
  }

  /** The page's `habits` state. Ids are not guaranteed unique, so update,
      delete and toggle act on every habit with the given id. */
  class HabitStore {
    var habits: seq<Habit>

    /** The page starts with no habits. */
    constructor ()
      ensures habits == []
    {
      habits := [];
    }

    /** `addHabit`: appends one habit with no completions and zero streaks. */
    method AddHabit(draft: Draft, id: string, createdAt: int)
      modifies this
      ensures |habits| == |old(habits)| + 1
      ensures habits[..|old(habits)|] == old(habits)
      ensures habits[|old(habits)|] == NewHabit(draft, id, createdAt)
      ensures StreaksOrdered(old(habits)) ==> StreaksOrdered(habits)
    {
      habits := habits + [NewHabit(draft, id, createdAt)];
    }

    /** `updateHabit`: merges the patch into every habit with the id. */
    method UpdateHabit(id: string, updates: HabitPatch)
      modifies this
      ensures habits == Updated(old(habits), id, updates)
      ensures (forall h :: h in old(habits) ==> h.id != id) ==> habits == old(habits)
    {
      habits := Updated(habits, id, updates);
    }

    /** `deleteHabit`: drops every habit with the id, keeping the others in order. */
    method DeleteHabit(id: string)
      modifies this
      ensures habits == Deleted(old(habits), id)
      ensures forall h :: h in habits <==> h in old(habits) && h.id != id
      ensures StreaksOrdered(old(habits)) ==> StreaksOrdered(habits)
    {
      DeletedMembers(habits, id);
      habits := Deleted(habits, id);
    }

    /** `toggleHabitCompletion`: toggles `date` on every habit with the id and
      leaves the others as they are. */
    method ToggleHabitCompletion(id: string, date: Day, today: Day)
      modifies this
      ensures |habits| == |old(habits)|
      ensures forall i :: 0 <= i < |habits| ==> habits[i] == ToggleIfMatch(old(habits)[i], id, date, today)
      ensures (forall h :: h in old(habits) ==> h.id != id) ==> habits == old(habits)
      ensures StreaksOrdered(old(habits)) ==> StreaksOrdered(habits)
    {
      ghost var prev := habits;
      habits := ToggleEach(habits, id, date, today);
      ToggleAllSpec(prev, id, date, today);
      if forall h :: h in prev ==> h.id != id {
        ToggleAllNoMatch(prev, id, date, today);
      }
      if StreaksOrdered(prev) {
        ToggleEachKeepsOrder(prev, habits, id, date, today);
      }
    }
  }
}
