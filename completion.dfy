/** The completion list of one habit and its toggle: remove the first
    occurrence of the date if there is one, otherwise append it, then sort. */
module Completion {
  import opened HabitModel
  import opened Sorting

  /** `Array.prototype.indexOf`: the first index holding `d`, or -1. */
  function IndexOf(s: seq<Day>, d: Day): (i: int)
    ensures -1 <= i < |s|
  {
    if s == [] then -1
    else if s[0] == d then 0
    else
      var k := IndexOf(s[1..], d);
      if k == -1 then -1 else k + 1
  }

  /** `indexOf` finds the first occurrence, and -1 exactly when there is none. */
  lemma {:induction false} IndexOfSpec(s: seq<Day>, d: Day)
    ensures var i := IndexOf(s, d);
      (i == -1 <==> d !in s) && (0 <= i ==> s[i] == d && d !in s[..i])
  {
    if s != [] && s[0] != d {
      IndexOfSpec(s[1..], d);
      var k := IndexOf(s[1..], d);
      assert s == [s[0]] + s[1..];
      if k != -1 {
        assert s[..k + 1] == [s[0]] + s[1..][..k];
      }
    }
  }

  /** The list after `splice(indexOf(d), 1)` or `push(d)`, before sorting. */
  function Toggled(s: seq<Day>, d: Day): seq<Day>
  {
    var i := IndexOf(s, d);
    if i > -1 then s[..i] + s[i + 1..] else s + [d]
  }

  /** The splice removes one `d` when there is one; otherwise the push adds one. */
  lemma ToggledSpec(s: seq<Day>, d: Day)
    ensures var t := Toggled(s, d);
      (d in s ==> |t| == |s| - 1 && multiset(t) == multiset(s) - multiset{d})
      && (d !in s ==> |t| == |s| + 1 && multiset(t) == multiset(s) + multiset{d})
  {
    IndexOfSpec(s, d);
    var i := IndexOf(s, d);
    if i > -1 {
      assert s == s[..i] + [d] + s[i + 1..];
    }
  }

  /** The completion list a toggle stores: the toggled list in ascending order. */
  function ToggledDates(s: seq<Day>, d: Day): seq<Day>
  {
    Sort(Toggled(s, d))
  }

  /** The stored list is sorted and holds the old entries with one `d`
      removed (when present) or one `d` added (when absent). */
  lemma ToggledDatesContents(s: seq<Day>, d: Day)
    ensures var r := ToggledDates(s, d);
      Sorted(r)
      && (d in s ==> multiset(r) == multiset(s) - multiset{d})
      && (d !in s ==> multiset(r) == multiset(s) + multiset{d})
      && |r| == if d in s then |s| - 1 else |s| + 1
  {
    ToggledSpec(s, d);
    SortSpec(Toggled(s, d));
  }

  /** Toggling a date later than every entry of a sorted list appends it. */
  lemma ToggleLaterDate(s: seq<Day>, d: Day)
    requires Sorted(s)
    requires forall x :: x in s ==> x < d
    ensures ToggledDates(s, d) == s + [d]
  {
    assert d !in s;
    IndexOfSpec(s, d);
    var t := s + [d];
    assert Sorted(t) by {
      forall i, j | 0 <= i < j < |t| ensures t[i] <= t[j] {
        if j == |s| {
          assert t[i] == s[i] && s[i] in s;
        } else {
          assert t[i] == s[i] && t[j] == s[j];
        }
      }
    }
    SortOfSorted(t);
  }

  /** Every other date keeps its membership; on a duplicate-free list `d` flips. */
  lemma ToggledDatesMembership(s: seq<Day>, d: Day)
    ensures forall x :: x != d ==> (x in ToggledDates(s, d) <==> x in s)
    ensures NoDuplicates(s) ==> (d in ToggledDates(s, d) <==> d !in s)
  {
    var r := ToggledDates(s, d);
    ToggledDatesContents(s, d);
    forall x | x != d ensures x in r <==> x in s {
      assert x in r <==> x in multiset(r);
      assert x in s <==> x in multiset(s);
    }
    if NoDuplicates(s) {
      NoDuplicatesMultiplicity(s, d);
      assert d in r <==> d in multiset(r);
      assert d in s <==> d in multiset(s);
    }
  }

  /** Toggling keeps a duplicate-free list duplicate-free: `push` only happens when `d` is absent. */
  lemma ToggledDatesNoDuplicates(s: seq<Day>, d: Day)
    requires NoDuplicates(s)
    ensures NoDuplicates(ToggledDates(s, d))
  {
    var r := ToggledDates(s, d);
    ToggledDatesContents(s, d);
    forall x ensures multiset(r)[x] <= 1 {
      NoDuplicatesMultiplicity(s, x);
      if d !in s {
        assert multiset(s)[d] == 0;
      }
    }
    MultiplicityNoDuplicates(r);
  }

  /** Removing or adding one `d` twice over, starting from at most one `d`, gives back the multiset. */
  lemma ToggleMultisetTwice(m: multiset<Day>, d: Day)
    requires m[d] <= 1
    ensures var once := if m[d] > 0 then m - multiset{d} else m + multiset{d};
      (if once[d] > 0 then once - multiset{d} else once + multiset{d}) == m
  {
  }

  /** Toggling the same date twice on a duplicate-free list gives the sorted original. */
  lemma ToggleTwice(s: seq<Day>, d: Day)
    requires NoDuplicates(s)
    ensures ToggledDates(ToggledDates(s, d), d) == Sort(s)
  {
    var once := ToggledDates(s, d);
    var twice := ToggledDates(once, d);
    ToggledDatesContents(s, d);
    ToggledDatesContents(once, d);
    NoDuplicatesMultiplicity(s, d);
    assert d in s <==> multiset(s)[d] > 0;
    assert d in once <==> multiset(once)[d] > 0;
    ToggleMultisetTwice(multiset(s), d);
    assert multiset(twice) == multiset(s);
    SortSpec(s);
    SortedUnique(twice, Sort(s));
  }
}
