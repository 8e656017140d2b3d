/** Ascending order on day numbers, as `Array.prototype.sort()` gives for
    `YYYY-MM-DD` strings (lexicographic order on that format is chronological). */
module Sorting {

  /** Every element is at most every later element. */
  ghost predicate Sorted(s: seq<int>)
  {
    forall i, j :: 0 <= i < j < |s| ==> s[i] <= s[j]
  }

  /** No value occurs twice. */
  ghost predicate NoDuplicates(s: seq<int>)
  {
    forall i, j :: 0 <= i < j < |s| ==> s[i] != s[j]
  }

  /** Places `x` before the first element not smaller than it. */
  function Insert(x: int, s: seq<int>): seq<int>
  {
    if s == [] then [x]
    else if x <= s[0] then [x] + s
    else [s[0]] + Insert(x, s[1..])
  }

  /** Inserting into a sorted sequence keeps it sorted and adds exactly one `x`. */
  lemma {:induction false} InsertSpec(x: int, s: seq<int>)
    requires Sorted(s)
    ensures var r := Insert(x, s);
      Sorted(r) && multiset(r) == multiset(s) + multiset{x} && |r| == |s| + 1
      && (r[0] == x || (s != [] && r[0] == s[0]))
  {
    if s == [] {
    } else if x <= s[0] {
      PrependSorted(x, s);
    } else {
      assert s == [s[0]] + s[1..];
      SortedTail(s);
      InsertSpec(x, s[1..]);
      PrependSorted(s[0], Insert(x, s[1..]));
    }
  }

  /** Putting a value no larger than the head in front keeps a sequence sorted. */
  lemma PrependSorted(x: int, s: seq<int>)
    requires Sorted(s) && (s != [] ==> x <= s[0])
    ensures Sorted([x] + s)
  {
    var r := [x] + s;
    forall i, j | 0 <= i < j < |r| ensures r[i] <= r[j] {
      if i == 0 {
        assert r[j] == s[j - 1] && s[0] <= s[j - 1];
      } else {
        assert r[i] == s[i - 1] && r[j] == s[j - 1];
      }
    }
  }

  /** The reference sort: insertion sort on values. */
  function Sort(s: seq<int>): seq<int>
  {
    if s == [] then [] else Insert(s[0], Sort(s[1..]))
  }

  /** `Sort` returns a sorted permutation of its input. */
  lemma {:induction false} SortSpec(s: seq<int>)
    ensures Sorted(Sort(s)) && multiset(Sort(s)) == multiset(s) && |Sort(s)| == |s|
  {
    if s != [] {
      assert s == [s[0]] + s[1..];
      SortSpec(s[1..]);
      InsertSpec(s[0], Sort(s[1..]));
    }
  }

  /** Dropping the head keeps a sequence sorted. */
  lemma SortedTail(s: seq<int>)
    requires Sorted(s) && s != []
    ensures Sorted(s[1..])
  {
    var t := s[1..];
    forall i, j | 0 <= i < j < |t| ensures t[i] <= t[j] {
      assert t[i] == s[i + 1] && t[j] == s[j + 1];
    }
  }

  /** The head of a sorted sequence is at most any of its elements. */
  lemma HeadIsLeast(s: seq<int>, x: int)
    requires Sorted(s) && x in s
    ensures s[0] <= x
  {
  }

  /** The multiset of a tail is the multiset without the head. */
  lemma MultisetTail(s: seq<int>)
    requires s != []
    ensures multiset(s[1..]) == multiset(s) - multiset{s[0]}
  {
    assert s == [s[0]] + s[1..];
  }

  /** A sorted arrangement of a multiset is unique. */
  lemma {:induction false} SortedUnique(a: seq<int>, b: seq<int>)
    requires Sorted(a) && Sorted(b)
    requires multiset(a) == multiset(b)
    ensures a == b
  {
    if a != [] {
      var ma, mb := multiset(a), multiset(b);
      assert |a| == |ma| == |mb| == |b|;
      var x, y := a[0], b[0];
      assert x in ma && y in mb;
      assert x in b && y in a;
      HeadIsLeast(a, y);
      HeadIsLeast(b, x);
      assert x == y;
      var a', b' := a[1..], b[1..];
      MultisetTail(a);
      MultisetTail(b);
      assert multiset(a') == multiset(b');
      SortedTail(a);
      SortedTail(b);
      SortedUnique(a', b');
      assert a == [x] + a' && b == [y] + b';
    }
  }

  /** Sorting a sequence that is already sorted gives it back. */
  lemma SortOfSorted(s: seq<int>)
    requires Sorted(s)
    ensures Sort(s) == s
  {
    SortSpec(s);
    SortedUnique(Sort(s), s);
  }

  /** A sequence in which every value occurs at most once has no duplicates. */
  lemma MultiplicityNoDuplicates(s: seq<int>)
    requires forall x :: multiset(s)[x] <= 1
    ensures NoDuplicates(s)
  {
    forall i, j | 0 <= i < j < |s| ensures s[i] != s[j] {
      if s[i] == s[j] {
        MultiplicityAtLeastTwo(s, i, j);
        assert false;
      }
    }
  }

  /** Two equal entries at distinct indices give a multiplicity of at least two. */
  lemma {:induction false} MultiplicityAtLeastTwo(s: seq<int>, i: int, j: int)
    requires 0 <= i < j < |s| && s[i] == s[j]
    ensures multiset(s)[s[i]] >= 2
  {
    assert s == s[..j] + [s[j]] + s[j+1..];
    assert s[i] in multiset(s[..j]) by { assert s[..j][i] == s[i]; }
    calc {
      multiset(s)[s[i]];
      == multiset(s[..j])[s[i]] + multiset([s[j]])[s[i]] + multiset(s[j+1..])[s[i]];
      >= 1 + 1;
    }
  }

  /** In a duplicate-free sequence every value occurs at most once. */
  lemma {:induction false} NoDuplicatesMultiplicity(s: seq<int>, x: int)
    requires NoDuplicates(s)
    ensures multiset(s)[x] <= 1
  {
    if s != [] {
      assert s == [s[0]] + s[1..];
      assert NoDuplicates(s[1..]) by {
        forall i, j | 0 <= i < j < |s[1..]| ensures s[1..][i] != s[1..][j] {
          assert s[1..][i] == s[i + 1] && s[1..][j] == s[j + 1];
        }
      }
      NoDuplicatesMultiplicity(s[1..], x);
      if x == s[0] {
        assert x !in s[1..] by {
          forall k | 0 <= k < |s[1..]| ensures s[1..][k] != x {
            assert s[1..][k] == s[k + 1];
          }
        }
      }
    }
  }

  /** Sorts an array in place into ascending order (insertion sort). */
  method SortInPlace(a: array<int>)
    modifies a
    ensures a[..] == Sort(old(a[..]))
  {
    var i := 0;
    while i < a.Length
      invariant 0 <= i <= a.Length
      invariant Sorted(a[..i])
      invariant multiset(a[..]) == multiset(old(a[..]))
    {
      SinkLast(a, i);
      i := i + 1;
    }
    assert a[..] == a[..a.Length];
    SortSpec(old(a[..]));
    SortedUnique(a[..], Sort(old(a[..])));
  }

  /** Moves `a[i]` left past every larger neighbour, extending the sorted prefix by one. */
  method SinkLast(a: array<int>, i: int)
    requires 0 <= i < a.Length && Sorted(a[..i])
    modifies a
    ensures Sorted(a[..i + 1])
    ensures multiset(a[..]) == multiset(old(a[..]))
  {
    var j := i;
    while j > 0 && a[j - 1] > a[j]
      invariant 0 <= j <= i
      invariant multiset(a[..]) == multiset(old(a[..]))
      invariant forall p, q :: 0 <= p < q <= i && q != j ==> a[p] <= a[q]
      invariant 0 < j < i ==> a[j - 1] <= a[j + 1]
    {
      SwapAdjacent(a, j);
      j := j - 1;
    }
    ghost var done := a[..i + 1];
    forall p, q | 0 <= p < q < |done| ensures done[p] <= done[q] {
      assert done[p] == a[p] && done[q] == a[q];
    }
  }

  /** Exchanges `a[j - 1]` and `a[j]`. */
  method SwapAdjacent(a: array<int>, j: int)
    requires 0 < j < a.Length
    modifies a
    ensures a[j - 1] == old(a[j]) && a[j] == old(a[j - 1])
    ensures forall k :: 0 <= k < a.Length && k != j - 1 && k != j ==> a[k] == old(a[k])
    ensures multiset(a[..]) == multiset(old(a[..]))
  {
    a[j - 1], a[j] := a[j], a[j - 1];
  }
}
