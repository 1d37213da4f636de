/**
 * Stable in-place sorting by a caller-supplied "less" function, as
 * sort.SliceStable does. The in-place insertion sort is proved equal to a
 * functional insertion sort, and that function is proved to return a sorted
 * permutation of its input that keeps the relative order of equivalent
 * elements.
 */
module StableSort {

  predicate TransitiveAt<T>(less: (T, T) -> bool, x: T, y: T, z: T)
  {
    less(x, y) && less(y, z) ==> less(x, z)
  }

  /** If x sorts before z, every y sorts after x or before z. */
  predicate NegTransitiveAt<T>(less: (T, T) -> bool, x: T, y: T, z: T)
  {
    less(x, z) ==> less(x, y) || less(y, z)
  }

  /** What Go's sort package asks of a less function: irreflexive,
      transitive, and with incomparability transitive (stated here as
      "negatively transitive"). The two three-place laws are instantiated
      only where a proof names them. */
  ghost predicate StrictWeakOrder<T(!new)>(less: (T, T) -> bool)
  {
    && (forall x :: !less(x, x))
    && (forall x, y, z {:trigger TransitiveAt(less, x, y, z)} :: TransitiveAt(less, x, y, z))
    && (forall x, y, z {:trigger NegTransitiveAt(less, x, y, z)} :: NegTransitiveAt(less, x, y, z))
  }

  /** Neither sorts before the other: the sort must keep their order. */
  predicate Equivalent<T>(less: (T, T) -> bool, x: T, y: T)
  {
    !less(x, y) && !less(y, x)
  }

  /** The later of two positions does not sort before the earlier one. */
  predicate InOrderAt<T>(less: (T, T) -> bool, s: seq<T>, i: int, j: int)
  {
    0 <= i < j < |s| ==> !less(s[j], s[i])
  }

  /** No element sorts before one ahead of it. Instantiated only where a
      proof names a pair of positions. */
  ghost predicate Sorted<T>(less: (T, T) -> bool, s: seq<T>)
  {
    forall i, j {:trigger InOrderAt(less, s, i, j)} :: InOrderAt(less, s, i, j)
  }

  /** The elements of s equivalent to y, in their order in s. */
  function ClassOf<T>(less: (T, T) -> bool, s: seq<T>, y: T): seq<T>
    decreases |s|
  {
    if s == [] then []
    else (if Equivalent(less, s[0], y) then [s[0]] else []) + ClassOf(less, s[1..], y)
  }

  /** x placed after every element it does not sort before. */
  function Insert<T>(less: (T, T) -> bool, s: seq<T>, x: T): seq<T>
    decreases |s|
  {
    if s == [] then [x]
    else if less(x, s[0]) then [x] + s
    else [s[0]] + Insert(less, s[1..], x)
  }

  lemma {:induction false} InsertPermutes<T>(less: (T, T) -> bool, s: seq<T>, x: T)
    ensures multiset(Insert(less, s, x)) == multiset(s) + multiset{x}
    decreases |s|
  {
    if s != [] && !less(x, s[0]) {
      InsertPermutes(less, s[1..], x);
      assert s == [s[0]] + s[1..];
    }
  }

  /** An element that nothing in a sorted sequence sorts before can go in
      front of it. */
  lemma SortedCons<T>(less: (T, T) -> bool, e: T, t: seq<T>)
    requires Sorted(less, t)
    requires forall k :: 0 <= k < |t| ==> !less(t[k], e)
    ensures Sorted(less, [e] + t)
  {
    var r := [e] + t;
    forall i, j ensures InOrderAt(less, r, i, j) {
      if 0 < i < j < |r| {
        assert InOrderAt(less, t, i - 1, j - 1);
      }
    }
  }

  lemma {:induction false} InsertSorted<T(!new)>(less: (T, T) -> bool, s: seq<T>, x: T)
    requires StrictWeakOrder(less) && Sorted(less, s)
    ensures Sorted(less, Insert(less, s, x))
    decreases |s|
  {
    if s == [] {
      SortedCons(less, x, s);
      assert [x] + s == [x];
    } else if less(x, s[0]) {
      forall k | 0 <= k < |s| ensures !less(s[k], x) {
        assert TransitiveAt(less, s[k], x, s[0]);
        assert InOrderAt(less, s, 0, k);
      }
      SortedCons(less, x, s);
    } else {
      SortedTail(less, s);
      InsertSorted(less, s[1..], x);
      var t := Insert(less, s[1..], x);
      InsertPermutes(less, s[1..], x);
      forall k | 0 <= k < |t| ensures !less(t[k], s[0]) {
        assert t[k] in multiset(t);
        if t[k] != x {
          assert t[k] in multiset(s[1..]);
          var i :| 0 <= i < |s[1..]| && s[1..][i] == t[k];
          assert InOrderAt(less, s, 0, i + 1);
        }
      }
      SortedCons(less, s[0], t);
    }
  }

  /** The functional insertion sort, inserting the elements left to right. */
  function InsertionSort<T>(less: (T, T) -> bool, s: seq<T>): seq<T>
    decreases |s|
  {
    if s == [] then [] else Insert(less, InsertionSort(less, s[..|s| - 1]), s[|s| - 1])
  }

  /** The sort returns a permutation of its input. */
  lemma {:induction false} InsertionSortPermutes<T>(less: (T, T) -> bool, s: seq<T>)
    ensures multiset(InsertionSort(less, s)) == multiset(s)
    decreases |s|
  {
    if s != [] {
      InsertionSortPermutes(less, s[..|s| - 1]);
      InsertPermutes(less, InsertionSort(less, s[..|s| - 1]), s[|s| - 1]);
      assert s == s[..|s| - 1] + [s[|s| - 1]];
    }
  }

  /** The sort returns its input in order. */
  lemma {:induction false} InsertionSortSorted<T(!new)>(less: (T, T) -> bool, s: seq<T>)
    requires StrictWeakOrder(less)
    ensures Sorted(less, InsertionSort(less, s))
    decreases |s|
  {
    if s != [] {
      InsertionSortSorted(less, s[..|s| - 1]);
      InsertSorted(less, InsertionSort(less, s[..|s| - 1]), s[|s| - 1]);
    }
  }

  lemma {:induction false} ClassOfAppend<T>(less: (T, T) -> bool, a: seq<T>, b: seq<T>, y: T)
    ensures ClassOf(less, a + b, y) == ClassOf(less, a, y) + ClassOf(less, b, y)
    decreases |a|
  {
    if a == [] {
      assert a + b == b;
    } else {
      ClassOfAppend(less, a[1..], b, y);
      assert (a + b)[1..] == a[1..] + b;
      var head := if Equivalent(less, a[0], y) then [a[0]] else [];
      assert ClassOf(less, a + b, y) == head + ClassOf(less, a[1..] + b, y);
    }
  }

  /** Nothing above x is equivalent to anything equivalent to x. */
  lemma {:induction false} ClassOfAbove<T(!new)>(less: (T, T) -> bool, s: seq<T>, x: T, y: T)
    requires StrictWeakOrder(less) && Equivalent(less, x, y)
    requires forall k :: 0 <= k < |s| ==> less(x, s[k])
    ensures ClassOf(less, s, y) == []
    decreases |s|
  {
    if s != [] {
      assert less(x, s[0]) && NegTransitiveAt(less, x, y, s[0]);
      ClassOfAbove(less, s[1..], x, y);
    }
  }

  lemma ClassOfSingle<T>(less: (T, T) -> bool, e: T, y: T)
    ensures ClassOf(less, [e], y) == if Equivalent(less, e, y) then [e] else []
  {
    assert [e][1..] == [];
  }

  lemma {:induction false} InsertClass<T(!new)>(less: (T, T) -> bool, s: seq<T>, x: T, y: T)
    requires StrictWeakOrder(less) && Sorted(less, s)
    ensures ClassOf(less, Insert(less, s, x), y)
         == ClassOf(less, s, y) + (if Equivalent(less, x, y) then [x] else [])
    decreases |s|
  {
    ClassOfSingle(less, x, y);
    if s == [] {
      assert Insert(less, s, x) == [x];
      assert ClassOf(less, s, y) == [];
    } else if less(x, s[0]) {
      assert Insert(less, s, x) == [x] + s;
      ClassOfAppend(less, [x], s, y);
      if Equivalent(less, x, y) {
        forall k | 0 <= k < |s| ensures less(x, s[k]) {
          assert InOrderAt(less, s, 0, k) && NegTransitiveAt(less, x, s[k], s[0]);
        }
        ClassOfAbove(less, s, x, y);
      }
    } else {
      SortedTail(less, s);
      InsertClass(less, s[1..], x, y);
      var t := Insert(less, s[1..], x);
      assert Insert(less, s, x) == [s[0]] + t;
      ClassOfAppend(less, [s[0]], t, y);
      assert s == [s[0]] + s[1..];
      ClassOfAppend(less, [s[0]], s[1..], y);
    }
  }

  /** Stability: the sort keeps every class of equivalent elements in its
      original order. */
  lemma {:induction false} InsertionSortStable<T(!new)>(less: (T, T) -> bool, s: seq<T>, y: T)
    requires StrictWeakOrder(less)
    ensures ClassOf(less, InsertionSort(less, s), y) == ClassOf(less, s, y)
    decreases |s|
  {
    if s != [] {
      var init, x := s[..|s| - 1], s[|s| - 1];
      assert s == init + [x];
      var sorted := InsertionSort(less, init);
      assert InsertionSort(less, s) == Insert(less, sorted, x);
      InsertionSortStable(less, init, y);
      InsertionSortSorted(less, init);
      InsertClass(less, sorted, x, y);
      ClassOfAppend(less, init, [x], y);
      assert ClassOf(less, [x], y) == if Equivalent(less, x, y) then [x] else [];
    }
  }

  /** Where an element goes into a sorted sequence: after those it does not
      sort before, ahead of those it sorts before. */
  lemma {:induction false} InsertAt<T(!new)>(less: (T, T) -> bool, s: seq<T>, x: T, j: nat)
    requires StrictWeakOrder(less) && Sorted(less, s)
    requires j <= |s|
    requires j == 0 || !less(x, s[j - 1])
    requires forall k :: j <= k < |s| ==> less(x, s[k])
    ensures Insert(less, s, x) == s[..j] + [x] + s[j..]
    decreases |s|
  {
    if s != [] {
      if j > 0 {
        NotBeforeFirst(less, s, x, j);
      }
      if !less(x, s[0]) {
        assert j > 0;
        SortedTail(less, s);
        assert forall k :: j - 1 <= k < |s| - 1 ==> less(x, s[1..][k]) by {
          forall k | j - 1 <= k < |s| - 1 ensures less(x, s[1..][k]) {
            assert s[1..][k] == s[k + 1];
          }
        }
        assert j - 1 == 0 || s[1..][j - 2] == s[j - 1];
        InsertAt(less, s[1..], x, j - 1);
        assert s[..j] == [s[0]] + s[1..][..j - 1];
        assert s[j..] == s[1..][j - 1..];
      }
    }
  }

  /** Dropping the first element keeps a sequence sorted. */
  lemma SortedTail<T>(less: (T, T) -> bool, s: seq<T>)
    requires Sorted(less, s) && s != []
    ensures Sorted(less, s[1..])
  {
    forall i, j ensures InOrderAt(less, s[1..], i, j) {
      assert InOrderAt(less, s, i + 1, j + 1);
    }
  }

  /** What x does not sort before in a sorted sequence, it does not sort
      before the first element either. */
  lemma NotBeforeFirst<T(!new)>(less: (T, T) -> bool, s: seq<T>, x: T, j: nat)
    requires StrictWeakOrder(less) && Sorted(less, s)
    requires 0 < j <= |s| && !less(x, s[j - 1])
    ensures !less(x, s[0])
  {
    assert NegTransitiveAt(less, x, s[j - 1], s[0]);
    assert InOrderAt(less, s, 0, j - 1);
  }

  /** A class holds only elements of s equivalent to y. */
  lemma {:induction false} ClassOfMember<T>(less: (T, T) -> bool, s: seq<T>, y: T, x: T)
    requires x in ClassOf(less, s, y)
    ensures x in s && Equivalent(less, x, y)
    decreases |s|
  {
    if x != s[0] || !Equivalent(less, s[0], y) {
      ClassOfMember(less, s[1..], y, x);
    }
  }

  /** Two sorted sequences that agree on every class of equivalent elements
      are equal: a stable sort's result is determined by its input. */
  lemma {:induction false} StableSortUnique<T(!new)>(less: (T, T) -> bool, r1: seq<T>, r2: seq<T>)
    requires StrictWeakOrder(less) && Sorted(less, r1) && Sorted(less, r2)
    requires forall y :: ClassOf(less, r1, y) == ClassOf(less, r2, y)
    ensures r1 == r2
    decreases |r1| + |r2|
  {
    if r1 != [] {
      assert ClassOf(less, r1, r1[0]) != [] by { assert Equivalent(less, r1[0], r1[0]); }
    }
    if r2 != [] {
      assert ClassOf(less, r2, r2[0]) != [] by { assert Equivalent(less, r2[0], r2[0]); }
    }
    if r1 != [] && r2 != [] {
      var a, b := r1[0], r2[0];
      assert !less(a, b) by {
        assert Equivalent(less, a, a);
        assert a in ClassOf(less, r2, a);
        ClassOfMember(less, r2, a, a);
        var j :| 0 <= j < |r2| && r2[j] == a;
        assert InOrderAt(less, r2, 0, j);
      }
      assert !less(b, a) by {
        assert Equivalent(less, b, b);
        assert b in ClassOf(less, r1, b);
        ClassOfMember(less, r1, b, b);
        var j :| 0 <= j < |r1| && r1[j] == b;
        assert InOrderAt(less, r1, 0, j);
      }
      assert a == b by {
        assert ClassOf(less, r1, a)[0] == a;
        assert ClassOf(less, r2, a)[0] == b;
      }
      forall y ensures ClassOf(less, r1[1..], y) == ClassOf(less, r2[1..], y) {
        var head := if Equivalent(less, a, y) then [a] else [];
        assert ClassOf(less, r1, y) == head + ClassOf(less, r1[1..], y);
        assert ClassOf(less, r2, y) == head + ClassOf(less, r2[1..], y);
        assert ClassOf(less, r1[1..], y) == ClassOf(less, r1, y)[|head|..];
      }
      SortedTail(less, r1);
      SortedTail(less, r2);
      StableSortUnique(less, r1[1..], r2[1..]);
      assert r1 == [a] + r1[1..] && r2 == [b] + r2[1..];
    }
  }

  /** Whatever stable sort produced r -- sort.SliceStable's own algorithm
      included -- r is the insertion sort of s. */
  lemma StableSortIsInsertionSort<T(!new)>(less: (T, T) -> bool, s: seq<T>, r: seq<T>)
    requires StrictWeakOrder(less) && Sorted(less, r)
    requires forall y :: ClassOf(less, r, y) == ClassOf(less, s, y)
    ensures r == InsertionSort(less, s)
  {
    var t := InsertionSort(less, s);
    InsertionSortSorted(less, s);
    forall y ensures ClassOf(less, r, y) == ClassOf(less, t, y) {
      InsertionSortStable(less, s, y);
    }
    StableSortUnique(less, r, t);
  }

  /** One step of the in-place sort: a[i] moves left past every element of
      the sorted prefix a[..i] that it sorts before. */
  method InsertLast<T(!new)>(a: array<T>, i: nat, less: (T, T) -> bool)
    requires StrictWeakOrder(less)
    requires i < a.Length && Sorted(less, a[..i])
    modifies a
    ensures a[..i + 1] == Insert(less, old(a[..i]), old(a[i]))
    ensures a[i + 1..] == old(a[i + 1..])
  {
    var x := a[i];
    ghost var sorted := a[..i];
    var j := i;
    while j > 0 && less(x, a[j - 1])
      invariant 0 <= j <= i
      invariant forall k :: 0 <= k < j ==> a[k] == sorted[k]
      invariant forall k :: j < k <= i ==> a[k] == sorted[k - 1]
      invariant forall k :: j <= k < i ==> less(x, sorted[k])
      invariant forall k :: i < k < a.Length ==> a[k] == old(a[k])
    {
      a[j] := a[j - 1];
      j := j - 1;
    }
    a[j] := x;
    InsertAt(less, sorted, x, j);
    assert a[..i + 1] == sorted[..j] + [x] + sorted[j..];
    assert a[i + 1..] == old(a[i + 1..]);
  }

  /** One outer step of the in-place sort, on values: inserting s[i] into
      the sorted prefix extends the sorted prefix by one. */
  lemma SortStep<T>(less: (T, T) -> bool, s: seq<T>, i: nat, prev: seq<T>, next: seq<T>)
    requires i < |s| == |prev| == |next|
    requires prev[..i] == InsertionSort(less, s[..i]) && prev[i..] == s[i..]
    requires next[..i + 1] == Insert(less, prev[..i], prev[i]) && next[i + 1..] == prev[i + 1..]
    ensures next[..i + 1] == InsertionSort(less, s[..i + 1]) && next[i + 1..] == s[i + 1..]
  {
    assert prev[i] == s[i] && prev[i + 1..] == s[i + 1..] by { assert prev[i..] == [prev[i]] + prev[i + 1..]; }
    var t := s[..i + 1];
    assert t[..|t| - 1] == s[..i] && t[|t| - 1] == s[i];
    assert InsertionSort(less, t) == Insert(less, InsertionSort(less, s[..i]), s[i]);
  }

  /** sort.SliceStable: sorts a in place; the result is the functional
      insertion sort of the old contents. */
  method InsertionSortInPlace<T(!new)>(a: array<T>, less: (T, T) -> bool)
    requires StrictWeakOrder(less)
    modifies a
    ensures a[..] == InsertionSort(less, old(a[..]))
  {
    ghost var s := a[..];
    var i := 0;
    while i < a.Length
      invariant 0 <= i <= a.Length
      invariant a[..i] == InsertionSort(less, s[..i])
      invariant a[i..] == s[i..]
    {
      ghost var prev := a[..];
      InsertionSortSorted(less, s[..i]);
      InsertLast(a, i, less);
      SortStep(less, s, i, prev, a[..]);
      i := i + 1;
    }
    assert a[..] == a[..a.Length] && s[..a.Length] == s;
  }
}
