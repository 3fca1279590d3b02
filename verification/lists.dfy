/** The few list operations the calendar uses: LINQ OrderBy/ThenBy (a stable
    sort on a total preorder), List.Remove (drop the first occurrence) and the
    no-duplicates invariant. */
module Lists {

  /** The elements of a sequence, without order or multiplicity. */
  function Elements<T>(s: seq<T>): set<T>
  {
    set x | x in s
  }

  /** Every value occurs at most once. */
  ghost predicate NoDuplicates<T(!new)>(s: seq<T>)
  {
    forall x :: multiset(s)[x] <= 1
  }

  ghost predicate TotalPreorder<T(!new)>(le: (T, T) -> bool)
  {
    && (forall x, y :: le(x, y) || le(y, x))
    && (forall x, y, z :: le(x, y) && le(y, z) ==> le(x, z))
  }

  ghost predicate Sorted<T(!new)>(s: seq<T>, le: (T, T) -> bool)
  {
    forall i, j :: 0 <= i < j < |s| ==> le(s[i], s[j])
  }

  /** Insert `x` into a sorted sequence, after every element not above it. */
  function Insert<T(!new)>(x: T, s: seq<T>, le: (T, T) -> bool): (r: seq<T>)
    requires TotalPreorder(le)
    requires Sorted(s, le)
    ensures Sorted(r, le)
    ensures multiset(r) == multiset(s) + multiset{x}
    ensures forall i :: 0 <= i < |r| ==> r[i] == x || r[i] in s
    decreases |s|
  {
    if |s| == 0 then [x]
    else if le(x, s[0]) && !le(s[0], x) then [x] + s
    else
      assert s == [s[0]] + s[1..];
      var rest := Insert(x, s[1..], le);
      assert le(s[0], x);
      assert forall y :: y in s[1..] ==> le(s[0], y);
      [s[0]] + rest
  }

  /** Insertion sort: a sorted permutation of `s`. */
  function Sort<T(!new)>(s: seq<T>, le: (T, T) -> bool): (r: seq<T>)
    requires TotalPreorder(le)
    ensures Sorted(r, le)
    ensures multiset(r) == multiset(s)
    decreases |s|
  {
    if |s| == 0 then []
    else
      assert s == s[..|s| - 1] + [s[|s| - 1]];
      Insert(s[|s| - 1], Sort(s[..|s| - 1], le), le)
  }

  /** Sorting a sequence that is already sorted gives it back unchanged. */
  lemma {:induction false} SortOfSorted<T(!new)>(s: seq<T>, le: (T, T) -> bool)
    requires TotalPreorder(le)
    requires Sorted(s, le)
    ensures Sort(s, le) == s
    decreases |s|
  {
    if |s| > 0 {
      var init, last := s[..|s| - 1], s[|s| - 1];
      assert Sorted(init, le);
      SortOfSorted(init, le);
      InsertAfterAll(last, init, le);
      assert init + [last] == s;
    }
  }

  /** Inserting an element that no element of `s` is strictly above appends it. */
  lemma {:induction false} InsertAfterAll<T(!new)>(x: T, s: seq<T>, le: (T, T) -> bool)
    requires TotalPreorder(le)
    requires Sorted(s, le)
    requires forall i :: 0 <= i < |s| ==> le(s[i], x)
    ensures Insert(x, s, le) == s + [x]
    decreases |s|
  {
    if |s| > 0 {
      InsertAfterAll(x, s[1..], le);
      assert [s[0]] + (s[1..] + [x]) == s + [x];
    }
  }

  /** A permutation of a duplicate-free sequence is duplicate-free. */
  lemma PermutationKeepsNoDuplicates<T(!new)>(s: seq<T>, t: seq<T>)
    requires multiset(s) == multiset(t)
    requires NoDuplicates(s)
    ensures NoDuplicates(t)
  {
  }

  /** The rest of a duplicate-free sequence is duplicate-free and lacks its head. */
  lemma NoDuplicatesTail<T(!new)>(s: seq<T>)
    requires NoDuplicates(s) && |s| > 0
    ensures NoDuplicates(s[1..]) && s[0] !in s[1..]
  {
    assert s == [s[0]] + s[1..];
    assert multiset(s) == multiset{s[0]} + multiset(s[1..]);
    forall x ensures multiset(s[1..])[x] <= 1 {
      assert multiset(s)[x] <= 1;
    }
    assert multiset(s)[s[0]] <= 1;
  }

  /** Permutations have the same elements. */
  lemma PermutationSameElements<T>(s: seq<T>, t: seq<T>)
    requires multiset(s) == multiset(t)
    ensures Elements(s) == Elements(t)
  {
    forall x ensures x in s <==> x in t {
      assert x in s <==> multiset(s)[x] > 0;
      assert x in t <==> multiset(t)[x] > 0;
    }
  }

  /** List.Remove: drop the first occurrence of `x`, if any. */
  function RemoveFirst<T(==)>(s: seq<T>, x: T): (r: seq<T>)
    ensures x !in s ==> r == s
    ensures x in s ==> multiset(r) == multiset(s) - multiset{x}
    ensures x in s ==> |r| == |s| - 1
  {
    if |s| == 0 then s
    else
      assert s == [s[0]] + s[1..];
      if s[0] == x then s[1..] else [s[0]] + RemoveFirst(s[1..], x)
  }

  /** Removing what was just appended, when it was not there before, restores the list. */
  lemma {:induction false} RemoveFirstUndoesAppend<T>(s: seq<T>, x: T)
    requires x !in s
    ensures RemoveFirst(s + [x], x) == s
    decreases |s|
  {
    if |s| > 0 {
      assert (s + [x])[1..] == s[1..] + [x];
      RemoveFirstUndoesAppend(s[1..], x);
      assert [s[0]] + s[1..] == s;
    }
  }
}
