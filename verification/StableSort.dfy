/** Stable sorting: what it means, that insertion sort does it, and that nothing else does. */
module StableSort {

  /** A comparison function in the sense of do_compare and compar_t. */
  ghost predicate TotalPreorder<T(!new)>(cmp: (T, T) -> int) {
    && (forall x, y :: cmp(x, y) <= 0 <==> cmp(y, x) >= 0)
    && (forall x, y, z :: cmp(x, y) <= 0 && cmp(y, z) <= 0 ==> cmp(x, z) <= 0)
  }

  ghost predicate Ordered<T>(cmp: (T, T) -> int, s: seq<T>) {
    forall i, j :: 0 <= i < j < |s| ==> cmp(s[i], s[j]) <= 0
  }

  /** The items of s that compare equal to k, in their order. */
  function Equals<T>(cmp: (T, T) -> int, k: T, s: seq<T>): seq<T> {
    if s == [] then []
    else Equals(cmp, k, s[..|s| - 1]) + if cmp(s[|s| - 1], k) == 0 then [s[|s| - 1]] else []
  }

  /** t is ordered, and holds the items of every class of equal items of s in the order of s. */
  ghost predicate StablySorted<T(!new)>(cmp: (T, T) -> int, s: seq<T>, t: seq<T>) {
    Ordered(cmp, t) && forall k :: Equals(cmp, k, t) == Equals(cmp, k, s)
  }

  /** x put behind the last item of s that is not greater. */
  function InsertRight<T>(cmp: (T, T) -> int, s: seq<T>, x: T): seq<T> {
    if s == [] || cmp(s[|s| - 1], x) <= 0 then s + [x]
    else InsertRight(cmp, s[..|s| - 1], x) + [s[|s| - 1]]
  }

  function InsertionSort<T>(cmp: (T, T) -> int, s: seq<T>): (t: seq<T>)
    ensures |t| == |s|
  {
    if s == [] then []
    else
      InsertRightLength(cmp, InsertionSort(cmp, s[..|s| - 1]), s[|s| - 1]);
      InsertRight(cmp, InsertionSort(cmp, s[..|s| - 1]), s[|s| - 1])
  }

  lemma InsertRightLength<T>(cmp: (T, T) -> int, s: seq<T>, x: T)
    ensures |InsertRight(cmp, s, x)| == |s| + 1
  {
  }

  /** InsertRight in terms of the place where x ends up. */
  lemma {:induction false} InsertRightAt<T>(cmp: (T, T) -> int, s: seq<T>, x: T, n: nat)
    requires n <= |s|
    requires n == 0 || cmp(s[n - 1], x) <= 0
    requires forall k :: n <= k < |s| ==> cmp(s[k], x) > 0
    ensures InsertRight(cmp, s, x) == s[..n] + [x] + s[n..]
  {
    if n < |s| {
      var front := s[..|s| - 1];
      InsertRightAt(cmp, front, x, n);
      assert front[..n] == s[..n];
      assert s[n..] == front[n..] + [s[|s| - 1]];
    } else {
      assert s[..n] == s && s[n..] == [];
    }
  }

  /** The place InsertRight puts x. */
  function InsertionPoint<T>(cmp: (T, T) -> int, s: seq<T>, x: T): (n: nat)
    ensures n <= |s|
    ensures n == 0 || cmp(s[n - 1], x) <= 0
    ensures forall k :: n <= k < |s| ==> cmp(s[k], x) > 0
  {
    if s == [] || cmp(s[|s| - 1], x) <= 0 then |s| else InsertionPoint(cmp, s[..|s| - 1], x)
  }

  lemma {:induction false} EqualsConcat<T>(cmp: (T, T) -> int, k: T, s: seq<T>, t: seq<T>)
    ensures Equals(cmp, k, s + t) == Equals(cmp, k, s) + Equals(cmp, k, t)
  {
    if t == [] {
      assert s + t == s;
    } else {
      EqualsConcat(cmp, k, s, t[..|t| - 1]);
      assert (s + t)[..|s + t| - 1] == s + t[..|t| - 1];
    }
  }

  lemma {:induction false} EqualsNone<T>(cmp: (T, T) -> int, k: T, s: seq<T>)
    requires forall i :: 0 <= i < |s| ==> cmp(s[i], k) != 0
    ensures Equals(cmp, k, s) == []
  {
    if s != [] {
      EqualsNone(cmp, k, s[..|s| - 1]);
    }
  }

  lemma {:induction false} EqualsMember<T>(cmp: (T, T) -> int, k: T, s: seq<T>, e: T)
    requires e in Equals(cmp, k, s)
    ensures e in s && cmp(e, k) == 0
  {
    if e in Equals(cmp, k, s[..|s| - 1]) {
      EqualsMember(cmp, k, s[..|s| - 1], e);
    }
  }

  lemma Transitive<T(!new)>(cmp: (T, T) -> int, x: T, y: T, z: T)
    requires TotalPreorder(cmp) && cmp(x, y) <= 0 && cmp(y, z) <= 0
    ensures cmp(x, z) <= 0
  {
  }

  lemma Flip<T(!new)>(cmp: (T, T) -> int, x: T, y: T)
    requires TotalPreorder(cmp)
    ensures cmp(x, y) <= 0 <==> cmp(y, x) >= 0
    ensures cmp(x, y) == 0 <==> cmp(y, x) == 0
  {
  }

  lemma InsertedOrdered<T(!new)>(cmp: (T, T) -> int, s: seq<T>, x: T, n: nat)
    requires TotalPreorder(cmp) && Ordered(cmp, s) && n <= |s|
    requires n == 0 || cmp(s[n - 1], x) <= 0
    requires forall k :: n <= k < |s| ==> cmp(s[k], x) > 0
    ensures Ordered(cmp, s[..n] + [x] + s[n..])
  {
    hide TotalPreorder;
    forall k | 0 <= k < n ensures cmp(s[k], x) <= 0 {
      if k < n - 1 { Transitive(cmp, s[k], s[n - 1], x); }
    }
    forall k | n <= k < |s| ensures cmp(x, s[k]) <= 0 {
      Flip(cmp, x, s[k]);
    }
  }

  lemma InsertedClass<T(!new)>(cmp: (T, T) -> int, s: seq<T>, x: T, n: nat, k: T)
    requires TotalPreorder(cmp) && n <= |s|
    requires forall i :: n <= i < |s| ==> cmp(s[i], x) > 0
    ensures Equals(cmp, k, s[..n] + [x] + s[n..]) == Equals(cmp, k, s) + Equals(cmp, k, [x])
  {
    hide TotalPreorder, Equals;
    var front, back := s[..n], s[n..];
    EqualsConcat(cmp, k, front + [x], back);
    EqualsConcat(cmp, k, front, [x]);
    EqualsConcat(cmp, k, front, back);
    assert s == front + back;
    if cmp(x, k) == 0 {
      forall i | 0 <= i < |back| ensures cmp(back[i], k) != 0 {
        if cmp(s[n + i], k) == 0 {
          Flip(cmp, x, k);
          Transitive(cmp, s[n + i], k, x);
        }
      }
      EqualsNone(cmp, k, back);
    } else {
      EqualsNone(cmp, k, [x]);
    }
  }

  /** Inserting keeps order, and puts x last among its equals. */
  lemma InsertRightStable<T(!new)>(cmp: (T, T) -> int, s: seq<T>, x: T)
    requires TotalPreorder(cmp) && Ordered(cmp, s)
    ensures Ordered(cmp, InsertRight(cmp, s, x))
    ensures forall k :: Equals(cmp, k, InsertRight(cmp, s, x)) == Equals(cmp, k, s) + Equals(cmp, k, [x])
  {
    hide TotalPreorder, Ordered, Equals;
    var n := InsertionPoint(cmp, s, x);
    InsertRightAt(cmp, s, x, n);
    InsertedOrdered(cmp, s, x, n);
    forall k ensures Equals(cmp, k, InsertRight(cmp, s, x)) == Equals(cmp, k, s) + Equals(cmp, k, [x]) {
      InsertedClass(cmp, s, x, n, k);
    }
  }

  /** sort's promise. */
  lemma {:induction false} InsertionSortStable<T(!new)>(cmp: (T, T) -> int, s: seq<T>)
    requires TotalPreorder(cmp)
    ensures StablySorted(cmp, s, InsertionSort(cmp, s))
  {
    hide TotalPreorder, InsertRight;
    if s != [] {
      var front, x := s[..|s| - 1], s[|s| - 1];
      var t := InsertionSort(cmp, front);
      InsertionSortStable(cmp, front);
      InsertRightStable(cmp, t, x);
      assert s == front + [x];
      forall k ensures Equals(cmp, k, InsertRight(cmp, t, x)) == Equals(cmp, k, s) {
        EqualsConcat(cmp, k, front, [x]);
      }
    }
  }

  lemma {:induction false} InsertRightPermutes<T>(cmp: (T, T) -> int, s: seq<T>, x: T)
    ensures multiset(InsertRight(cmp, s, x)) == multiset(s) + multiset{x}
  {
    if s != [] && cmp(s[|s| - 1], x) > 0 {
      InsertRightPermutes(cmp, s[..|s| - 1], x);
      assert s == s[..|s| - 1] + [s[|s| - 1]];
    }
  }

  lemma {:induction false} InsertionSortPermutes<T>(cmp: (T, T) -> int, s: seq<T>)
    ensures multiset(InsertionSort(cmp, s)) == multiset(s)
  {
    if s != [] {
      InsertionSortPermutes(cmp, s[..|s| - 1]);
      InsertRightPermutes(cmp, InsertionSort(cmp, s[..|s| - 1]), s[|s| - 1]);
      assert s == s[..|s| - 1] + [s[|s| - 1]];
    }
  }

  lemma FirstOfClass<T(!new)>(cmp: (T, T) -> int, k: T, s: seq<T>)
    requires s != []
    ensures Equals(cmp, k, s) == (if cmp(s[0], k) == 0 then [s[0]] else []) + Equals(cmp, k, s[1..])
  {
    EqualsConcat(cmp, k, [s[0]], s[1..]);
    assert s == [s[0]] + s[1..];
    assert [s[0]][..0] == [];
  }

  lemma LeastIsLeast<T(!new)>(cmp: (T, T) -> int, s: seq<T>, t: seq<T>)
    requires TotalPreorder(cmp) && Ordered(cmp, s)
    requires t != [] && Equals(cmp, t[0], s) == Equals(cmp, t[0], t)
    ensures s != [] && cmp(s[0], t[0]) <= 0
  {
    assert cmp(t[0], t[0]) == 0;
    hide TotalPreorder;
    FirstOfClass(cmp, t[0], t);
    assert Equals(cmp, t[0], s)[0] == t[0];
    EqualsMember(cmp, t[0], s, t[0]);
    var i :| 0 <= i < |s| && s[i] == t[0];
  }

  lemma SameHead<T(!new)>(cmp: (T, T) -> int, s: seq<T>, t: seq<T>)
    requires TotalPreorder(cmp) && Ordered(cmp, s) && Ordered(cmp, t) && s != [] && t != []
    requires forall k :: Equals(cmp, k, s) == Equals(cmp, k, t)
    ensures s[0] == t[0]
  {
    LeastIsLeast(cmp, s, t);
    LeastIsLeast(cmp, t, s);
    assert cmp(t[0], s[0]) == 0 by { Flip(cmp, s[0], t[0]); Flip(cmp, t[0], s[0]); }
    assert cmp(s[0], s[0]) == 0;
    hide TotalPreorder, Ordered, Equals;
    FirstOfClass(cmp, s[0], s);
    FirstOfClass(cmp, s[0], t);
    assert Equals(cmp, s[0], s)[0] == s[0] && Equals(cmp, s[0], t)[0] == t[0];
  }

  /** A sequence has one stably sorted form. */
  lemma {:induction false} StablySortedUnique<T(!new)>(cmp: (T, T) -> int, s: seq<T>, t: seq<T>)
    requires TotalPreorder(cmp) && Ordered(cmp, s) && Ordered(cmp, t)
    requires forall k :: Equals(cmp, k, s) == Equals(cmp, k, t)
    ensures s == t
  {
    hide TotalPreorder, Equals;
    if s == [] && t != [] {
      LeastIsLeast(cmp, s, t);
    } else if s != [] && t == [] {
      LeastIsLeast(cmp, t, s);
    } else if s != [] {
      SameHead(cmp, s, t);
      forall k ensures Equals(cmp, k, s[1..]) == Equals(cmp, k, t[1..]) {
        FirstOfClass(cmp, k, s);
        FirstOfClass(cmp, k, t);
        assert Equals(cmp, k, s) == Equals(cmp, k, t);
        var head := if cmp(s[0], k) == 0 then [s[0]] else [];
        assert Equals(cmp, k, s[1..]) == Equals(cmp, k, s)[|head|..];
        assert Equals(cmp, k, t[1..]) == Equals(cmp, k, t)[|head|..];
      }
      StablySortedUnique(cmp, s[1..], t[1..]);
      assert s == [s[0]] + s[1..] && t == [t[0]] + t[1..];
    }
  }

  /** What sort leaves untouched: a sequence in which no item is greater than its successor. */
  ghost predicate NoInversion<T>(cmp: (T, T) -> int, s: seq<T>) {
    forall i :: 0 < i < |s| ==> cmp(s[i - 1], s[i]) <= 0
  }

  lemma {:induction false} NothingToSort<T>(cmp: (T, T) -> int, s: seq<T>)
    requires NoInversion(cmp, s)
    ensures InsertionSort(cmp, s) == s
  {
    if s != [] {
      var front, last := s[..|s| - 1], s[|s| - 1];
      NothingToSort(cmp, front);
      assert front != [] ==> cmp(s[|s| - 2], last) <= 0;
      assert InsertRight(cmp, front, last) == front + [last];
      hide InsertRight, NoInversion;
      assert s == front + [last];
    }
  }

  /** Sorting changes a sequence exactly when it has an inversion. */
  lemma ChangedWhenInverted<T(!new)>(cmp: (T, T) -> int, s: seq<T>)
    requires TotalPreorder(cmp)
    ensures InsertionSort(cmp, s) == s <==> NoInversion(cmp, s)
  {
    InsertionSortStable(cmp, s);
    if NoInversion(cmp, s) { NothingToSort(cmp, s); }
    hide InsertionSort;
  }
}
