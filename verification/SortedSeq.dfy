/** Ordered sequences as finite maps: what SortedVectorImpl's operations compute. */
module SortedSeq {
  import opened Options
  import opened StableSort

  ghost predicate Strict<T>(cmp: (T, T) -> int, s: seq<T>) {
    forall i, j :: 0 <= i < j < |s| ==> cmp(s[i], s[j]) < 0
  }

  /** The item that compares equal to k. */
  function Lookup<T>(cmp: (T, T) -> int, s: seq<T>, k: T): Option<T> {
    if s == [] then None
    else if cmp(s[0], k) == 0 then Some(s[0])
    else Lookup(cmp, s[1..], k)
  }

  function Added<T>(cmp: (T, T) -> int, s: seq<T>, x: T): seq<T> {
    if s == [] then [x]
    else if cmp(s[0], x) < 0 then [s[0]] + Added(cmp, s[1..], x)
    else if cmp(s[0], x) == 0 then [x] + s[1..]
    else [x] + s
  }

  function Removed<T>(cmp: (T, T) -> int, s: seq<T>, k: T): seq<T> {
    if s == [] then []
    else if cmp(s[0], k) == 0 then s[1..]
    else [s[0]] + Removed(cmp, s[1..], k)
  }

  /** Item by item, which is how merge works unless it finds the two vectors one behind the other. */
  function AddedAll<T>(cmp: (T, T) -> int, s: seq<T>, w: seq<T>): seq<T> {
    if w == [] then s else Added(cmp, AddedAll(cmp, s, w[..|w| - 1]), w[|w| - 1])
  }

  /** merge of two sorted vectors. */
  function Merged<T>(cmp: (T, T) -> int, s: seq<T>, w: seq<T>): seq<T>
    requires s != []
  {
    if w == [] then s
    else if cmp(w[|w| - 1], s[0]) <= 0 then w + s
    else if cmp(w[0], s[|s| - 1]) >= 0 then s + w
    else AddedAll(cmp, s, w)
  }

  // ----- the place of an item

  /** order is where x is, or where it belongs. */
  ghost predicate Place<T>(cmp: (T, T) -> int, s: seq<T>, x: T, found: bool, order: nat) {
    && order <= |s|
    && if found then order < |s| && cmp(s[order], x) == 0
       else (forall k :: 0 <= k < order ==> cmp(s[k], x) < 0) && (forall k :: order <= k < |s| ==> cmp(s[k], x) > 0)
  }

  lemma StrictSmaller<T(!new)>(cmp: (T, T) -> int, s: seq<T>, x: T, order: nat)
    requires TotalPreorder(cmp) && Strict(cmp, s) && order < |s| && cmp(s[order], x) == 0
    ensures forall k :: 0 <= k < order ==> cmp(s[k], x) < 0
    ensures forall k :: order < k < |s| ==> cmp(s[k], x) > 0
  {
    hide TotalPreorder;
    forall k | 0 <= k < order ensures cmp(s[k], x) < 0 {
      Below(cmp, s[k], s[order], x);
    }
    forall k | order < k < |s| ensures cmp(s[k], x) > 0 {
      Below(cmp, x, s[order], s[k]);
      Flip(cmp, x, s[order]);
      Flip(cmp, s[k], x);
      Flip(cmp, x, s[k]);
    }
  }

  lemma Below<T(!new)>(cmp: (T, T) -> int, x: T, y: T, z: T)
    requires TotalPreorder(cmp)
    ensures cmp(x, y) < 0 && cmp(y, z) <= 0 ==> cmp(x, z) < 0
    ensures (cmp(x, y) == 0 || cmp(y, x) == 0) && cmp(y, z) < 0 ==> cmp(x, z) < 0
  {
    Flip(cmp, x, y);
    Flip(cmp, x, z);
    Flip(cmp, y, z);
    Flip(cmp, z, x);
    Flip(cmp, z, y);
    if cmp(x, y) < 0 && cmp(y, z) <= 0 {
      Transitive(cmp, x, y, z);
      if cmp(x, z) == 0 { Transitive(cmp, y, z, x); }
    }
    if (cmp(x, y) == 0 || cmp(y, x) == 0) && cmp(y, z) < 0 {
      Transitive(cmp, x, y, z);
      if cmp(x, z) == 0 { Transitive(cmp, z, x, y); }
    }
  }

  lemma PlaceInTail<T>(cmp: (T, T) -> int, s: seq<T>, x: T, found: bool, order: nat)
    requires Strict(cmp, s) && Place(cmp, s, x, found, order) && order > 0
    ensures Strict(cmp, s[1..]) && Place(cmp, s[1..], x, found, order - 1)
  {
    forall k | 0 <= k < |s| - 1 ensures s[1..][k] == s[k + 1] {
    }
  }

  lemma ShiftByOne<T>(s: seq<T>, x: T, order: nat)
    requires 0 < order <= |s|
    ensures s[..order] + [x] + s[order..] == [s[0]] + (s[1..][..order - 1] + [x] + s[1..][order - 1..])
    ensures order < |s| ==> s[order := x] == [s[0]] + s[1..][order - 1 := x]
    ensures order < |s| ==> s[..order] + s[order + 1..] == [s[0]] + (s[1..][..order - 1] + s[1..][order..])
  {
  }

  lemma {:induction false} AddedAt<T(!new)>(cmp: (T, T) -> int, s: seq<T>, x: T, found: bool, order: nat)
    requires TotalPreorder(cmp) && Strict(cmp, s) && Place(cmp, s, x, found, order)
    ensures Added(cmp, s, x) == if found then s[order := x] else s[..order] + [x] + s[order..]
  {
    hide TotalPreorder;
    if order == 0 {
      if found { assert s[0 := x] == [x] + s[1..]; } else { assert s[..0] + [x] + s[0..] == [x] + s; }
    } else {
      if found { StrictSmaller(cmp, s, x, order); }
      assert cmp(s[0], x) < 0;
      PlaceInTail(cmp, s, x, found, order);
      assert order <= |s| && (found ==> order < |s|);
      var r := s[1..];
      assert Added(cmp, s, x) == [s[0]] + Added(cmp, r, x);
      hide Strict, Place, Added;
      AddedAt(cmp, r, x, found, order - 1);
      ShiftByOne(s, x, order);
    }
  }

  lemma {:induction false} RemovedNone<T>(cmp: (T, T) -> int, s: seq<T>, x: T)
    requires forall k :: 0 <= k < |s| ==> cmp(s[k], x) != 0
    ensures Removed(cmp, s, x) == s
  {
    if s != [] {
      RemovedNone(cmp, s[1..], x);
      assert s == [s[0]] + s[1..];
    }
  }

  lemma {:induction false} RemovedAt<T(!new)>(cmp: (T, T) -> int, s: seq<T>, x: T, found: bool, order: nat)
    requires TotalPreorder(cmp) && Strict(cmp, s) && Place(cmp, s, x, found, order)
    ensures Removed(cmp, s, x) == if found then s[..order] + s[order + 1..] else s
  {
    hide TotalPreorder;
    if !found {
      RemovedNone(cmp, s, x);
    } else if order == 0 {
      assert s[..0] + s[1..] == s[1..];
    } else {
      StrictSmaller(cmp, s, x, order);
      assert cmp(s[0], x) < 0;
      PlaceInTail(cmp, s, x, found, order);
      assert order <= |s| && (found ==> order < |s|);
      var r := s[1..];
      assert Removed(cmp, s, x) == [s[0]] + Removed(cmp, r, x);
      hide Strict, Place, Removed;
      RemovedAt(cmp, r, x, found, order - 1);
      ShiftByOne(s, x, order);
    }
  }

  // ----- the map laws

  /** A place for x exists. */
  lemma {:induction false} PlaceExists<T(!new)>(cmp: (T, T) -> int, s: seq<T>, x: T) returns (found: bool, order: nat)
    requires TotalPreorder(cmp) && Strict(cmp, s)
    ensures Place(cmp, s, x, found, order)
  {
    if s == [] {
      found, order := false, 0;
    } else if cmp(s[0], x) == 0 {
      found, order := true, 0;
    } else if cmp(s[0], x) > 0 {
      found, order := false, 0;
      forall k | 0 <= k < |s| ensures cmp(s[k], x) > 0 {
        hide TotalPreorder;
        if k > 0 {
          Flip(cmp, s[0], x);
          Flip(cmp, x, s[0]);
          Below(cmp, x, s[0], s[k]);
          Flip(cmp, s[k], x);
          Flip(cmp, x, s[k]);
        }
      }
    } else {
      found, order := PlaceExists(cmp, s[1..], x);
      order := order + 1;
    }
  }

  lemma AddedStrict<T(!new)>(cmp: (T, T) -> int, s: seq<T>, x: T)
    requires TotalPreorder(cmp) && Strict(cmp, s)
    ensures Strict(cmp, Added(cmp, s, x))
  {
    var found, order := PlaceExists(cmp, s, x);
    AddedAt(cmp, s, x, found, order);
    if found { StrictSmaller(cmp, s, x, order); }
    hide TotalPreorder, Added, Place;
    forall k | 0 <= k < |s| && cmp(s[k], x) > 0 ensures cmp(x, s[k]) < 0 {
      Flip(cmp, x, s[k]);
      Flip(cmp, s[k], x);
    }
  }

  lemma {:induction false} LookupAdded<T(!new)>(cmp: (T, T) -> int, s: seq<T>, x: T, k: T)
    requires TotalPreorder(cmp) && Strict(cmp, s)
    ensures Lookup(cmp, Added(cmp, s, x), k) == if cmp(x, k) == 0 then Some(x) else Lookup(cmp, s, k)
  {
    if s != [] {
      Below(cmp, s[0], x, k);
      Below(cmp, x, s[0], k);
      SameClass(cmp, s[0], x, k);
      hide TotalPreorder;
      if cmp(s[0], x) < 0 {
        LookupAdded(cmp, s[1..], x, k);
        assert ([s[0]] + Added(cmp, s[1..], x))[1..] == Added(cmp, s[1..], x);
      } else if cmp(s[0], x) == 0 {
        assert ([x] + s[1..])[1..] == s[1..];
      } else {
        assert ([x] + s)[1..] == s;
      }
    }
  }

  lemma SameClass<T(!new)>(cmp: (T, T) -> int, x: T, y: T, k: T)
    requires TotalPreorder(cmp)
    ensures cmp(x, y) == 0 ==> (cmp(x, k) == 0 <==> cmp(y, k) == 0)
    ensures cmp(x, y) != 0 ==> !(cmp(x, k) == 0 && cmp(y, k) == 0)
  {
    Flip(cmp, x, y);
    Flip(cmp, x, k);
    Flip(cmp, y, k);
    Flip(cmp, k, x);
    Flip(cmp, k, y);
    Flip(cmp, y, x);
    if cmp(x, y) == 0 && cmp(x, k) == 0 { Transitive(cmp, y, x, k); Transitive(cmp, k, x, y); }
    if cmp(x, y) == 0 && cmp(y, k) == 0 { Transitive(cmp, x, y, k); Transitive(cmp, k, y, x); }
    if cmp(x, k) == 0 && cmp(y, k) == 0 { Transitive(cmp, x, k, y); Transitive(cmp, y, k, x); }
  }

  lemma RemovedStrict<T(!new)>(cmp: (T, T) -> int, s: seq<T>, x: T)
    requires TotalPreorder(cmp) && Strict(cmp, s)
    ensures Strict(cmp, Removed(cmp, s, x))
  {
    var found, order := PlaceExists(cmp, s, x);
    RemovedAt(cmp, s, x, found, order);
  }

  lemma {:induction false} LookupRemoved<T(!new)>(cmp: (T, T) -> int, s: seq<T>, x: T, k: T)
    requires TotalPreorder(cmp) && Strict(cmp, s)
    ensures Lookup(cmp, Removed(cmp, s, x), k) == if cmp(x, k) == 0 then None else Lookup(cmp, s, k)
  {
    if s != [] {
      Flip(cmp, s[0], x);
      SameClass(cmp, s[0], x, k);
      if cmp(s[0], x) == 0 {
        if cmp(x, k) == 0 { StrictSmaller(cmp, s, k, 0); LookupNone(cmp, s[1..], k); }
      } else {
        LookupRemoved(cmp, s[1..], x, k);
        assert ([s[0]] + Removed(cmp, s[1..], x))[1..] == Removed(cmp, s[1..], x);
      }
    }
  }

  lemma {:induction false} LookupNone<T>(cmp: (T, T) -> int, s: seq<T>, k: T)
    requires forall i :: 0 <= i < |s| ==> cmp(s[i], k) != 0
    ensures Lookup(cmp, s, k) == None
  {
    if s != [] { LookupNone(cmp, s[1..], k); }
  }

  /** Two strictly ordered sequences that agree on every key are the same map, and the same sequence. */
  lemma {:induction false} LookupExtensional<T(!new)>(cmp: (T, T) -> int, s: seq<T>, t: seq<T>)
    requires TotalPreorder(cmp) && Strict(cmp, s) && Strict(cmp, t)
    requires forall k :: Lookup(cmp, s, k) == Lookup(cmp, t, k)
    ensures s == t
  {
    if s == [] || t == [] {
      if s != [] { LookupSelf(cmp, s, 0); }
      if t != [] { LookupSelf(cmp, t, 0); }
    } else {
      LookupSelf(cmp, s, 0);
      LookupSelf(cmp, t, 0);
      LookupAtLeast(cmp, s, t[0]);
      LookupAtLeast(cmp, t, s[0]);
      Flip(cmp, s[0], t[0]);
      Flip(cmp, t[0], s[0]);
      assert s[0] == t[0];
      forall k ensures Lookup(cmp, s[1..], k) == Lookup(cmp, t[1..], k) {
        LookupTail(cmp, s, k);
        LookupTail(cmp, t, k);
        assert Lookup(cmp, s, k) == Lookup(cmp, t, k);
      }
      LookupExtensional(cmp, s[1..], t[1..]);
      assert s == [s[0]] + s[1..] && t == [t[0]] + t[1..];
    }
  }

  lemma {:induction false} LookupSelf<T(!new)>(cmp: (T, T) -> int, s: seq<T>, i: nat)
    requires TotalPreorder(cmp) && Strict(cmp, s) && i < |s|
    ensures Lookup(cmp, s, s[i]) == Some(s[i])
  {
    Flip(cmp, s[i], s[i]);
    hide TotalPreorder;
    if i > 0 { LookupSelf(cmp, s[1..], i - 1); }
  }

  lemma LookupAtLeast<T(!new)>(cmp: (T, T) -> int, s: seq<T>, k: T)
    requires TotalPreorder(cmp) && Strict(cmp, s) && s != [] && Lookup(cmp, s, k).Some?
    ensures cmp(s[0], k) <= 0
  {
    if cmp(s[0], k) > 0 {
      forall i | 0 <= i < |s| ensures cmp(s[i], k) != 0 {
        if i > 0 {
          Below(cmp, s[0], s[i], k);
          Flip(cmp, s[i], k);
        }
      }
      LookupNone(cmp, s, k);
    }
  }

  lemma LookupTail<T(!new)>(cmp: (T, T) -> int, s: seq<T>, k: T)
    requires TotalPreorder(cmp) && Strict(cmp, s) && s != []
    ensures Lookup(cmp, s[1..], k) == if cmp(s[0], k) == 0 then None else Lookup(cmp, s, k)
  {
    if cmp(s[0], k) == 0 {
      StrictSmaller(cmp, s, k, 0);
      LookupNone(cmp, s[1..], k);
    }
  }

  // ----- merging

  lemma {:induction false} AddedAllStrict<T(!new)>(cmp: (T, T) -> int, s: seq<T>, w: seq<T>)
    requires TotalPreorder(cmp) && Strict(cmp, s)
    ensures Strict(cmp, AddedAll(cmp, s, w))
  {
    if w != [] {
      AddedAllStrict(cmp, s, w[..|w| - 1]);
      AddedStrict(cmp, AddedAll(cmp, s, w[..|w| - 1]), w[|w| - 1]);
    }
  }

  /** The naive merge as a map: the items of w override those of s. */
  lemma {:induction false} LookupAddedAll<T(!new)>(cmp: (T, T) -> int, s: seq<T>, w: seq<T>, k: T)
    requires TotalPreorder(cmp) && Strict(cmp, s) && Strict(cmp, w)
    ensures Lookup(cmp, AddedAll(cmp, s, w), k) ==
      if Lookup(cmp, w, k).Some? then Lookup(cmp, w, k) else Lookup(cmp, s, k)
  {
    if w != [] {
      var front, x := w[..|w| - 1], w[|w| - 1];
      LastOverrides(cmp, w, k);
      AddedAllStrict(cmp, s, front);
      LookupAddedAll(cmp, s, front, k);
      hide TotalPreorder, Strict, Lookup, Added;
      LookupAdded(cmp, AddedAll(cmp, s, front), x, k);
    }
  }

  lemma LastOverrides<T(!new)>(cmp: (T, T) -> int, w: seq<T>, k: T)
    requires TotalPreorder(cmp) && Strict(cmp, w) && w != []
    ensures Lookup(cmp, w, k) ==
      if cmp(w[|w| - 1], k) == 0 then Some(w[|w| - 1]) else Lookup(cmp, w[..|w| - 1], k)
  {
    var front, x := w[..|w| - 1], w[|w| - 1];
    assert w == front + [x];
    if cmp(x, k) == 0 { OthersDiffer(cmp, w, k); }
    hide TotalPreorder, Strict, Lookup;
    LookupLast(cmp, front, x, k);
  }

  lemma OthersDiffer<T(!new)>(cmp: (T, T) -> int, w: seq<T>, k: T)
    requires TotalPreorder(cmp) && Strict(cmp, w) && w != [] && cmp(w[|w| - 1], k) == 0
    ensures Lookup(cmp, w[..|w| - 1], k) == None
  {
    var front, x := w[..|w| - 1], w[|w| - 1];
    hide TotalPreorder, Lookup;
    forall i | 0 <= i < |front| ensures cmp(front[i], k) != 0 {
      assert cmp(w[i], x) < 0;
      SameClass(cmp, front[i], x, k);
    }
    LookupNone(cmp, front, k);
  }

  lemma {:induction false} LookupLast<T>(cmp: (T, T) -> int, s: seq<T>, x: T, k: T)
    ensures Lookup(cmp, s + [x], k) ==
      if Lookup(cmp, s, k).Some? then Lookup(cmp, s, k) else if cmp(x, k) == 0 then Some(x) else None
  {
    if s != [] {
      LookupLast(cmp, s[1..], x, k);
      assert (s + [x])[1..] == s[1..] + [x];
    }
  }

  lemma {:induction false} LookupConcat<T>(cmp: (T, T) -> int, s: seq<T>, t: seq<T>, k: T)
    ensures Lookup(cmp, s + t, k) == if Lookup(cmp, s, k).Some? then Lookup(cmp, s, k) else Lookup(cmp, t, k)
  {
    if s == [] {
      assert s + t == t;
    } else {
      LookupConcat(cmp, s[1..], t, k);
      assert (s + t)[1..] == s[1..] + t;
    }
  }

  /** Of two key ranges one behind the other, at most one holds a given key. */
  lemma ApartLookup<T(!new)>(cmp: (T, T) -> int, s: seq<T>, t: seq<T>, k: T)
    requires TotalPreorder(cmp) && Strict(cmp, s + t)
    ensures Lookup(cmp, s, k) == None || Lookup(cmp, t, k) == None
  {
    if Lookup(cmp, s, k).Some? && Lookup(cmp, t, k).Some? {
      var i := LookupIndex(cmp, s, k);
      var j := LookupIndex(cmp, t, k);
      assert cmp((s + t)[i], (s + t)[|s| + j]) < 0;
      SameClass(cmp, s[i], t[j], k);
    }
  }

  lemma {:induction false} LookupIndex<T>(cmp: (T, T) -> int, s: seq<T>, k: T) returns (i: nat)
    requires Lookup(cmp, s, k).Some?
    ensures i < |s| && cmp(s[i], k) == 0 && Lookup(cmp, s, k) == Some(s[i])
  {
    if cmp(s[0], k) == 0 {
      i := 0;
    } else {
      i := LookupIndex(cmp, s[1..], k);
      i := i + 1;
    }
  }

  lemma StrictConcat<T(!new)>(cmp: (T, T) -> int, s: seq<T>, t: seq<T>)
    requires TotalPreorder(cmp) && Strict(cmp, s) && Strict(cmp, t)
    requires s != [] && t != [] && cmp(s[|s| - 1], t[0]) < 0
    ensures Strict(cmp, s + t)
  {
    forall i, j | 0 <= i < |s| && 0 <= j < |t| ensures cmp(s[i], t[j]) < 0 {
      if i < |s| - 1 { Below(cmp, s[i], s[|s| - 1], t[0]); }
      if j > 0 { Below(cmp, s[i], t[0], t[j]); }
    }
  }

  /** When the ranges do not touch, joining the vectors is merging them. */
  lemma ApartMerge<T(!new)>(cmp: (T, T) -> int, s: seq<T>, w: seq<T>)
    requires TotalPreorder(cmp) && Strict(cmp, s) && Strict(cmp, w) && s != [] && w != []
    ensures cmp(w[|w| - 1], s[0]) < 0 ==> AddedAll(cmp, s, w) == w + s
    ensures cmp(s[|s| - 1], w[0]) < 0 ==> AddedAll(cmp, s, w) == s + w
  {
    hide Strict, TotalPreorder, Lookup;
    AddedAllStrict(cmp, s, w);
    if cmp(w[|w| - 1], s[0]) < 0 {
      StrictConcat(cmp, w, s);
      forall k ensures Lookup(cmp, AddedAll(cmp, s, w), k) == Lookup(cmp, w + s, k) {
        LookupAddedAll(cmp, s, w, k);
        LookupConcat(cmp, w, s, k);
      }
      LookupExtensional(cmp, AddedAll(cmp, s, w), w + s);
    }
    if cmp(s[|s| - 1], w[0]) < 0 {
      StrictConcat(cmp, s, w);
      forall k ensures Lookup(cmp, AddedAll(cmp, s, w), k) == Lookup(cmp, s + w, k) {
        LookupAddedAll(cmp, s, w, k);
        LookupConcat(cmp, s, w, k);
        ApartLookup(cmp, s, w, k);
      }
      LookupExtensional(cmp, AddedAll(cmp, s, w), s + w);
    }
  }

  /** The last key of one vector equals the first key of the other, and merge takes the shortcut. */
  predicate SharedBoundary<T>(cmp: (T, T) -> int, s: seq<T>, w: seq<T>)
    requires s != []
  {
    w != [] &&
    if cmp(w[|w| - 1], s[0]) <= 0 then cmp(w[|w| - 1], s[0]) == 0 else cmp(w[0], s[|s| - 1]) == 0
  }

  /** The shortcut of merge agrees with merging item by item exactly when no boundary key is shared. */
  lemma MergeExact<T(!new)>(cmp: (T, T) -> int, s: seq<T>, w: seq<T>)
    requires TotalPreorder(cmp) && Strict(cmp, s) && Strict(cmp, w) && s != []
    ensures Merged(cmp, s, w) == AddedAll(cmp, s, w) <==> !SharedBoundary(cmp, s, w)
  {
    if w != [] {
      AddedAllStrict(cmp, s, w);
      ApartMerge(cmp, s, w);
      Flip(cmp, w[0], s[|s| - 1]);
      Flip(cmp, s[|s| - 1], w[0]);
      hide TotalPreorder, AddedAll;
      if cmp(w[|w| - 1], s[0]) == 0 {
        assert (w + s)[|w| - 1] == w[|w| - 1] && (w + s)[|w|] == s[0];
        assert !Strict(cmp, w + s);
      } else if cmp(w[|w| - 1], s[0]) > 0 && cmp(w[0], s[|s| - 1]) == 0 {
        assert (s + w)[|s| - 1] == s[|s| - 1] && (s + w)[|s|] == w[0];
        assert cmp(s[|s| - 1], w[0]) == 0;
        assert !Strict(cmp, s + w);
      }
    }
  }

  /** So merge leaves a vector fit for add, remove and merge exactly when no boundary key is shared;
      otherwise two neighbours in it have that key. */
  lemma MergeStrict<T(!new)>(cmp: (T, T) -> int, s: seq<T>, w: seq<T>)
    requires TotalPreorder(cmp) && Strict(cmp, s) && Strict(cmp, w) && s != []
    ensures Strict(cmp, Merged(cmp, s, w)) <==> !SharedBoundary(cmp, s, w)
    ensures SharedBoundary(cmp, s, w) ==>
      Merged(cmp, s, w) == if cmp(w[|w| - 1], s[0]) == 0 then w + s else s + w
    ensures SharedBoundary(cmp, s, w) ==>
      exists k :: 0 < k < |Merged(cmp, s, w)| && cmp(Merged(cmp, s, w)[k - 1], Merged(cmp, s, w)[k]) == 0
  {
    MergeExact(cmp, s, w);
    AddedAllStrict(cmp, s, w);
    if SharedBoundary(cmp, s, w) {
      Flip(cmp, w[0], s[|s| - 1]);
      hide TotalPreorder, AddedAll, Lookup;
      var m := Merged(cmp, s, w);
      var k := if cmp(w[|w| - 1], s[0]) <= 0 then |w| else |s|;
      assert cmp(m[k - 1], m[k]) == 0;
    } else {
      hide Strict, AddedAll, SharedBoundary, TotalPreorder, Merged;
    }
  }

  function Difference(x: int, y: int): int {
    x - y
  }

  lemma DifferencePreorder()
    ensures TotalPreorder(Difference)
  {
  }

  lemma Added23To12()
    ensures AddedAll(Difference, [1, 2], [2, 3]) == [1, 2, 3]
  {
    assert Added(Difference, [1, 2], 2) == [1, 2] by {
      assert [1, 2][1..] == [2] && [2][1..] == [];
      assert Added(Difference, [2], 2) == [2];
    }
    assert Added(Difference, [1, 2], 3) == [1, 2, 3] by {
      assert [1, 2][1..] == [2] && [2][1..] == [];
      assert Added(Difference, [], 3) == [3];
      assert Added(Difference, [2], 3) == [2, 3];
    }
    hide Added;
    assert [2, 3][..1] == [2] && [2][..0] == [];
    assert AddedAll(Difference, [1, 2], [2]) == [1, 2];
  }

  /** An input with a shared boundary key: the key is in the result twice. */
  lemma BoundaryKeptTwice()
    ensures TotalPreorder(Difference) && Strict(Difference, [1, 2]) && Strict(Difference, [2, 3])
    ensures Merged(Difference, [1, 2], [2, 3]) == [1, 2, 2, 3]
    ensures AddedAll(Difference, [1, 2], [2, 3]) == [1, 2, 3]
  {
    DifferencePreorder();
    Added23To12();
    hide TotalPreorder, Added, AddedAll;
  }

  /** Even with a shared boundary key, merge keeps the keys of both vectors, in order. */
  lemma MergeKeepsKeys<T(!new)>(cmp: (T, T) -> int, s: seq<T>, w: seq<T>)
    requires TotalPreorder(cmp) && Strict(cmp, s) && Strict(cmp, w) && s != []
    ensures Ordered(cmp, Merged(cmp, s, w))
    ensures forall k :: Lookup(cmp, Merged(cmp, s, w), k).Some? <==>
      Lookup(cmp, s, k).Some? || Lookup(cmp, w, k).Some?
  {
    forall k
      ensures Lookup(cmp, Merged(cmp, s, w), k).Some? <==> Lookup(cmp, s, k).Some? || Lookup(cmp, w, k).Some?
    {
      hide TotalPreorder, Strict, Lookup;
      LookupConcat(cmp, s, w, k);
      LookupConcat(cmp, w, s, k);
      LookupAddedAll(cmp, s, w, k);
      if w == [] { LookupEmpty(cmp, w, k); }
    }
    AddedAllStrict(cmp, s, w);
    if w != [] {
      Flip(cmp, s[|s| - 1], w[0]);
      if cmp(w[|w| - 1], s[0]) <= 0 { OrderedConcat(cmp, w, s); }
      if cmp(s[|s| - 1], w[0]) <= 0 { OrderedConcat(cmp, s, w); }
    }
  }

  lemma LookupEmpty<T>(cmp: (T, T) -> int, s: seq<T>, k: T)
    requires s == []
    ensures Lookup(cmp, s, k) == None
  {
  }

  lemma OrderedConcat<T(!new)>(cmp: (T, T) -> int, s: seq<T>, t: seq<T>)
    requires TotalPreorder(cmp) && Strict(cmp, s) && Strict(cmp, t)
    requires s != [] && t != [] && cmp(s[|s| - 1], t[0]) <= 0
    ensures Ordered(cmp, s + t)
  {
    forall i, j | 0 <= i < |s| && 0 <= j < |t| ensures cmp(s[i], t[j]) <= 0 {
      hide TotalPreorder;
      if i < |s| - 1 { Transitive(cmp, s[i], s[|s| - 1], t[0]); }
      if j > 0 { Transitive(cmp, s[i], t[0], t[j]); }
    }
  }
}
