/** SortedVectorImpl: a finite map kept as a vector in strictly ascending order. */
module SortedVectors {
  import opened StableSort
  import opened SortedSeq
  import opened VectorMemory
  import opened Vectors

  /** _indexOrderOf, the binary search.  A missing item is reported as index -1, and order is where
      it belongs. */
  method IndexOrderOf<T(!new)>(h: VectorHeap<T>, v: Id, cmp: (T, T) -> int, item: T) returns (index: int, order: nat)
    requires h.M().Valid() && v in h.vectors
    requires TotalPreorder(cmp) && Ordered(cmp, h.M().View()[v])
    ensures Place(cmp, h.M().View()[v], item, index >= 0, order)
    ensures index == if index >= 0 then order else -1
  {
    hide Memory.Valid, Memory.View, Memory.Contents, Memory.Ok;
    OkFacts(h.M(), v);
    ghost var s := h.M().View()[v];
    var f := h.vectors[v];
    index := -1;
    var l, r := 0, f.mCount - 1;
    while l <= r
      invariant 0 <= l <= f.mCount && -1 <= r < f.mCount && l <= r + 1
      invariant forall k :: 0 <= k < l ==> cmp(s[k], item) < 0
      invariant forall k :: r < k < |s| ==> cmp(s[k], item) > 0
      decreases r - l
    {
      var mid := l + (r - l) / 2;
      var curr := h.buffers[f.mStorage].slots[mid].value;
      assert curr == s[mid];
      var c := cmp(curr, item);
      if c == 0 {
        return mid, mid;
      } else if c < 0 {
        BelowAll(cmp, s, mid, item);
        l := mid + 1;
      } else {
        AboveAll(cmp, s, mid, item);
        r := mid - 1;
      }
    }
    order := l;
  }

  lemma BelowAll<T(!new)>(cmp: (T, T) -> int, s: seq<T>, mid: nat, x: T)
    requires TotalPreorder(cmp) && Ordered(cmp, s) && mid < |s| && cmp(s[mid], x) < 0
    ensures forall k :: 0 <= k <= mid ==> cmp(s[k], x) < 0
  {
    hide TotalPreorder;
    forall k | 0 <= k < mid ensures cmp(s[k], x) < 0 {
      StrictlyBelow(cmp, s[k], s[mid], x);
    }
  }

  lemma StrictlyBelow<T(!new)>(cmp: (T, T) -> int, x: T, y: T, z: T)
    requires TotalPreorder(cmp) && cmp(x, y) <= 0 && cmp(y, z) < 0
    ensures cmp(x, z) < 0
  {
    hide TotalPreorder;
    Transitive(cmp, x, y, z);
    Flip(cmp, x, z);
    Flip(cmp, y, z);
    Flip(cmp, z, y);
    if cmp(x, z) == 0 { Transitive(cmp, z, x, y); }
  }

  lemma AboveAll<T(!new)>(cmp: (T, T) -> int, s: seq<T>, mid: nat, x: T)
    requires TotalPreorder(cmp) && Ordered(cmp, s) && mid < |s| && cmp(s[mid], x) > 0
    ensures forall k :: mid <= k < |s| ==> cmp(s[k], x) > 0
  {
    hide TotalPreorder;
    forall k | mid < k < |s| ensures cmp(s[k], x) > 0 {
      if cmp(s[k], x) <= 0 { Transitive(cmp, s[mid], s[k], x); }
    }
  }

  /** add: replaces the item that compares equal, or inserts, and tells where. */
  method Add<T(!new)>(h: VectorHeap<T>, v: Id, cmp: (T, T) -> int, item: T, memory: bool)
    returns (status: Status, order: nat)
    requires h.M().Valid() && v in h.vectors
    requires TotalPreorder(cmp) && Strict(cmp, h.M().View()[v])
    modifies h
    ensures h.M().Valid() && v in h.vectors
    ensures status == Done || (status == NoMemory && !memory)
    ensures h.M().View() == if status == Done
      then old(h.M().View())[v := Added(cmp, old(h.M().View()[v]), item)]
      else old(h.M().View())
    ensures status == Done ==> order < |h.M().View()[v]| && h.M().View()[v][order] == item
  {
    hide Memory.Valid, Memory.View, Memory.Contents, Memory.Ok, TotalPreorder;
    OkFacts(h.M(), v);
    ghost var s := h.M().View()[v];
    assert h.vectors[v].mCount <= h.M().Capacity(v);
    var index;
    index, order := IndexOrderOf(h, v, cmp, item);
    AddedAt(cmp, s, item, index >= 0, order);
    assert Place(cmp, s, item, index >= 0, order);
    hide Strict, Added, Place;
    if index < 0 {
      status := h.InsertAt(v, item, order, 1, memory);
      assert seq(1, _ => item) == [item];
    } else {
      status := h.ReplaceAt(v, item, index);
    }
  }

  /** remove.  Like removeItemsAt it keeps quiet when _shrink finds no memory. */
  method Remove<T(!new)>(h: VectorHeap<T>, v: Id, cmp: (T, T) -> int, item: T, memory: bool) returns (index: int)
    requires h.M().Valid() && v in h.vectors
    requires TotalPreorder(cmp) && Strict(cmp, h.M().View()[v])
    modifies h
    ensures h.M().Valid() && v in h.vectors
    ensures h.M().View() == old(h.M().View())[v := h.M().View()[v]]
    ensures index >= 0 ==> index < |old(h.M().View()[v])| && cmp(old(h.M().View()[v])[index], item) == 0
    ensures index < 0 ==> index == -1
    ensures index >= 0 <==> Lookup(cmp, old(h.M().View()[v]), item).Some?
    ensures h.M().View()[v] == Removed(cmp, old(h.M().View()[v]), item)
      || (!memory && h.M().View() == old(h.M().View()))
  {
    hide Memory.Valid, Memory.View, Memory.Contents, Memory.Ok, TotalPreorder;
    OkFacts(h.M(), v);
    ghost var s := h.M().View()[v];
    var order;
    index, order := IndexOrderOf(h, v, cmp, item);
    RemovedAt(cmp, s, item, index >= 0, order);
    LookupPlace(cmp, s, item, index >= 0, order);
    if index >= 0 {
      var status, done := h.RemoveItemsAt(v, index, 1, memory);
    }
  }

  lemma LookupPlace<T(!new)>(cmp: (T, T) -> int, s: seq<T>, x: T, found: bool, order: nat)
    requires TotalPreorder(cmp) && Place(cmp, s, x, found, order)
    ensures found <==> Lookup(cmp, s, x).Some?
  {
    if found {
      LookupFinds(cmp, s, x, order);
    } else {
      LookupNone(cmp, s, x);
    }
  }

  lemma {:induction false} LookupFinds<T>(cmp: (T, T) -> int, s: seq<T>, x: T, i: nat)
    requires i < |s| && cmp(s[i], x) == 0
    ensures Lookup(cmp, s, x).Some?
  {
    if cmp(s[0], x) != 0 { LookupFinds(cmp, s[1..], x, i - 1); }
  }

  /** A vector's own items change nothing when they are added to it. */
  lemma {:induction false} AddedOwn<T(!new)>(cmp: (T, T) -> int, s: seq<T>, n: nat)
    requires TotalPreorder(cmp) && Strict(cmp, s) && n <= |s|
    ensures AddedAll(cmp, s, s[..n]) == s
  {
    if n > 0 {
      AddedOwn(cmp, s, n - 1);
      assert s[..n][..n - 1] == s[..n - 1];
      Flip(cmp, s[n - 1], s[n - 1]);
      hide TotalPreorder, Strict, Added;
      AddedAt(cmp, s, s[n - 1], true, n - 1);
    }
  }

  lemma AddedAllNext<T(!new)>(cmp: (T, T) -> int, s: seq<T>, w: seq<T>, i: nat)
    requires TotalPreorder(cmp) && Strict(cmp, s) && i < |w|
    ensures Strict(cmp, AddedAll(cmp, s, w[..i]))
    ensures AddedAll(cmp, s, w[..i + 1]) == Added(cmp, AddedAll(cmp, s, w[..i]), w[i])
    ensures w == s ==> AddedAll(cmp, s, w[..i]) == s
  {
    AddedAllStrict(cmp, s, w[..i]);
    assert w[..i + 1][..i] == w[..i];
    hide Added, Strict, TotalPreorder;
    if w == s { AddedOwn(cmp, s, i); }
  }

  lemma StrictEnds<T(!new)>(cmp: (T, T) -> int, s: seq<T>)
    requires TotalPreorder(cmp) && Strict(cmp, s) && |s| > 1
    ensures cmp(s[|s| - 1], s[0]) > 0 && cmp(s[0], s[|s| - 1]) < 0
  {
    Flip(cmp, s[0], s[|s| - 1]);
  }

  /** merge(VectorImpl): the items one by one; memory(i) says whether add i may allocate.  Merging a
      vector into itself replaces every item by itself, which replaceAt knows to leave alone. */
  method MergeNaive<T(!new)>(h: VectorHeap<T>, v: Id, w: Id, cmp: (T, T) -> int, memory: nat -> bool)
    returns (status: Status, ghost added: nat)
    requires h.M().Valid() && v in h.vectors && w in h.vectors
    requires TotalPreorder(cmp) && Strict(cmp, h.M().View()[v])
    modifies h
    ensures h.M().Valid() && v in h.vectors && w in h.vectors
    ensures added <= old(h.vectors[w].mCount)
    ensures status == Done ==> added == old(h.vectors[w].mCount)
    ensures status != Done ==> status == NoMemory && added < old(h.vectors[w].mCount) && !memory(added)
    ensures h.M().View() ==
      old(h.M().View())[v := AddedAll(cmp, old(h.M().View()[v]), old(h.M().View()[w])[..added])]
  {
    hide Memory.Valid, Memory.View, Memory.Contents, Memory.Ok, TotalPreorder, Strict, Added;
    ghost var view := h.M().View();
    ghost var s, items := view[v], view[w];
    OkFacts(h.M(), w);
    var n := h.vectors[w].mCount;
    var i := 0;
    added := 0;
    status := Done;
    assert items[..0] == [] && AddedAll(cmp, s, []) == s && view[v := s] == view;
    hide AddedAll;
    while i < n
      invariant 0 <= i <= n == |items| && added == i && status == Done
      invariant h.M().Valid() && v in h.vectors && w in h.vectors
      invariant h.M().View() == view[v := AddedAll(cmp, s, items[..i])]
    {
      OkFacts(h.M(), w);
      AddedAllNext(cmp, s, items, i);
      assert h.M().View()[w] == items;
      var item := h.buffers[h.vectors[w].mStorage].slots[i].value;
      assert item == items[i];
      var order;
      status, order := Add(h, v, cmp, item, memory(i));
      if status != Done {
        return;
      }
      i := i + 1;
      added := i;
    }
    assert items[..n] == items;
  }

  /** merge(SortedVectorImpl).  The receiver must not be empty: its first item is compared.  Nor may it
      be merged into itself if it has one item and no room or nobody to share it with: that inserts
      an item which is moved away before it is copied. */
  method Merge<T(!new)>(h: VectorHeap<T>, v: Id, w: Id, cmp: (T, T) -> int, memory: nat -> bool)
    returns (status: Status, ghost added: nat)
    requires h.M().Valid() && v in h.vectors && w in h.vectors
    requires TotalPreorder(cmp) && Strict(cmp, h.M().View()[v]) && Strict(cmp, h.M().View()[w])
    requires h.vectors[v].mCount > 0
    requires v == w && h.vectors[v].mCount == 1 ==> h.CanReadItself(v, 0, memory(0))
    modifies h
    ensures h.M().Valid() && v in h.vectors
    ensures status != Done ==> status == NoMemory && added < old(h.vectors[w].mCount) && !memory(added)
    ensures added <= old(h.vectors[w].mCount)
    ensures h.M().View() == old(h.M().View())[v :=
      if status == Done then Merged(cmp, old(h.M().View()[v]), old(h.M().View()[w]))
      else AddedAll(cmp, old(h.M().View()[v]), old(h.M().View()[w])[..added])]
  {
    hide Memory.Valid, Memory.View, Memory.Contents, Memory.Ok, TotalPreorder, Strict, Added;
    OkFacts(h.M(), v);
    OkFacts(h.M(), w);
    ghost var s, items := h.M().View()[v], h.M().View()[w];
    assert h.vectors[v].mCount <= h.M().Capacity(v);
    if v == w && |s| > 1 { StrictEnds(cmp, s); }
    var n := h.vectors[w].mCount;
    status, added := Done, 0;
    assert AddedAll(cmp, s, items[..0]) == s && h.M().View()[v := s] == h.M().View();
    hide AddedAll;
    if n != 0 {
      var a := h.buffers[h.vectors[v].mStorage].slots;
      var b := h.buffers[h.vectors[w].mStorage].slots;
      var first, last := a[0].value, a[h.vectors[v].mCount - 1].value;
      assert first == s[0] && last == s[|s| - 1] && b[0].value == items[0] && b[n - 1].value == items[|items| - 1];
      if cmp(b[n - 1].value, first) <= 0 {
        status := h.InsertVectorAt(v, w, 0, memory(0));
        assert s[..0] + items + s[0..] == items + s;
      } else if cmp(b[0].value, last) >= 0 {
        status := h.InsertVectorAt(v, w, h.vectors[v].mCount, memory(0));
        assert s[..|s|] + items + s[|s|..] == s + items;
      } else {
        status, added := MergeNaive(h, v, w, cmp, memory);
        if status == Done { assert items[..added] == items; }
      }
    }
  }
}
