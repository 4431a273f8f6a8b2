/** VectorImpl: copy-on-write vectors over reference-counted buffers. */
module Vectors {
  import opened Slots
  import opened StableSort
  import opened VectorMemory

  const MIN_VECTOR_CAPACITY: nat := 4

  datatype Status = Done | BadIndex | BadValue | NoMemory

  function Max(a: nat, b: nat): nat { if a > b then a else b }

  /** Capacity _grow asks for when newSize items no longer fit. */
  function GrownCapacity(newSize: nat): nat {
    Max(MIN_VECTOR_CAPACITY, newSize + newSize / 2 + 1)
  }

  /** Capacity _shrink asks for when newSize items leave more than half of the buffer unused. */
  function ShrunkCapacity(newSize: nat): nat {
    Max(MIN_VECTOR_CAPACITY, newSize * 2)
  }

  /** Slots of a vector in the middle of an insertion: its old items around a vacant gap. */
  ghost predicate Gapped<T>(f: Flags, s: seq<Slot<T>>, where: nat, amount: nat, items: seq<T>) {
    && where <= |items| && |items| + amount <= |s|
    && (forall k :: 0 <= k < where ==> s[k] == Live(items[k]))
    && (forall k :: where + amount <= k < |items| + amount ==> s[k] == Live(items[k - amount]))
    && Vacant(f, s, where, amount)
    && Vacant(f, s, |items| + amount, |s| - |items| - amount)
  }

  lemma GapInNewStorage<T>(f: Flags, capacity: nat, where: nat, amount: nat, items: seq<T>)
    requires where <= |items| && |items| + amount <= capacity
    ensures var s := Construct(f, RawSlots(capacity), 0, items[..where]);
      && Vacant(f, s, where + amount, |items| - where)
      && Gapped(f, Construct(f, s, where + amount, items[where..]), where, amount, items)
  {
  }

  lemma GapByMoving<T>(f: Flags, s: seq<Slot<T>>, where: nat, amount: nat, items: seq<T>)
    requires Filled(f, s, |items|) && Values(s, 0, |items|) == items
    requires where <= |items| && |items| + amount <= |s|
    ensures f.trivialDtor || forall k :: where + amount <= k < |items| + amount && !(where <= k < |items|) ==> s[k].Raw?
    ensures Gapped(f, Move(f, s, where + amount, where, |items| - where), where, amount, items)
  {
    forall k | 0 <= k < |items| ensures s[k] == Live(items[k]) {
      assert items[k] == Values(s, 0, |items|)[k];
    }
  }

  lemma GapAtEnd<T>(f: Flags, s: seq<Slot<T>>, capacity: nat, amount: nat, items: seq<T>)
    requires f.trivialDtor
    requires Filled(f, s, |items|) && Values(s, 0, |items|) == items
    requires |items| + amount <= capacity
    ensures Gapped(f, Realloc(s, capacity), |items|, amount, items)
  {
    forall k | 0 <= k < |items| ensures s[k] == Live(items[k]) {
      assert items[k] == Values(s, 0, |items|)[k];
    }
  }

  lemma GappedFront<T>(f: Flags, s: seq<Slot<T>>, where: nat, amount: nat, items: seq<T>)
    requires Gapped(f, s, where, amount, items)
    ensures AllLive(s, 0, where) && Values(s, 0, where) == items[..where]
  {
  }

  lemma GapFilled<T>(f: Flags, s: seq<Slot<T>>, where: nat, xs: seq<T>, items: seq<T>)
    requires Gapped(f, s, where, |xs|, items)
    ensures Filled(f, Construct(f, s, where, xs), |items| + |xs|)
    ensures Values(Construct(f, s, where, xs), 0, |items| + |xs|) == items[..where] + xs + items[where..]
  {
  }

  function Without<T>(items: seq<T>, where: nat, amount: nat): seq<T>
    requires where + amount <= |items|
  {
    items[..where] + items[where + amount..]
  }

  lemma ShrunkInNewStorage<T>(f: Flags, capacity: nat, where: nat, amount: nat, items: seq<T>)
    requires where + amount <= |items| && |items| - amount <= capacity
    ensures var s := Construct(f, RawSlots(capacity), 0, items[..where]);
      && Vacant(f, s, where, |items| - amount - where)
      && Filled(f, Construct(f, s, where, items[where + amount..]), |items| - amount)
      && Values(Construct(f, s, where, items[where + amount..]), 0, |items| - amount) == Without(items, where, amount)
  {
  }

  lemma ShrunkInPlace<T>(f: Flags, s: seq<Slot<T>>, where: nat, amount: nat, items: seq<T>)
    requires Filled(f, s, |items|) && Values(s, 0, |items|) == items
    requires where + amount <= |items|
    ensures var d := Destroy(f, s, where, amount);
      && AllLive(d, where + amount, |items| - amount - where)
      && (f.trivialDtor || forall k :: where <= k < |items| - amount && !(where + amount <= k < |items|) ==> d[k].Raw?)
      && Filled(f, Move(f, d, where, where + amount, |items| - amount - where), |items| - amount)
      && Values(Move(f, d, where, where + amount, |items| - amount - where), 0, |items| - amount) == Without(items, where, amount)
  {
    forall k | 0 <= k < |items| ensures s[k] == Live(items[k]) {
      assert items[k] == Values(s, 0, |items|)[k];
    }
  }

  lemma ShrunkAtEnd<T>(f: Flags, s: seq<Slot<T>>, capacity: nat, amount: nat, items: seq<T>)
    requires f.trivialDtor && amount <= |items|
    requires Filled(f, s, |items|) && Values(s, 0, |items|) == items
    requires |items| - amount <= capacity
    ensures Filled(f, Realloc(s, capacity), |items| - amount)
    ensures Values(Realloc(s, capacity), 0, |items| - amount) == Without(items, |items| - amount, amount)
  {
    forall k | 0 <= k < |items| ensures s[k] == Live(items[k]) {
      assert items[k] == Values(s, 0, |items|)[k];
    }
  }

  lemma CopiedWhole<T>(f: Flags, capacity: nat, items: seq<T>)
    requires |items| <= capacity
    ensures Filled(f, Construct(f, RawSlots(capacity), 0, items), |items|)
    ensures Values(Construct(f, RawSlots(capacity), 0, items), 0, |items|) == items
  {
  }

  /** The capacity that _shrink leaves when it removes something from count items. */
  function CapacityAfterShrink(count: nat, capacity: nat, amount: nat): nat
    requires amount <= count
  {
    if count - amount < capacity / 2 then ShrunkCapacity(count - amount) else capacity
  }

  /** What _shrink's comment claims of every reallocation holds of all but small buffers.  The items
      that stay always fit. */
  lemma ShrinkReducesCapacity(count: nat, capacity: nat, amount: nat)
    requires amount <= count <= capacity
    ensures count - amount < capacity / 2 ==>
      (CapacityAfterShrink(count, capacity, amount) < capacity <==> capacity > MIN_VECTOR_CAPACITY)
    ensures count - amount <= CapacityAfterShrink(count, capacity, amount)
  {
  }

  /** A buffer that a removal leaves half full or fuller stays, which takes no memory; any other is
      exchanged for one that the items fill by half, or one of four slots. */
  lemma ShrinkExact(count: nat, capacity: nat, amount: nat, memory: bool)
    requires amount <= count <= capacity
    ensures var k, c := count - amount, CapacityAfterShrink(count, capacity, amount);
      && (2 * k + 2 > capacity ==> c == capacity)
      && (2 * k + 2 <= capacity ==> if k <= 2 then c == 4 else c == 2 * k)
      && (ShrinkSucceeds(count, capacity, amount, memory) <==> memory || 2 * k + 2 > capacity)
  {
  }

  /** Inputs at which the program does less than one might think: a reallocation of a buffer of 4 that
      keeps its capacity, a removal that is given up although success is reported, and an insertion of
      nothing that reports NO_MEMORY. */
  lemma SurprisingInputs()
    ensures 2 - 1 < 4 / 2 && CapacityAfterShrink(2, 4, 1) == 4
    ensures !ShrinkSucceeds(4, 8, 1, false)
    ensures InsertStatus(4, 4, 4, 0, true) == NoMemory
  {
  }

  /** Whether _shrink removes anything: it needs memory when the buffer becomes more than half empty. */
  predicate ShrinkSucceeds(count: nat, capacity: nat, amount: nat, memory: bool) {
    capacity == 0 || count - amount >= capacity / 2 || memory
  }

  /** Items copied by n appends to a vector of count items in a buffer of its own. */
  function AppendCost(count: nat, capacity: nat, n: nat): nat
    decreases n
  {
    if n == 0 then 0
    else if capacity < count + 1 then count + AppendCost(count + 1, GrownCapacity(count + 1), n - 1)
    else AppendCost(count + 1, capacity, n - 1)
  }

  lemma AppendCostNext(count: nat, capacity: nat, n: nat)
    requires n > 0
    ensures AppendCost(count, capacity, n) ==
      if capacity < count + 1 then count + AppendCost(count + 1, GrownCapacity(count + 1), n - 1)
      else AppendCost(count + 1, capacity, n - 1)
    ensures AppendCost(count, capacity, 0) == 0
  {
  }

  /** One item behind the first i. */
  lemma OneMoreItem<T>(items: seq<T>, i: nat, one: seq<T>)
    requires i < |items| && one == [items[i]]
    ensures items[..i][..i] + one + items[..i][i..] == items[..i + 1]
  {
  }

  /** Appending is amortised constant time: what was paid so far never exceeds three copies an item. */
  lemma {:induction false} AppendCostBound(count: nat, capacity: nat, n: nat, paid: nat)
    requires count <= capacity
    requires paid <= 3 * count && paid <= 2 * capacity
    ensures paid + AppendCost(count, capacity, n) <= 3 * (count + n)
    decreases n
  {
    if n > 0 {
      if capacity < count + 1 {
        AppendCostBound(count + 1, GrownCapacity(count + 1), n - 1, paid + count);
      } else {
        AppendCostBound(count + 1, capacity, n - 1, paid);
      }
    }
  }

  /** What default construction makes: a trivial constructor leaves what the memory held. */
  function Made<T>(f: Flags, default: T, leftover: nat -> T, n: nat): (items: seq<T>)
    ensures |items| == n
  {
    seq(n, k requires 0 <= k < n => if f.trivialCtor then leftover(k) else default)
  }

  function Resized<T>(f: Flags, items: seq<T>, size: nat, default: T, leftover: nat -> T): (r: seq<T>)
    ensures |r| == size
  {
    if size <= |items| then items[..size] else items + Made(f, default, leftover, size - |items|)
  }

  /** A resized vector keeps its first items, and what is missing is made by default construction. */
  lemma ResizedItems<T>(f: Flags, items: seq<T>, size: nat, default: T, leftover: nat -> T)
    ensures var r := Resized(f, items, size, default, leftover);
      && (forall k :: 0 <= k < size && k < |items| ==> r[k] == items[k])
      && (forall k :: |items| <= k < size ==> r[k] == (if f.trivialCtor then leftover(k - |items|) else default))
  {
  }

  /** What resize does in terms of insertion and removal. */
  lemma ResizedParts<T>(f: Flags, items: seq<T>, size: nat, default: T, leftover: nat -> T)
    ensures var r, n := Resized(f, items, size, default, leftover), |items|;
      && (size > n ==> r == items[..n] + Made(f, default, leftover, size - n) + items[n..])
      && (size < n ==> r == Without(items, size, n - size))
      && (size == n ==> r == items)
  {
    hide Made;
  }

  /** Growing leaves room for half as many items again, and for four at least. */
  lemma GrownCapacityExact(n: nat)
    ensures n <= 2 ==> GrownCapacity(n) == 4
    ensures n >= 2 ==> 3 * n + 1 <= 2 * GrownCapacity(n) <= 3 * n + 2
  {
  }

  /** What insertArrayAt and insertAt return. */
  function InsertStatus(count: nat, capacity: nat, index: nat, numItems: nat, memory: bool): Status {
    if index > count then BadIndex
    else if capacity < count + numItems && !memory then NoMemory
    else if capacity >= count + numItems && index >= capacity then NoMemory
    else Done
  }

  /** With memory to spare, the one insertion that reports NO_MEMORY inserts nothing at the end of a
      full buffer. */
  lemma InsertStatusExact(count: nat, capacity: nat, index: nat, numItems: nat, memory: bool)
    requires count <= capacity
    ensures InsertStatus(count, capacity, index, numItems, memory) == BadIndex <==> index > count
    ensures InsertStatus(count, capacity, index, numItems, memory) == NoMemory <==>
      || (index <= count && capacity < count + numItems && !memory)
      || (numItems == 0 && index == count == capacity)
    ensures InsertStatus(count, capacity, index, numItems, memory) != BadValue
  {
  }

  /** The inner loop of sort, on the slots of the buffer: the items greater than x, which waits in the
      temporary slot, move up by one, and x is put into the slot they leave. */
  method InsertIntoPrefix<T>(f: Flags, s: seq<Slot<T>>, i: nat, cmp: (T, T) -> int, x: T) returns (r: seq<Slot<T>>)
    requires 0 < i < |s| && AllLive(s, 0, i + 1)
    requires cmp(s[i - 1].value, x) > 0
    ensures |r| == |s| && AllLive(r, 0, i + 1)
    ensures Values(r, 0, i + 1) == InsertRight(cmp, Values(s, 0, i), x)
    ensures forall k :: i < k < |s| ==> r[k] == s[k]
  {
    hide InsertRight, Overwrite, Construct, Destroy;
    ghost var p := Values(s, 0, i);
    r := s;
    var next: nat := i;
    var more := true;
    while more
      invariant next <= i && |r| == |s| && r[next].Live?
      invariant forall k :: 0 <= k < next ==> r[k] == Live(p[k])
      invariant forall k :: next < k <= i ==> r[k] == Live(p[k - 1])
      invariant forall k :: i < k < |s| ==> r[k] == s[k]
      invariant forall k :: next <= k < i ==> cmp(p[k], x) > 0
      invariant more <==> next > 0 && cmp(p[next - 1], x) > 0
      decreases next
    {
      var curr := r[next - 1].value;
      r := Overwrite(f, r, next, curr);
      next := next - 1;
      more := next > 0 && cmp(r[next - 1].value, x) > 0;
    }
    r := Overwrite(f, r, next, x);
    InsertRightAt(cmp, p, x, next);
    assert Values(r, 0, i + 1) == p[..next] + [x] + p[next..];
  }

  /** The items before turn i of sort. */
  ghost function PartlySorted<T>(cmp: (T, T) -> int, s: seq<T>, i: nat): (t: seq<T>)
    requires i <= |s|
    ensures |t| == |s|
  {
    InsertionSort(cmp, s[..i]) + s[i..]
  }

  lemma SortTurn<T>(cmp: (T, T) -> int, s: seq<T>, i: nat)
    requires 0 < i < |s|
    ensures var t := PartlySorted(cmp, s, i);
      && t[i] == s[i]
      && PartlySorted(cmp, s, i + 1) ==
           if cmp(t[i - 1], t[i]) <= 0 then t else InsertRight(cmp, t[..i], t[i]) + t[i + 1..]
  {
    var t := PartlySorted(cmp, s, i);
    assert s[..i + 1][..i] == s[..i];
    assert t[..i] == InsertionSort(cmp, s[..i]);
    assert t[i + 1..] == s[i + 1..];
    assert t == t[..i] + [t[i]] + t[i + 1..];
  }

  lemma InversionNext<T>(cmp: (T, T) -> int, s: seq<T>, i: nat)
    requires 0 < i < |s|
    ensures NoInversion(cmp, s[..i + 1]) <==> NoInversion(cmp, s[..i]) && cmp(s[i - 1], s[i]) <= 0
    ensures cmp(s[i - 1], s[i]) > 0 ==> !NoInversion(cmp, s)
  {
    var t, u := s[..i + 1], s[..i];
    if NoInversion(cmp, t) {
      assert cmp(t[i - 1], t[i]) <= 0;
      forall k | 0 < k < i ensures cmp(u[k - 1], u[k]) <= 0 { assert cmp(t[k - 1], t[k]) <= 0; }
    }
    if NoInversion(cmp, u) && cmp(s[i - 1], s[i]) <= 0 {
      forall k | 0 < k < |t| ensures cmp(t[k - 1], t[k]) <= 0 {
        if k < i { assert cmp(u[k - 1], u[k]) <= 0; }
      }
    }
  }

  lemma SortOfOne<T>(cmp: (T, T) -> int, s: seq<T>)
    requires |s| <= 1
    ensures InsertionSort(cmp, s) == s
  {
    if |s| == 1 {
      assert s[..0] == [];
      assert InsertRight(cmp, [], s[0]) == [s[0]];
    }
  }

  lemma SortEnds<T>(cmp: (T, T) -> int, s: seq<T>)
    ensures s != [] ==> PartlySorted(cmp, s, 1) == s
    ensures |s| <= 1 ==> InsertionSort(cmp, s) == s
    ensures PartlySorted(cmp, s, |s|) == InsertionSort(cmp, s)
  {
    hide InsertionSort;
    assert s[..|s|] == s;
    if s != [] {
      SortOfOne(cmp, s[..1]);
      assert s == s[..1] + s[1..];
    }
    if |s| <= 1 { SortOfOne(cmp, s); }
  }

  lemma SpliceValues<T>(f: Flags, s: seq<Slot<T>>, r: seq<Slot<T>>, i: nat, count: nat)
    requires Filled(f, s, count) && i <= count && |r| == |s| && AllLive(r, 0, i)
    requires forall k :: i <= k < |s| ==> r[k] == s[k]
    ensures Filled(f, r, count) && Values(r, 0, count) == Values(r, 0, i) + Values(s, 0, count)[i..]
  {
  }

  class VectorHeap<T> {
    const flags: Flags
    var buffers: map<Addr, Buffer<T>>
    var vectors: map<Id, VectorFields>
    ghost var copied: nat  // items a vector held that were copied or reallocated to other storage so far

    ghost var freed: seq<seq<Slot<T>>>  // memory given back to the allocator so far, as it was then

    function M(): Memory<T>
      reads this
    {
      Memory(flags, buffers, vectors)
    }

    constructor (flags: Flags)
      ensures M() == Memory(flags, map[], map[]) && M().Valid() && copied == 0 && freed == []
    {
      this.flags := flags;
      buffers, vectors := map[], map[];
      copied := 0;
      freed := [];
    }

    /** Gives memory back to the allocator: no object may be left in it. */
    ghost method Free(slots: seq<Slot<T>>)
      requires Vacant(flags, slots, 0, |slots|)
      modifies this`freed
      ensures freed == old(freed) + [slots]
    {
      freed := freed + [slots];
    }

    /** VectorImpl(itemSize, flags). */
    method Create(v: Id)
      requires M().Valid() && v !in vectors
      modifies this`vectors
      ensures M() == Created(old(M()), v)
      ensures M().Valid() && M().View() == old(M().View())[v := []]
    {
      CreatedValid(M(), v);
      vectors := vectors[v := VectorFields(0, 0)];
    }

    /** VectorImpl(rhs): shares the buffer, even one with no items in it. */
    method CopyConstruct(v: Id, rhs: Id)
      requires M().Valid() && v !in vectors && rhs in vectors
      modifies this`vectors, this`buffers
      ensures M().Valid() && M().View() == old(M().View())[v := old(M().View()[rhs])]
      ensures vectors[v] == old(vectors)[rhs]
    {
      hide Memory.Valid, Memory.View, Memory.Contents, Memory.Ok, Memory.ValidExcept, Kept;
      OkFacts(M(), rhs);
      Create(v);
      var a := vectors[rhs].mStorage;
      if a != 0 {
        SharedWithValid(M(), v, rhs);
        buffers := buffers[a := buffers[a].(refs := buffers[a].refs + 1)];
        vectors := vectors[v := vectors[rhs]];
      }
    }

    /** operator=. */
    method Assign(v: Id, rhs: Id)
      requires M().Valid() && v in vectors && rhs in vectors
      modifies this`vectors, this`buffers, this`freed
      ensures M().Valid() && M().View() == old(M().View())[v := old(M().View()[rhs])]
    {
      hide Memory.Valid, Memory.View, Memory.Contents, Memory.Ok, Memory.ValidExcept, Kept;
      if v != rhs {
        ReleaseStorage(v);
        OkFacts(M(), rhs);
        if vectors[rhs].mCount != 0 {
          SharedWithValid(M(), v, rhs);
          var a := vectors[rhs].mStorage;
          vectors := vectors[v := vectors[rhs]];
          buffers := buffers[a := buffers[a].(refs := buffers[a].refs + 1)];
        }
      }
    }

    /** One more block of memory has been given back, of n slots that hold nothing. */
    ghost predicate FreedNext(before: seq<seq<Slot<T>>>, n: nat)
      reads this`freed
    {
      && |freed| == |before| + 1 && freed[..|before|] == before
      && |freed[|before|]| == n && Vacant(flags, freed[|before|], 0, n)
    }

    /** release_storage: the last holder destroys the items and frees the buffer. */
    method ReleaseStorage(v: Id)
      requires M().Valid() && v in vectors
      modifies this`vectors, this`buffers, this`freed
      ensures M() == Released(old(M()), v)
      ensures if old(M().Sole(v, vectors[v].mStorage))
        then FreedNext(old(freed), old(M().Capacity(v)))
        else freed == old(freed)
      ensures M().Valid() && Kept(old(M()), M(), v) && M().View() == old(M().View())[v := []]
    {
      hide Memory.Valid, Memory.View, Memory.Contents, Memory.Ok, Memory.ValidExcept, Kept;
      OkFacts(M(), v);
      ReleasedValid(M(), v);
      var a := vectors[v].mStorage;
      if a != 0 {
        var sb := buffers[a];
        if sb.refs == 1 {
          var slots := Destroy(flags, sb.slots, 0, vectors[v].mCount);
          Free(slots);
          buffers := buffers - {a};
        } else {
          buffers := buffers[a := sb.(refs := sb.refs - 1)];
        }
      }
      vectors := vectors[v := VectorFields(0, 0)];
    }

    /** finish_vector. */
    method Finish(v: Id)
      requires M().Valid() && v in vectors
      modifies this`vectors, this`buffers, this`freed
      ensures M().Valid() && M().View() == old(M().View())[v := []]
      ensures vectors[v] == VectorFields(0, 0)
    {
      hide Memory.Valid, Memory.View, Memory.Contents, Memory.Ok, Memory.ValidExcept;
      ReleaseStorage(v);
    }

    /** Points v, whose storage has been released, to a newly allocated buffer. */
    method Attach(v: Id, slots: seq<Slot<T>>, count: nat)
      requires M().Valid() && v in vectors && vectors[v].mStorage == 0
      modifies this`vectors, this`buffers
      ensures M().ValidExcept({v}) && Kept(old(M()), M(), v)
      ensures vectors[v].mCount == count && vectors[v].mStorage != 0
      ensures M().Sole(v, vectors[v].mStorage) && buffers[vectors[v].mStorage].slots == slots
      ensures Filled(flags, slots, count) ==>
        M().Valid() && M().View() == old(M().View())[v := Values(slots, 0, count)]
    {
      FreshAddress(buffers.Keys);
      var a: Addr :| a != 0 && a !in buffers;
      AttachedValid(M(), v, a, slots, count);
      buffers := buffers[a := Buffer(1, slots)];
      vectors := vectors[v := VectorFields(a, count)];
      if Filled(flags, slots, count) { assert M().Ok(v); }
    }

    /** Edits the buffer of v in place. */
    method Edit(v: Id, slots: seq<Slot<T>>, count: nat)
      requires M().ValidExcept({v}) && v in vectors && M().Sole(v, vectors[v].mStorage)
      modifies this`vectors, this`buffers
      ensures M().ValidExcept({v}) && Kept(old(M()), M(), v)
      ensures vectors[v] == VectorFields(old(vectors[v].mStorage), count)
      ensures M().Sole(v, vectors[v].mStorage) && buffers[vectors[v].mStorage].slots == slots
      ensures Filled(flags, slots, count) ==> M().Valid() && M().View()[v] == Values(slots, 0, count)
      ensures Filled(flags, slots, count) && old(M().Valid()) ==> M().View() == old(M().View())[v := M().View()[v]]
    {
      RewrittenValid(M(), v, slots, count);
      var a := vectors[v].mStorage;
      buffers := buffers[a := Buffer(1, slots)];
      vectors := vectors[v := VectorFields(a, count)];
      if Filled(flags, slots, count) { assert M().Ok(v); }
    }

    /** editArrayImpl: afterwards nobody shares the buffer.  It aborts when memory runs out. */
    method EditArrayImpl(v: Id)
      requires M().Valid() && v in vectors
      modifies this
      ensures M().Valid() && M().View() == old(M().View())
      ensures vectors[v].mStorage == 0 <==> old(vectors[v].mStorage) == 0
      ensures vectors[v].mStorage != 0 ==> M().Sole(v, vectors[v].mStorage)
      ensures M().Capacity(v) == old(M().Capacity(v))
      ensures vectors == old(vectors)[v := vectors[v]] && vectors[v].mCount == old(vectors[v].mCount)
      ensures old(M().Sole(v, vectors[v].mStorage)) ==> M() == old(M())
      ensures freed == old(freed)
      ensures copied == old(copied) + if old(M().Sole(v, vectors[v].mStorage)) then 0 else old(vectors[v].mCount)
    {
      hide Memory.Valid, Memory.View, Memory.Contents, Memory.Ok, Memory.ValidExcept, Kept;
      OkFacts(M(), v);
      var f := vectors[v];
      if f.mStorage != 0 {
        var sb := buffers[f.mStorage];
        if sb.refs != 1 {
          var items := Values(sb.slots, 0, f.mCount);
          var editable := Construct(flags, RawSlots(|sb.slots|), 0, items);
          assert Filled(flags, editable, f.mCount) && Values(editable, 0, f.mCount) == items;
          copied := copied + f.mCount;
          hide Filled, Values, Construct;
          ReleaseStorage(v);
          Attach(v, editable, f.mCount);
        }
      }
    }

    /** SharedBuffer::editResize followed by the assignment of mStorage: the bytes that fit are
        kept, and a buffer with other holders is left to them. */
    method EditResize(v: Id, capacity: nat, memory: bool) returns (ok: bool)
      requires M().Valid() && v in vectors && vectors[v].mStorage != 0
      requires flags.trivialCopy && flags.trivialDtor
      modifies this`vectors, this`buffers, this`freed
      ensures ok == memory
      ensures !ok ==> M() == old(M())
      ensures ok ==>
        && M().ValidExcept({v}) && Kept(old(M()), M(), v) && M().Sole(v, vectors[v].mStorage)
        && buffers[vectors[v].mStorage].slots == Realloc(old(buffers[vectors[v].mStorage].slots), capacity)
        && vectors[v].mCount == old(vectors[v].mCount)
    {
      hide Memory.Valid, Memory.View, Memory.Contents, Memory.Ok, Kept, Filled, Realloc;
      OkFacts(M(), v);
      ok := memory;
      if ok {
        var f := vectors[v];
        var sb := buffers[f.mStorage];
        var slots := Realloc(sb.slots, capacity);
        if sb.refs == 1 {
          ValidIsValidExcept(M(), v);
          Edit(v, slots, f.mCount);
        } else {
          ghost var m := M();
          ReleaseStorage(v);
          ghost var n := M();
          Attach(v, slots, f.mCount);
          KeptTwo(m, n, M(), v);
        }
      }
    }

    /** The gap opened in storage of a new capacity. */
    method GrowStorage(v: Id, where: nat, amount: nat, newCapacity: nat, memory: bool) returns (ok: bool)
      requires M().Valid() && v in vectors && where <= vectors[v].mCount
      requires vectors[v].mCount + amount <= newCapacity
      modifies this`vectors, this`buffers, this`freed
      ensures ok == memory
      ensures !ok ==> M() == old(M())
      ensures ok ==>
        && M().ValidExcept({v}) && Kept(old(M()), M(), v) && M().Sole(v, vectors[v].mStorage)
        && Gapped(flags, buffers[vectors[v].mStorage].slots, where, amount, old(M().View()[v]))
        && vectors[v].mCount == old(vectors[v].mCount) + amount
        && M().Capacity(v) == newCapacity
    {
      hide Memory.Valid, Memory.View, Memory.Contents, Memory.Ok, Memory.ValidExcept, Kept;
      ghost var m := M();
      OkFacts(m, v);
      var f := vectors[v];
      var items: seq<T> := if f.mStorage == 0 then [] else Values(buffers[f.mStorage].slots, 0, f.mCount);
      if f.mStorage != 0 && f.mCount == where && flags.trivialCopy && flags.trivialDtor {
        GapAtEnd(flags, buffers[f.mStorage].slots, newCapacity, amount, items);
        hide Gapped;
        ok := EditResize(v, newCapacity, memory);
        if ok {
          ghost var n := M();
          Edit(v, buffers[vectors[v].mStorage].slots, f.mCount + amount);
          KeptTwo(m, n, M(), v);
        }
      } else {
        ok := memory;
        if ok {
          GapInNewStorage(flags, newCapacity, where, amount, items);
          var storage := Construct(flags, RawSlots(newCapacity), 0, items[..where]);
          storage := Construct(flags, storage, where + amount, items[where..]);
          hide Gapped;
          ReleaseStorage(v);
          ghost var n := M();
          Attach(v, storage, f.mCount + amount);
          KeptTwo(m, n, M(), v);
        }
      }
    }

    /** The gap opened in a buffer that nobody else holds and that has room. */
    method OpenGap(v: Id, where: nat, amount: nat)
      requires M().Valid() && v in vectors && where <= vectors[v].mCount
      requires M().Sole(v, vectors[v].mStorage) && vectors[v].mStorage != 0
      requires vectors[v].mCount + amount <= M().Capacity(v)
      modifies this`vectors, this`buffers
      ensures M().ValidExcept({v}) && Kept(old(M()), M(), v) && M().Sole(v, vectors[v].mStorage)
      ensures Gapped(flags, buffers[vectors[v].mStorage].slots, where, amount, old(M().View()[v]))
      ensures vectors[v].mCount == old(vectors[v].mCount) + amount
      ensures M().Capacity(v) == old(M().Capacity(v)) && vectors[v].mStorage == old(vectors[v].mStorage)
    {
      hide Memory.Valid, Memory.View, Memory.Contents, Memory.Ok, Memory.ValidExcept, Kept;
      OkFacts(M(), v);
      ValidIsValidExcept(M(), v);
      var f := vectors[v];
      var slots := buffers[f.mStorage].slots;
      GapByMoving(flags, slots, where, amount, M().View()[v]);
      hide Gapped;
      Edit(v, Move(flags, slots, where + amount, where, f.mCount - where), f.mCount + amount);
    }

    /** _grow: opens a gap of the given size.  The result says whether it returned a pointer to the
        gap; it returns null when memory runs out, and for a gap that starts where the buffer ends. */
    method Grow(v: Id, where: nat, amount: nat, memory: bool) returns (ok: bool)
      requires M().Valid() && v in vectors && where <= vectors[v].mCount
      modifies this
      ensures ok <==>
        if old(M().Capacity(v)) < old(vectors[v].mCount) + amount then memory else where < old(M().Capacity(v))
      ensures !ok ==> M().Valid() && M().View() == old(M().View())
      ensures ok ==>
        && M().ValidExcept({v}) && Kept(old(M()), M(), v) && M().Sole(v, vectors[v].mStorage)
        && Gapped(flags, buffers[vectors[v].mStorage].slots, where, amount, old(M().View()[v]))
        && vectors[v].mCount == old(vectors[v].mCount) + amount
      ensures v in vectors
      ensures M().Capacity(v) ==
        if ok && old(M().Capacity(v)) < old(vectors[v].mCount) + amount
        then GrownCapacity(old(vectors[v].mCount) + amount)
        else old(M().Capacity(v))
      ensures old(M().Capacity(v)) >= old(vectors[v].mCount) + amount && old(M().Sole(v, vectors[v].mStorage)) ==>
        vectors[v].mStorage == old(vectors[v].mStorage)
      ensures copied == old(copied) +
        if old(M().Capacity(v)) < old(vectors[v].mCount) + amount then (if ok then old(vectors[v].mCount) else 0)
        else if old(M().Sole(v, vectors[v].mStorage)) then 0 else old(vectors[v].mCount)
    {
      hide Memory.Valid, Memory.View, Memory.Contents, Memory.Ok, Memory.ValidExcept, Kept, Gapped;
      ghost var m := M();
      OkFacts(m, v);
      var f := vectors[v];
      var newSize := f.mCount + amount;
      if M().Capacity(v) < newSize {
        var newCapacity := GrownCapacity(newSize);
        ok := GrowStorage(v, where, amount, newCapacity, memory);
        if ok { copied := copied + f.mCount; }
      } else {
        EditArrayImpl(v);
        ok := where < M().Capacity(v);
        if ok {
          ghost var n := M();
          KeptSameView(m, n, v);
          OkFacts(n, v);
          OpenGap(v, where, amount);
          KeptTwo(m, n, M(), v);
        }
      }
    }

    /** Constructs items in the gap that Grow opened. */
    method Fill(ghost m: Memory<T>, v: Id, where: nat, items: seq<T>)
      requires v in m.vectors && m.Valid() && M().ValidExcept({v}) && Kept(m, M(), v)
      requires v in vectors && M().Sole(v, vectors[v].mStorage)
      requires Gapped(flags, buffers[vectors[v].mStorage].slots, where, |items|, m.View()[v])
      requires vectors[v].mCount == m.vectors[v].mCount + |items|
      modifies this`vectors, this`buffers
      ensures M().Valid()
      ensures M().View() == m.View()[v := m.View()[v][..where] + items + m.View()[v][where..]]
      ensures v in vectors && M().Capacity(v) == old(M().Capacity(v)) && M().Sole(v, vectors[v].mStorage)
    {
      hide Memory.Valid, Memory.View, Memory.Contents, Memory.Ok, Memory.ValidExcept, Kept, Filled;
      var slots := buffers[vectors[v].mStorage].slots;
      GapFilled(flags, slots, where, items, m.View()[v]);
      assert |m.View()[v]| == m.vectors[v].mCount by { OkFacts(m, v); }
      ghost var n := M();
      Edit(v, Construct(flags, slots, where, items), vectors[v].mCount);
      KeptTwice(m, n, M(), v);
    }

    /** insertArrayAt: items come from memory other than the buffer of v. */
    method InsertArrayAt(v: Id, items: seq<T>, index: nat, memory: bool) returns (status: Status)
      requires M().Valid() && v in vectors
      modifies this
      ensures M().Valid()
      ensures status == InsertStatus(old(vectors[v].mCount), old(M().Capacity(v)), index, |items|, memory)
      ensures M().View() == if status == Done
        then old(M().View())[v := old(M().View()[v])[..index] + items + old(M().View()[v])[index..]]
        else old(M().View())
      ensures copied <= old(copied) + old(vectors[v].mCount)
    {
      hide Memory.Valid, Memory.View, Memory.Contents, Memory.Ok, Memory.ValidExcept, Kept, Gapped;
      if index > vectors[v].mCount {
        return BadIndex;
      }
      ghost var m := M();
      OkFacts(m, v);
      var where := Grow(v, index, |items|, memory);
      if where {
        Fill(m, v, index, items);
      }
      status := if where then Done else NoMemory;
    }

    /** insertAt: numItems copies of an item. */
    method InsertAt(v: Id, item: T, index: nat, numItems: nat, memory: bool) returns (status: Status)
      requires M().Valid() && v in vectors
      modifies this
      ensures M().Valid()
      ensures status == InsertStatus(old(vectors[v].mCount), old(M().Capacity(v)), index, numItems, memory)
      ensures M().View() == if status == Done
        then old(M().View())[v := old(M().View()[v])[..index] + seq(numItems, _ => item) + old(M().View()[v])[index..]]
        else old(M().View())
      ensures v in vectors && M().Capacity(v) ==
        if status == Done && old(M().Capacity(v)) < old(vectors[v].mCount) + numItems
        then GrownCapacity(old(vectors[v].mCount) + numItems)
        else old(M().Capacity(v))
      ensures status == Done ==> M().Sole(v, vectors[v].mStorage)
      ensures copied == old(copied) +
        if status == BadIndex then 0
        else if old(M().Capacity(v)) < old(vectors[v].mCount) + numItems then (if status == Done then old(vectors[v].mCount) else 0)
        else if old(M().Sole(v, vectors[v].mStorage)) then 0 else old(vectors[v].mCount)
    {
      hide Memory.Valid, Memory.View, Memory.Contents, Memory.Ok, Memory.ValidExcept, Kept, Gapped;
      if index > vectors[v].mCount {
        return BadIndex;
      }
      ghost var m := M();
      OkFacts(m, v);
      var where := Grow(v, index, numItems, memory);
      if where {
        Fill(m, v, index, seq(numItems, _ => item));
      }
      status := if where then Done else NoMemory;
    }

    /** insertVectorAt reads the items after the growth, through the pointer to the buffer of w taken
        before it.  When w is v itself, that is the old buffer, which must still be there with the items
        in their places: because somebody else holds it, or because they are appended where there is
        room, or because nothing is read at all. */
    predicate CanReadItself(v: Id, index: nat, memory: bool)
      requires v in vectors
      reads this
    {
      var count := vectors[v].mCount;
      || !(vectors[v].mStorage in buffers && buffers[vectors[v].mStorage].refs == 1)
      || (index == count && 2 * count <= M().Capacity(v))
      || count == 0 || index > count || (2 * count > M().Capacity(v) && !memory)
    }

    method InsertVectorAt(v: Id, w: Id, index: nat, memory: bool) returns (status: Status)
      requires M().Valid() && v in vectors && w in vectors && (v == w ==> CanReadItself(v, index, memory))
      modifies this
      ensures M().Valid()
      ensures status == InsertStatus(old(vectors[v].mCount), old(M().Capacity(v)), index, old(vectors[w].mCount), memory)
      ensures M().View() == if status == Done
        then old(M().View())[v := old(M().View()[v])[..index] + old(M().View()[w]) + old(M().View()[v])[index..]]
        else old(M().View())
    {
      hide Memory.Valid, Memory.View, Memory.Contents, Memory.Ok, Memory.ValidExcept, Kept, Gapped, Filled, Values;
      var from, length := vectors[w].mStorage, vectors[w].mCount;
      if index > vectors[v].mCount {
        return BadIndex;
      }
      ghost var m := M();
      OkFacts(m, v);
      OkFacts(m, w);
      var where := Grow(v, index, length, memory);
      if where {
        if v != w {
          KeptFacts(m, M(), v, w);
        } else if from != 0 && !m.Sole(v, from) {
          SharedStays(m, M(), v);
        } else if length != 0 {
          GappedFront(flags, buffers[from].slots, index, length, m.View()[v]);
        }
        var items := if from == 0 || length == 0 then [] else Values(buffers[from].slots, 0, length);
        assert items == m.View()[w];
        Fill(m, v, index, items);
      }
      status := if where then Done else NoMemory;
    }

    /** insertAt without an item: default construction, which for a trivial constructor leaves
        whatever the memory held. */
    method InsertDefaultAt(v: Id, default: T, leftover: nat -> T, index: nat, numItems: nat, memory: bool)
      returns (status: Status)
      requires M().Valid() && v in vectors
      modifies this
      ensures M().Valid() && v in vectors
      ensures status == InsertStatus(old(vectors[v].mCount), old(M().Capacity(v)), index, numItems, memory)
      ensures M().View() == if status == Done
        then old(M().View())[v := old(M().View()[v])[..index] + Made(flags, default, leftover, numItems)
          + old(M().View()[v])[index..]]
        else old(M().View())
      ensures status == Done ==> forall k :: 0 <= k < numItems ==>
        M().View()[v][index + k] == if flags.trivialCtor then leftover(k) else default
    {
      hide Memory.Valid, Memory.View, Memory.Contents, Memory.Ok, Memory.ValidExcept, Kept, Gapped;
      if index > vectors[v].mCount {
        return BadIndex;
      }
      ghost var m := M();
      OkFacts(m, v);
      var where := Grow(v, index, numItems, memory);
      if where {
        Fill(m, v, index, Made(flags, default, leftover, numItems));
      }
      status := if where then Done else NoMemory;
    }

    /** replaceAt, with an item outside the buffer. */
    method ReplaceAt(v: Id, item: T, index: nat) returns (status: Status)
      requires M().Valid() && v in vectors
      modifies this
      ensures M().Valid()
      ensures status == if index < old(vectors[v].mCount) then Done else BadIndex
      ensures M().View() == if status == Done
        then old(M().View())[v := old(M().View()[v])[index := item]]
        else old(M().View())
    {
      hide Memory.Valid, Memory.View, Memory.Contents, Memory.Ok, Memory.ValidExcept, Kept;
      OkFacts(M(), v);
      if index >= vectors[v].mCount {
        return BadIndex;
      }
      EditArrayImpl(v);
      OkFacts(M(), v);
      ValidIsValidExcept(M(), v);
      var f := vectors[v];
      var slots := Overwrite(flags, buffers[f.mStorage].slots, index, item);
      assert Values(slots, 0, f.mCount) == M().View()[v][index := item];
      assert Filled(flags, slots, f.mCount);
      hide Filled, Values;
      Edit(v, slots, f.mCount);
      status := Done;
    }

    /** The items that stay, in storage of a new capacity. */
    method ShrinkStorage(v: Id, where: nat, amount: nat, newCapacity: nat, memory: bool) returns (done: bool)
      requires M().Valid() && v in vectors && vectors[v].mStorage != 0
      requires where + amount <= vectors[v].mCount && vectors[v].mCount - amount <= newCapacity
      modifies this
      ensures done == memory
      ensures !done ==> M() == old(M())
      ensures done ==> v in vectors && M().Capacity(v) == newCapacity && M().Sole(v, vectors[v].mStorage)
      ensures copied == old(copied) + if done then old(vectors[v].mCount) - amount else 0
      ensures done ==> M().Valid() && M().View() == old(M().View())[v := Without(old(M().View()[v]), where, amount)]
    {
      hide Memory.Valid, Memory.View, Memory.Contents, Memory.Ok, Memory.ValidExcept, Kept;
      ghost var m := M();
      OkFacts(m, v);
      var f := vectors[v];
      var newSize := f.mCount - amount;
      var items: seq<T> := Values(buffers[f.mStorage].slots, 0, f.mCount);
      if where == newSize && flags.trivialCopy && flags.trivialDtor {
        ShrunkAtEnd(flags, buffers[f.mStorage].slots, newCapacity, amount, items);
        hide Filled, Values, Without;
        done := EditResize(v, newCapacity, memory);
        if done {
          ghost var n := M();
          Edit(v, buffers[vectors[v].mStorage].slots, newSize);
          KeptTwice(m, n, M(), v);
        }
      } else {
        done := memory;
        if done {
          ShrunkInNewStorage(flags, newCapacity, where, amount, items);
          var storage := Construct(flags, RawSlots(newCapacity), 0, items[..where]);
          storage := Construct(flags, storage, where, items[where + amount..]);
          hide Filled, Values, Without, Construct;
          ReleaseStorage(v);
          Attach(v, storage, newSize);
        }
      }
      if done { copied := copied + newSize; }
    }

    method CloseGap(v: Id, where: nat, amount: nat)
      requires M().Valid() && v in vectors && vectors[v].mStorage != 0 && M().Sole(v, vectors[v].mStorage)
      requires where + amount <= vectors[v].mCount
      modifies this`vectors, this`buffers
      ensures M().Valid() && M().View() == old(M().View())[v := Without(old(M().View()[v]), where, amount)]
      ensures M().Capacity(v) == old(M().Capacity(v)) && M().Sole(v, vectors[v].mStorage)
    {
      hide Memory.Valid, Memory.View, Memory.Contents, Memory.Ok, Memory.ValidExcept, Kept;
      OkFacts(M(), v);
      ValidIsValidExcept(M(), v);
      var f := vectors[v];
      var slots := buffers[f.mStorage].slots;
      ShrunkInPlace(flags, slots, where, amount, M().View()[v]);
      slots := Destroy(flags, slots, where, amount);
      slots := Move(flags, slots, where, where + amount, f.mCount - amount - where);
      hide Filled, Values, Without, Move;
      Edit(v, slots, f.mCount - amount);
    }

    /** _shrink: removes a range of items, unless that takes memory that is not there. */
    method Shrink(v: Id, where: nat, amount: nat, memory: bool) returns (ghost done: bool)
      requires M().Valid() && v in vectors && where + amount <= vectors[v].mCount
      modifies this
      ensures M().Valid()
      ensures done <==> ShrinkSucceeds(old(vectors[v].mCount), old(M().Capacity(v)), amount, memory)
      ensures M().View() == if done
        then old(M().View())[v := Without(old(M().View()[v]), where, amount)]
        else old(M().View())
      ensures v in vectors && M().Capacity(v) ==
        if done then CapacityAfterShrink(old(vectors[v].mCount), old(M().Capacity(v)), amount) else old(M().Capacity(v))
      ensures done && old(vectors[v].mCount) - amount < old(M().Capacity(v)) / 2 ==>
        (M().Capacity(v) < old(M().Capacity(v)) <==> old(M().Capacity(v)) > MIN_VECTOR_CAPACITY)
      ensures done && vectors[v].mStorage != 0 ==> M().Sole(v, vectors[v].mStorage)
      ensures copied == old(copied) +
        if !done || old(vectors[v].mStorage) == 0 then 0
        else if old(vectors[v].mCount) - amount < old(M().Capacity(v)) / 2 then old(vectors[v].mCount) - amount
        else if old(M().Sole(v, vectors[v].mStorage)) then 0 else old(vectors[v].mCount)
    {
      hide Memory.Valid, Memory.View, Memory.Contents, Memory.Ok, Memory.ValidExcept, Kept;
      OkFacts(M(), v);
      done := true;
      var f := vectors[v];
      if f.mStorage == 0 {
        assert M().View()[v] == Without(M().View()[v], where, amount);
        return;
      }
      hide Without;
      var newSize := f.mCount - amount;
      if newSize < M().Capacity(v) / 2 {
        var ok := ShrinkStorage(v, where, amount, ShrunkCapacity(newSize), memory);
        done := ok;
      } else {
        EditArrayImpl(v);
        CloseGap(v, where, amount);
      }
    }

    /** removeItemsAt: it reports success even when _shrink gave up. */
    method RemoveItemsAt(v: Id, index: nat, count: nat, memory: bool) returns (status: Status, ghost done: bool)
      requires M().Valid() && v in vectors
      modifies this
      ensures M().Valid()
      ensures status == if index + count <= old(vectors[v].mCount) then Done else BadValue
      ensures done <==> status == Done && ShrinkSucceeds(old(vectors[v].mCount), old(M().Capacity(v)), count, memory)
      ensures M().View() == if done
        then old(M().View())[v := Without(old(M().View()[v]), index, count)]
        else old(M().View())
      ensures v in vectors && M().Capacity(v) ==
        if done then CapacityAfterShrink(old(vectors[v].mCount), old(M().Capacity(v)), count) else old(M().Capacity(v))
    {
      if index + count > vectors[v].mCount {
        return BadValue, false;
      }
      done := Shrink(v, index, count, memory);
      status := Done;
    }

    /** setCapacity: never below the number of items. */
    method SetCapacity(v: Id, newCapacity: nat, memory: bool) returns (status: Status, capacity: nat)
      requires M().Valid() && v in vectors
      modifies this
      ensures M().Valid() && M().View() == old(M().View()) && v in vectors
      ensures status == if newCapacity > old(vectors[v].mCount) && !memory then NoMemory else Done
      ensures status == Done ==> capacity == M().Capacity(v)
      ensures M().Capacity(v) ==
        if status == Done && newCapacity > old(vectors[v].mCount) then newCapacity else old(M().Capacity(v))
      ensures copied == old(copied) + if newCapacity > old(vectors[v].mCount) && memory then old(vectors[v].mCount) else 0
    {
      hide Memory.Valid, Memory.View, Memory.Contents, Memory.Ok, Memory.ValidExcept, Kept;
      OkFacts(M(), v);
      var f := vectors[v];
      if newCapacity <= f.mCount {
        return Done, M().Capacity(v);
      }
      if !memory {
        return NoMemory, 0;
      }
      var items: seq<T> := if f.mStorage == 0 then [] else Values(buffers[f.mStorage].slots, 0, f.mCount);
      CopiedWhole(flags, newCapacity, items);
      var storage := Construct(flags, RawSlots(newCapacity), 0, items);
      hide Filled, Values;
      ReleaseStorage(v);
      Attach(v, storage, f.mCount);
      copied := copied + f.mCount;
      return Done, newCapacity;
    }

    /** One step of sort that moves item i down, through a temporary slot. */
    method SortItem(v: Id, i: nat, cmp: (T, T) -> int, x: T)
      requires M().Valid() && v in vectors && M().Sole(v, vectors[v].mStorage) && vectors[v].mStorage != 0
      requires 0 < i < vectors[v].mCount && M().View()[v][i] == x && cmp(M().View()[v][i - 1], x) > 0
      modifies this`vectors, this`buffers
      ensures M().Valid() && v in vectors && vectors[v] == old(vectors[v]) && M().Sole(v, vectors[v].mStorage)
      ensures M().View() == old(M().View())[v :=
        InsertRight(cmp, old(M().View()[v])[..i], x) + old(M().View()[v])[i + 1..]]
    {
      hide Memory.Valid, Memory.View, Memory.Contents, Memory.Ok, Memory.ValidExcept, Kept;
      OkFacts(M(), v);
      ValidIsValidExcept(M(), v);
      var f := vectors[v];
      var slots := buffers[f.mStorage].slots;
      assert Values(slots, 0, i) == M().View()[v][..i];
      var r := InsertIntoPrefix(flags, slots, i, cmp, x);
      SpliceValues(flags, slots, r, i + 1, f.mCount);
      hide Filled, Values, InsertRight;
      Edit(v, r, f.mCount);
    }

    /** One turn of sort's outer loop: item i goes down to its place.  The first item that has to takes
        memory for the temporary slot. */
    method PlaceItem(v: Id, i: nat, cmp: (T, T) -> int, memory: bool, temp: seq<Slot<T>>, moved: bool)
      returns (ok: bool, temp': seq<Slot<T>>, moved': bool)
      requires M().Valid() && v in vectors && vectors[v].mStorage != 0 && 0 < i < vectors[v].mCount
      requires |temp| == 1 && temp[0].Live? == moved
      requires moved ==> memory && M().Sole(v, vectors[v].mStorage)
      modifies this
      ensures M().Valid() && v in vectors && vectors[v].mStorage != 0 && freed == old(freed)
      ensures vectors[v].mCount == old(vectors[v].mCount)
      ensures moved' == (moved || cmp(old(M().View()[v])[i - 1], old(M().View()[v])[i]) > 0)
      ensures ok == (moved' ==> memory)
      ensures ok ==> |temp'| == 1 && temp'[0].Live? == moved' && (moved' ==> M().Sole(v, vectors[v].mStorage))
      ensures M().View() == if ok && cmp(old(M().View()[v])[i - 1], old(M().View()[v])[i]) > 0
        then old(M().View())[v :=
          InsertRight(cmp, old(M().View()[v])[..i], old(M().View()[v])[i]) + old(M().View()[v])[i + 1..]]
        else old(M().View())
    {
      hide Memory.Valid, Memory.View, Memory.Contents, Memory.Ok, Memory.ValidExcept, Kept, InsertRight, Destroy, Construct;
      OkFacts(M(), v);
      ok, temp', moved' := true, temp, moved;
      var slots := buffers[vectors[v].mStorage].slots;
      var item, curr := slots[i].value, slots[i - 1].value;
      assert curr == M().View()[v][i - 1] && item == M().View()[v][i];
      if cmp(curr, item) > 0 {
        if !moved {
          EditArrayImpl(v);
          moved' := true;
          if !memory {
            ok := false;
            return;
          }
        } else {
          temp' := Destroy(flags, temp', 0, 1);
        }
        temp' := Construct(flags, temp', 0, [item]);
        SortItem(v, i, cmp, temp'[0].value);
      }
    }

    /** sort. */
    method Sort(v: Id, cmp: (T, T) -> int, memory: bool) returns (status: Status)
      requires M().Valid() && v in vectors
      modifies this
      ensures M().Valid()
      ensures status == if memory || NoInversion(cmp, old(M().View()[v])) then Done else NoMemory
      ensures M().View() == if status == Done
        then old(M().View())[v := InsertionSort(cmp, old(M().View()[v]))]
        else old(M().View())
      ensures |freed| == |old(freed)| + if status == Done && !NoInversion(cmp, old(M().View()[v])) then 1 else 0
    {
      hide Memory.Valid, Memory.View, Memory.Contents, Memory.Ok, Memory.ValidExcept, Kept, InsertionSort, InsertRight, PartlySorted;
      OkFacts(M(), v);
      ghost var view := M().View();
      ghost var s := view[v];
      SortEnds(cmp, s);
      assert |s| <= 1 ==> NoInversion(cmp, s);
      assert s != [] ==> NoInversion(cmp, s[..1]);
      assert s[..|s|] == s;
      hide NoInversion, Destroy, Construct, Filled;
      var count := vectors[v].mCount;
      ghost var before := freed;
      if count > 1 {
        var temp: seq<Slot<T>> := RawSlots(1);
        var moved := false;
        var i := 1;
        while i < count
          invariant 1 <= i <= count == |s|
          invariant M().Valid() && v in vectors && vectors[v].mCount == count && vectors[v].mStorage != 0
          invariant M().View() == view[v := PartlySorted(cmp, s, i)]
          invariant freed == before
          invariant |temp| == 1 && temp[0].Live? == moved
          invariant moved ==> memory && !NoInversion(cmp, s) && M().Sole(v, vectors[v].mStorage)
          invariant !moved ==> PartlySorted(cmp, s, i) == s && NoInversion(cmp, s[..i])
        {
          SortTurn(cmp, s, i);
          InversionNext(cmp, s, i);
          OkFacts(M(), v);
          var ok;
          ok, temp, moved := PlaceItem(v, i, cmp, memory, temp, moved);
          if !ok {
            return NoMemory;
          }
          i := i + 1;
        }
        if moved {
          temp := Destroy(flags, temp, 0, 1);
          Free(temp);
        }
      }
      status := Done;
    }

    /** resize: keeps the items that fit, and default-constructs the ones that are missing.  It
        reports success even when the removal was given up. */
    method Resize(v: Id, size: nat, default: T, leftover: nat -> T, memory: bool)
      returns (status: Status, ghost done: bool)
      requires M().Valid() && v in vectors
      modifies this
      ensures M().Valid()
      ensures status == if size > old(M().Capacity(v)) && !memory then NoMemory else Done
      ensures done == (status == Done && (size >= old(vectors[v].mCount)
        || ShrinkSucceeds(old(vectors[v].mCount), old(M().Capacity(v)), old(vectors[v].mCount) - size, memory)))
      ensures M().View() == if done
        then old(M().View())[v := Resized(flags, old(M().View()[v]), size, default, leftover)]
        else old(M().View())
      ensures done ==>
        && v in vectors && |M().View()[v]| == size
        && (forall k :: 0 <= k < size && k < old(vectors[v].mCount) ==>
             M().View()[v][k] == old(M().View()[v])[k])
        && (forall k :: old(vectors[v].mCount) <= k < size ==>
             M().View()[v][k] == (if flags.trivialCtor then leftover(k - old(vectors[v].mCount)) else default))
    {
      hide Memory.Valid, Memory.View, Memory.Contents, Memory.Ok, Memory.ValidExcept, Kept, Made;
      OkFacts(M(), v);
      ghost var s := M().View()[v];
      var count := vectors[v].mCount;
      assert count == |s| <= M().Capacity(v);
      ghost var r := Resized(flags, s, size, default, leftover);
      ResizedParts(flags, s, size, default, leftover);
      hide Resized, Without;
      status, done := Done, true;
      if size > count {
        status := InsertDefaultAt(v, default, leftover, count, size - count, memory);
        done := status == Done;
      } else if size < count {
        status, done := RemoveItemsAt(v, size, count - size, memory);
      } else {
        assert M().View()[v := s] == M().View();
      }
      assert done ==> v in vectors && M().View()[v] == r;
      ResizedItems(flags, s, size, default, leftover);
    }

    /** push(item), n times, on an empty vector, whatever buffer it may still hold. */
    method AppendAll(v: Id, items: seq<T>)
      requires M().Valid() && v in vectors && vectors[v].mCount == 0
      modifies this
      ensures M().Valid() && M().View() == old(M().View())[v := items]
      ensures copied == old(copied) + AppendCost(0, old(M().Capacity(v)), |items|)
      ensures copied <= old(copied) + 3 * |items|
    {
      hide Memory.Valid, Memory.View, Memory.Contents, Memory.Ok, Memory.ValidExcept, Kept;
      OkFacts(M(), v);
      ghost var capacity := M().Capacity(v);
      AppendCostBound(0, capacity, |items|, 0);
      var i := 0;
      assert M().View()[v] == items[..0];
      hide AppendCost, GrownCapacity;
      while i < |items|
        invariant 0 <= i <= |items|
        invariant M().Valid() && v in vectors && vectors[v].mCount == i
        invariant M().View() == old(M().View())[v := items[..i]]
        invariant i > 0 ==> M().Sole(v, vectors[v].mStorage)
        invariant copied + AppendCost(i, M().Capacity(v), |items| - i) == old(copied) + AppendCost(0, capacity, |items|)
      {
        AppendCostNext(i, M().Capacity(v), |items| - i);
        OneMoreItem(items, i, seq(1, _ => items[i]));
        var status := InsertAt(v, items[i], vectors[v].mCount, 1, true);
        OkFacts(M(), v);
        i := i + 1;
      }
      assert items[..|items|] == items;
      assert AppendCost(i, M().Capacity(v), 0) == 0 by {
        AppendCostNext(i, M().Capacity(v), 1);
      }
    }
  }
}
