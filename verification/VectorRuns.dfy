/** Whole runs of vector operations: vectors that share buffers behave like independent sequences. */
module VectorRuns {
  import opened Slots
  import opened StableSort
  import opened VectorMemory
  import opened Vectors

  /** A call on vector v, and whether the memory it may ask for is there. */
  datatype Op<!T> =
    | Create(v: Id)
    | CopyConstruct(v: Id, rhs: Id)
    | Assign(v: Id, rhs: Id)
    | InsertArray(v: Id, items: seq<T>, index: nat, memory: bool)
    | InsertVector(v: Id, w: Id, index: nat, memory: bool)
    | Insert(v: Id, item: T, index: nat, numItems: nat, memory: bool)
    | Replace(v: Id, item: T, index: nat)
    | Remove(v: Id, index: nat, count: nat, memory: bool)
    | Resize(v: Id, size: nat, default: T, leftover: nat -> T, memory: bool)
    | SetCapacity(v: Id, newCapacity: nat, memory: bool)
    | Sort(v: Id, cmp: (T, T) -> int, memory: bool)
    | EditArray(v: Id)
    | Finish(v: Id)
  {
    predicate HasMemory() {
      match this
      case InsertArray(_, _, _, memory) => memory
      case InsertVector(_, _, _, memory) => memory
      case Insert(_, _, _, _, memory) => memory
      case Remove(_, _, _, memory) => memory
      case Resize(_, _, _, _, memory) => memory
      case Sort(_, _, memory) => memory
      case _ => true
    }

    /** The vectors the call mentions exist, a constructed one is new, and no vector is inserted
        into itself. */
    predicate Allowed(vectors: set<Id>) {
      match this
      case Create(v) => v !in vectors
      case CopyConstruct(v, rhs) => v !in vectors && rhs in vectors
      case Assign(v, rhs) => v in vectors && rhs in vectors
      case InsertVector(v, w, _, _) => v in vectors && w in vectors && v != w
      case _ => v in vectors
    }
  }

  /** The vectors that exist before call i. */
  ghost function Known<T>(vectors: set<Id>, ops: seq<Op<T>>, i: nat): set<Id>
    requires i <= |ops|
  {
    vectors + set j | 0 <= j < i :: ops[j].v
  }

  ghost predicate AllAllowed<T>(vectors: set<Id>, ops: seq<Op<T>>) {
    forall i :: 0 <= i < |ops| ==> ops[i].Allowed(Known(vectors, ops, i))
  }

  /** What a call does to independent sequences.  An index out of range changes nothing. */
  function Effect<T>(f: Flags, view: map<Id, seq<T>>, op: Op<T>): (next: map<Id, seq<T>>)
    requires op.Allowed(view.Keys)
    ensures next.Keys == view.Keys + {op.v}
  {
    match op
    case Create(v) => view[v := []]
    case CopyConstruct(v, rhs) => view[v := view[rhs]]
    case Assign(v, rhs) => view[v := view[rhs]]
    case InsertArray(v, items, index, _) =>
      if index > |view[v]| then view else view[v := view[v][..index] + items + view[v][index..]]
    case InsertVector(v, w, index, _) =>
      if index > |view[v]| then view else view[v := view[v][..index] + view[w] + view[v][index..]]
    case Insert(v, item, index, numItems, _) =>
      if index > |view[v]| then view
      else view[v := view[v][..index] + seq(numItems, _ => item) + view[v][index..]]
    case Replace(v, item, index) =>
      if index >= |view[v]| then view else view[v := view[v][index := item]]
    case Remove(v, index, count, _) =>
      if index + count > |view[v]| then view else view[v := view[v][..index] + view[v][index + count..]]
    case Resize(v, size, default, leftover, _) => view[v := Resized(f, view[v], size, default, leftover)]
    case SetCapacity(_, _, _) => view
    case Sort(v, cmp, _) => view[v := InsertionSort(cmp, view[v])]
    case EditArray(_) => view
    case Finish(v) => view[v := []]
  }

  lemma KnownInPrefix<T>(vectors: set<Id>, ops: seq<Op<T>>, n: nat, i: nat)
    requires i <= n <= |ops|
    ensures Known(vectors, ops[..n], i) == Known(vectors, ops, i)
  {
    assert forall j :: 0 <= j < i ==> ops[..n][j] == ops[j];
  }

  lemma AllowedInPrefix<T>(vectors: set<Id>, ops: seq<Op<T>>, n: nat)
    requires n <= |ops| && AllAllowed(vectors, ops)
    ensures AllAllowed(vectors, ops[..n])
  {
    forall i | 0 <= i < n ensures ops[..n][i].Allowed(Known(vectors, ops[..n], i)) {
      KnownInPrefix(vectors, ops, n, i);
      assert ops[i].Allowed(Known(vectors, ops, i));
    }
  }

  lemma PrefixAllowed<T>(vectors: set<Id>, ops: seq<Op<T>>, i: nat)
    requires i < |ops| && AllAllowed(vectors, ops)
    ensures AllAllowed(vectors, ops[..i]) && AllAllowed(vectors, ops[..i + 1])
    ensures ops[i].Allowed(Known(vectors, ops[..i], i))
  {
    AllowedInPrefix(vectors, ops, i);
    AllowedInPrefix(vectors, ops, i + 1);
    KnownInPrefix(vectors, ops, i, i);
    assert ops[i].Allowed(Known(vectors, ops, i));
    hide AllAllowed, Known;
  }

  lemma KnownStep<T>(vectors: set<Id>, ops: seq<Op<T>>, n: nat)
    requires n < |ops|
    ensures Known(vectors, ops, n + 1) == Known(vectors, ops[..n], n) + {ops[n].v}
  {
    assert forall j :: 0 <= j < n ==> ops[..n][j] == ops[j];
  }

  /** A run over independent sequences.  A call for which memory ran out may have no effect. */
  ghost function RunEffect<T>(f: Flags, view: map<Id, seq<T>>, ops: seq<Op<T>>, done: seq<bool>)
    : (after: map<Id, seq<T>>)
    requires |done| == |ops| && AllAllowed(view.Keys, ops)
    ensures after.Keys == Known(view.Keys, ops, |ops|)
  {
    if ops == [] then view
    else
      var n := |ops| - 1;
      PrefixAllowed(view.Keys, ops, n);
      KnownStep(view.Keys, ops, n);
      hide AllAllowed, Effect, Known;
      var before := RunEffect(f, view, ops[..n], done[..n]);
      if done[n] || ops[n].HasMemory() then Effect(f, before, ops[n]) else before
  }

  /** The insertions, none of which has an effect when it reports anything but success: either the
      index is out of range, or memory ran out, or there was nothing to insert. */
  method PerformInsertion<T>(h: VectorHeap<T>, op: Op<T>) returns (ghost done: bool)
    requires op.InsertArray? || op.InsertVector? || op.Insert?
    requires h.M().Valid() && op.Allowed(h.vectors.Keys)
    modifies h
    ensures h.M().Valid() && (op.HasMemory() ==> done)
    ensures h.M().View() == if done then Effect(h.flags, old(h.M().View()), op) else old(h.M().View())
  {
    hide Memory.Valid, Memory.View, Memory.Contents, Memory.Ok;
    OkFacts(h.M(), op.v);
    ghost var view := h.M().View();
    ghost var s := view[op.v];
    if op.index <= |s| { assert s[..op.index] + [] + s[op.index..] == s; }
    assert view[op.v := s] == view;
    var status;
    match op {
      case InsertArray(v, items, index, memory) =>
        status := h.InsertArrayAt(v, items, index, memory);
      case InsertVector(v, w, index, memory) =>
        OkFacts(h.M(), w);
        status := h.InsertVectorAt(v, w, index, memory);
      case Insert(v, item, index, numItems, memory) =>
        status := h.InsertAt(v, item, index, numItems, memory);
    }
    done := status != NoMemory || op.HasMemory();
  }

  method Perform<T>(h: VectorHeap<T>, op: Op<T>) returns (ghost done: bool)
    requires h.M().Valid() && op.Allowed(h.vectors.Keys)
    modifies h
    ensures h.M().Valid() && (op.HasMemory() ==> done)
    ensures h.M().View() == if done then Effect(h.flags, old(h.M().View()), op) else old(h.M().View())
  {
    hide Memory.Valid, Memory.View, Memory.Contents, Memory.Ok, Resized;
    done := true;
    match op {
      case Create(v) => h.Create(v);
      case CopyConstruct(v, rhs) => h.CopyConstruct(v, rhs);
      case Assign(v, rhs) => h.Assign(v, rhs);
      case InsertArray(_, _, _, _) => done := PerformInsertion(h, op);
      case InsertVector(_, _, _, _) => done := PerformInsertion(h, op);
      case Insert(_, _, _, _, _) => done := PerformInsertion(h, op);
      case Replace(v, item, index) =>
        OkFacts(h.M(), v);
        var status := h.ReplaceAt(v, item, index);
      case Remove(v, index, count, memory) =>
        OkFacts(h.M(), v);
        var status, gone := h.RemoveItemsAt(v, index, count, memory);
        done := gone || status != Done;
      case Resize(v, size, default, leftover, memory) =>
        var status, resized := h.Resize(v, size, default, leftover, memory);
        done := resized || memory;
      case SetCapacity(v, newCapacity, memory) =>
        var status, capacity := h.SetCapacity(v, newCapacity, memory);
      case Sort(v, cmp, memory) =>
        var status := h.Sort(v, cmp, memory);
        done := status == Done;
      case EditArray(v) => h.EditArrayImpl(v);
      case Finish(v) => h.Finish(v);
    }
  }

  lemma NoneAllowed<T>(vectors: set<Id>, ops: seq<Op<T>>)
    ensures AllAllowed(vectors, ops[..0])
  {
  }

  lemma RunStep<T>(f: Flags, view: map<Id, seq<T>>, ops: seq<Op<T>>, done: seq<bool>, i: nat, took: bool)
    requires |done| == i < |ops|
    requires AllAllowed(view.Keys, ops[..i]) && AllAllowed(view.Keys, ops[..i + 1])
    requires ops[i].Allowed(Known(view.Keys, ops[..i], i))
    ensures RunEffect(f, view, ops[..i + 1], done + [took]) ==
      if took || ops[i].HasMemory() then Effect(f, RunEffect(f, view, ops[..i], done), ops[i])
      else RunEffect(f, view, ops[..i], done)
  {
    assert ops[..i + 1][..i] == ops[..i] && (done + [took])[..i] == done;
  }

  /** Value semantics over whole runs, together with the aliasing invariant: every buffer is counted
      by its holders, and freed when the last of them lets go. */
  method Run<T>(h: VectorHeap<T>, ops: seq<Op<T>>) returns (ghost done: seq<bool>)
    requires h.M().Valid() && AllAllowed(h.vectors.Keys, ops)
    modifies h
    ensures h.M().Valid() && |done| == |ops|
    ensures h.M().View() == RunEffect(h.flags, old(h.M().View()), ops, done)
  {
    hide Memory.Valid, Memory.View, Effect, AllAllowed;
    done := [];
    ghost var view := h.M().View();
    NoneAllowed(view.Keys, ops);
    var i := 0;
    while i < |ops|
      invariant 0 <= i <= |ops| && |done| == i
      invariant h.M().Valid()
      invariant AllAllowed(view.Keys, ops[..i])
      invariant h.M().View() == RunEffect(h.flags, view, ops[..i], done)
    {
      PrefixAllowed(view.Keys, ops, i);
      var took := Perform(h, ops[i]);
      RunStep(h.flags, view, ops, done, i, took);
      done := done + [took];
      i := i + 1;
    }
    assert ops[..|ops|] == ops;
  }
}
