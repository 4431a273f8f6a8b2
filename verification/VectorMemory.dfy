/** The memory VectorImpl works on: buffers by address, and the two fields of every vector.

    Address 0 is the null pointer.  A buffer is in the map from the moment it is allocated until it
    is freed, so a pointer to a freed buffer is an address that is not in the map.
  */
module VectorMemory {
  import opened Slots

  type Addr = nat
  type Id = nat

  datatype Buffer<+T> = Buffer(refs: nat, slots: seq<Slot<T>>)

  datatype VectorFields = VectorFields(mStorage: Addr, mCount: nat)

  datatype Memory<T> = Memory(flags: Flags, buffers: map<Addr, Buffer<T>>, vectors: map<Id, VectorFields>) {

    ghost function Holders(a: Addr): set<Id> {
      set v | v in vectors && vectors[v].mStorage == a
    }

    /** Exactly the first mCount slots of the vector's buffer hold objects. */
    ghost predicate Ok(v: Id)
      requires v in vectors
    {
      var f := vectors[v];
      if f.mStorage == 0 then f.mCount == 0
      else f.mStorage in buffers && Filled(flags, buffers[f.mStorage].slots, f.mCount)
    }

    /** Buffers are the ones some vector points to, each with its number of holders as its count. */
    ghost predicate Counted() {
      && 0 !in buffers
      && (forall v :: v in vectors && vectors[v].mStorage != 0 ==> vectors[v].mStorage in buffers)
      && (forall a :: a in buffers ==> buffers[a].refs >= 1 && buffers[a].refs == |Holders(a)|)
    }

    ghost predicate Agree() {
      forall v, w :: v in vectors && w in vectors && vectors[v].mStorage == vectors[w].mStorage
        ==> vectors[v].mCount == vectors[w].mCount
    }

    /** The aliasing invariant.  It leaves the slots of the vectors in xs unconstrained. */
    ghost predicate ValidExcept(xs: set<Id>) {
      Counted() && Agree() && forall v :: v in vectors && v !in xs ==> Ok(v)
    }

    ghost predicate Valid() {
      Counted() && Agree() && forall v :: v in vectors ==> Ok(v)
    }

    ghost function Contents(v: Id): (s: seq<T>)
      requires v in vectors && Ok(v)
      ensures |s| == vectors[v].mCount
    {
      var f := vectors[v];
      if f.mStorage == 0 then [] else Values(buffers[f.mStorage].slots, 0, f.mCount)
    }

    /** What a caller sees of the memory. */
    ghost function View(): (view: map<Id, seq<T>>)
      requires Valid()
      ensures view.Keys == vectors.Keys
    {
      map v | v in vectors :: Contents(v)
    }

    function Capacity(v: Id): nat
      requires v in vectors
    {
      var a := vectors[v].mStorage;
      if a in buffers then |buffers[a].slots| else 0
    }

    /** Buffer a has no holder but v. */
    ghost predicate Sole(v: Id, a: Addr) {
      v in vectors && vectors[v].mStorage == a && a in buffers && buffers[a].refs == 1
    }
  }

  lemma SoleMember<A>(s: set<A>, x: A)
    requires x in s && |s| == 1
    ensures s == {x}
  {
    assert |s - {x}| == 0;
  }

  /** A sole owner shares its buffer with nobody. */
  lemma SoleHolder<T>(m: Memory<T>, v: Id, a: Addr)
    requires m.Counted() && m.Sole(v, a)
    ensures forall w :: w in m.vectors && w != v ==> m.vectors[w].mStorage != a
  {
    SoleMember(m.Holders(a), v);
    forall w | w in m.vectors && w != v ensures m.vectors[w].mStorage != a {
      assert w !in m.Holders(a);
    }
  }

  /** Redirecting v moves it from the holders of one address to those of another. */
  lemma HoldersMove<T>(m: Memory<T>, m': Memory<T>, v: Id, a: Addr)
    requires v in m.vectors && v in m'.vectors && m'.vectors == m.vectors[v := m'.vectors[v]]
    ensures m'.Holders(a) - {v} == m.Holders(a) - {v}
    ensures m.vectors[v].mStorage != a && m'.vectors[v].mStorage != a ==> m'.Holders(a) == m.Holders(a)
    ensures m.vectors[v].mStorage == a && m'.vectors[v].mStorage != a ==>
      |m'.Holders(a)| == |m.Holders(a)| - 1
    ensures m.vectors[v].mStorage != a && m'.vectors[v].mStorage == a ==>
      |m'.Holders(a)| == |m.Holders(a)| + 1
  {
    assert m'.Holders(a) - {v} == m.Holders(a) - {v};
    if m.vectors[v].mStorage == a && m'.vectors[v].mStorage != a {
      assert v in m.Holders(a) && m'.Holders(a) == m.Holders(a) - {v};
    } else if m.vectors[v].mStorage != a && m'.vectors[v].mStorage == a {
      assert v !in m.Holders(a) && m'.Holders(a) == m.Holders(a) + {v};
    } else if m.vectors[v].mStorage != a {
      assert v !in m.Holders(a) && m'.Holders(a) == m.Holders(a);
    }
  }

  /** Only vector v differs between two memories. */
  ghost predicate Kept<T>(m: Memory<T>, m': Memory<T>, v: Id) {
    && v in m.vectors && v in m'.vectors
    && m'.vectors == m.vectors[v := m'.vectors[v]]
    && forall w :: w in m.vectors && w != v ==> m.Ok(w) && m'.Ok(w) && m'.Contents(w) == m.Contents(w)
  }

  /** release_storage; the pointer, which the program overwrites next, is left null. */
  function Released<T>(m: Memory<T>, v: Id): Memory<T>
    requires v in m.vectors
  {
    var a := m.vectors[v].mStorage;
    var vs := m.vectors[v := VectorFields(0, 0)];
    if a !in m.buffers then m.(vectors := vs)
    else if m.buffers[a].refs <= 1 then m.(vectors := vs, buffers := m.buffers - {a})
    else m.(vectors := vs, buffers := m.buffers[a := m.buffers[a].(refs := m.buffers[a].refs - 1)])
  }

  lemma ReleasedCounted<T>(m: Memory<T>, v: Id)
    requires m.Counted() && v in m.vectors
    ensures Released(m, v).Counted()
  {
    var m' := Released(m, v);
    var a := m.vectors[v].mStorage;
    forall b | b in m'.buffers
      ensures m'.buffers[b].refs >= 1 && m'.buffers[b].refs == |m'.Holders(b)|
    {
      HoldersMove(m, m', v, b);
    }
    if a != 0 && m.buffers[a].refs == 1 {
      SoleHolder(m, v, a);
    }
  }

  lemma SameSlots<T>(m: Memory<T>, m': Memory<T>, w: Id)
    requires w in m.vectors && m.Ok(w) && w in m'.vectors && m'.flags == m.flags
    requires m'.vectors[w] == m.vectors[w]
    requires var a := m.vectors[w].mStorage; a != 0 ==> a in m'.buffers && m'.buffers[a].slots == m.buffers[a].slots
    ensures m'.Ok(w) && m'.Contents(w) == m.Contents(w)
  {
  }

  lemma KeptView<T>(m: Memory<T>, m': Memory<T>, v: Id)
    requires m.Valid() && m'.Valid() && Kept(m, m', v)
    ensures m'.View() == m.View()[v := m'.Contents(v)]
  {
  }

  lemma ReleasedKeeps<T>(m: Memory<T>, v: Id, w: Id)
    requires m.Valid() && v in m.vectors && w in m.vectors && w != v
    ensures Released(m, v).Ok(w) && Released(m, v).Contents(w) == m.Contents(w)
  {
    var a := m.vectors[v].mStorage;
    if a != 0 && m.buffers[a].refs == 1 {
      SoleHolder(m, v, a);
    }
    SameSlots(m, Released(m, v), w);
  }

  /** A change of v alone keeps the invariant if it keeps the counts and the other vectors. */
  lemma Recombine<T>(m: Memory<T>, m': Memory<T>, v: Id)
    requires m.ValidExcept({v}) && v in m.vectors && v in m'.vectors
    requires m'.Counted()
    requires m'.vectors == m.vectors[v := m'.vectors[v]]
    requires forall w :: w in m.vectors && w != v ==> m'.Ok(w) && m'.Contents(w) == m.Contents(w)
    requires forall w :: w in m.vectors && w != v && m.vectors[w].mStorage == m'.vectors[v].mStorage
               ==> m.vectors[w].mCount == m'.vectors[v].mCount
    ensures m'.ValidExcept({v}) && Kept(m, m', v)
    ensures m'.Ok(v) ==> m'.Valid()
    ensures m.Valid() && m'.Ok(v) ==> m'.View() == m.View()[v := m'.Contents(v)]
  {
    assert m'.Agree() by { RecombineAgree(m, m', v); }
    hide Memory.Agree, Memory.Counted, Memory.Ok, Memory.Contents, Memory.View;
    assert m'.ValidExcept({v}) && Kept(m, m', v);
    if m.Valid() && m'.Ok(v) {
      KeptView(m, m', v);
    }
  }

  lemma RecombineAgree<T>(m: Memory<T>, m': Memory<T>, v: Id)
    requires m.Agree() && v in m.vectors && v in m'.vectors
    requires m'.vectors == m.vectors[v := m'.vectors[v]]
    requires forall w :: w in m.vectors && w != v && m.vectors[w].mStorage == m'.vectors[v].mStorage
               ==> m.vectors[w].mCount == m'.vectors[v].mCount
    ensures m'.Agree()
  {
  }

  lemma ReleasedValid<T>(m: Memory<T>, v: Id)
    requires m.Valid() && v in m.vectors
    ensures Released(m, v).Valid() && Kept(m, Released(m, v), v)
    ensures Released(m, v).View() == m.View()[v := []]
  {
    ReleasedCounted(m, v);
    forall w | w in m.vectors && w != v
      ensures Released(m, v).Ok(w) && Released(m, v).Contents(w) == m.Contents(w)
    {
      ReleasedKeeps(m, v, w);
    }
    Recombine(m, Released(m, v), v);
  }

  /** mStorage of v, null before, is pointed to a new buffer at address a. */
  function Attached<T>(m: Memory<T>, v: Id, a: Addr, slots: seq<Slot<T>>, count: nat): Memory<T> {
    m.(buffers := m.buffers[a := Buffer(1, slots)], vectors := m.vectors[v := VectorFields(a, count)])
  }

  lemma AttachedValid<T>(m: Memory<T>, v: Id, a: Addr, slots: seq<Slot<T>>, count: nat)
    requires m.Valid() && v in m.vectors && m.vectors[v].mStorage == 0
    requires a != 0 && a !in m.buffers
    ensures var m' := Attached(m, v, a, slots, count);
      && m'.ValidExcept({v}) && Kept(m, m', v) && m'.Sole(v, a)
      && (m'.Ok(v) ==> m'.Valid() && m'.View() == m.View()[v := m'.Contents(v)])
  {
    var m' := Attached(m, v, a, slots, count);
    forall b | b in m'.buffers
      ensures m'.buffers[b].refs >= 1 && m'.buffers[b].refs == |m'.Holders(b)|
    {
      HoldersMove(m, m', v, b);
      if b == a { assert m.Holders(a) == {}; }
    }
    forall w | w in m.vectors && w != v
      ensures m'.Ok(w) && m'.Contents(w) == m.Contents(w)
    {
      SameSlots(m, m', w);
    }
    Recombine(m, m', v);
  }

  /** v edits the buffer it is the only holder of. */
  function Rewritten<T>(m: Memory<T>, v: Id, slots: seq<Slot<T>>, count: nat): Memory<T>
    requires v in m.vectors
  {
    var a := m.vectors[v].mStorage;
    m.(buffers := m.buffers[a := Buffer(1, slots)], vectors := m.vectors[v := VectorFields(a, count)])
  }

  lemma RewrittenValid<T>(m: Memory<T>, v: Id, slots: seq<Slot<T>>, count: nat)
    requires m.ValidExcept({v}) && v in m.vectors && m.Sole(v, m.vectors[v].mStorage)
    ensures var m' := Rewritten(m, v, slots, count);
      && m'.ValidExcept({v}) && Kept(m, m', v) && m'.Sole(v, m.vectors[v].mStorage)
      && (m'.Ok(v) ==> m'.Valid())
      && (m.Valid() && m'.Ok(v) ==> m'.View() == m.View()[v := m'.Contents(v)])
  {
    var m' := Rewritten(m, v, slots, count);
    var a := m.vectors[v].mStorage;
    SoleHolder(m, v, a);
    forall b | b in m'.buffers
      ensures m'.buffers[b].refs >= 1 && m'.buffers[b].refs == |m'.Holders(b)|
    {
      assert m'.Holders(b) == m.Holders(b);
    }
    forall w | w in m.vectors && w != v
      ensures m'.Ok(w) && m'.Contents(w) == m.Contents(w)
    {
      SameSlots(m, m', w);
    }
    Recombine(m, m', v);
  }

  /** v, null before, becomes one more holder of the buffer of w. */
  function SharedWith<T>(m: Memory<T>, v: Id, w: Id): Memory<T>
    requires w in m.vectors && m.vectors[w].mStorage in m.buffers
  {
    var a := m.vectors[w].mStorage;
    m.(buffers := m.buffers[a := m.buffers[a].(refs := m.buffers[a].refs + 1)], vectors := m.vectors[v := m.vectors[w]])
  }

  lemma SharedWithValid<T>(m: Memory<T>, v: Id, w: Id)
    requires m.Valid() && v in m.vectors && m.vectors[v].mStorage == 0
    requires w in m.vectors && m.vectors[w].mStorage != 0
    ensures var m' := SharedWith(m, v, w);
      m'.Valid() && Kept(m, m', v) && m'.View() == m.View()[v := m.View()[w]]
  {
    var m' := SharedWith(m, v, w);
    forall b | b in m'.buffers
      ensures m'.buffers[b].refs >= 1 && m'.buffers[b].refs == |m'.Holders(b)|
    {
      HoldersMove(m, m', v, b);
    }
    forall u | u in m.vectors && u != v
      ensures m'.Ok(u) && m'.Contents(u) == m.Contents(u)
    {
      SameSlots(m, m', u);
    }
    assert m'.Ok(v) && m'.Contents(v) == m.Contents(w);
    Recombine(m, m', v);
  }

  function Created<T>(m: Memory<T>, v: Id): Memory<T> {
    m.(vectors := m.vectors[v := VectorFields(0, 0)])
  }

  lemma CreatedValid<T>(m: Memory<T>, v: Id)
    requires m.Valid() && v !in m.vectors
    ensures Created(m, v).Valid() && Created(m, v).View() == m.View()[v := []]
  {
    CreatedCounted(m, v);
    CreatedAgree(m, v);
    hide Memory.Counted, Memory.Agree, Memory.View;
    forall w | w in m.vectors ensures Created(m, v).Ok(w) && Created(m, v).Contents(w) == m.View()[w] {
      CreatedKeeps(m, v, w);
    }
    assert Created(m, v).Ok(v) && Created(m, v).Contents(v) == [];
    hide Memory.Ok, Memory.Contents;
    ViewIs(Created(m, v), m.View()[v := []]);
  }

  lemma CreatedKeeps<T>(m: Memory<T>, v: Id, w: Id)
    requires m.Valid() && v !in m.vectors && w in m.vectors
    ensures Created(m, v).Ok(w) && Created(m, v).Contents(w) == m.View()[w]
  {
    SameSlots(m, Created(m, v), w);
  }

  lemma CreatedCounted<T>(m: Memory<T>, v: Id)
    requires m.Counted() && v !in m.vectors
    ensures Created(m, v).Counted()
  {
    var m' := Created(m, v);
    forall b | b in m'.buffers
      ensures m'.buffers[b].refs >= 1 && m'.buffers[b].refs == |m'.Holders(b)|
    {
      assert m'.Holders(b) == m.Holders(b);
    }
  }

  lemma CreatedAgree<T>(m: Memory<T>, v: Id)
    requires m.Valid() && v !in m.vectors
    ensures Created(m, v).Agree()
  {
  }

  lemma ViewIs<T>(m: Memory<T>, view: map<Id, seq<T>>)
    requires m.Counted() && m.Agree()
    requires view.Keys == m.vectors.Keys
    requires forall w :: w in m.vectors ==> m.Ok(w) && m.Contents(w) == view[w]
    ensures m.Valid() && m.View() == view
  {
  }

  /** The allocator never runs out of addresses. */
  lemma FreshAddress(used: set<Addr>)
    ensures exists a: Addr :: a != 0 && a !in used
  {
    var top := Top(used);
    assert top + 1 != 0 && top + 1 !in used;
  }

  ghost function Top(used: set<Addr>): (top: Addr)
    ensures forall a :: a in used ==> a <= top
  {
    if used == {} then 0
    else
      var a :| a in used;
      var rest := Top(used - {a});
      assert forall b :: b in used ==> b == a || b in used - {a};
      if a > rest then a else rest
  }

  lemma OkFacts<T>(m: Memory<T>, v: Id)
    requires m.Valid() && v in m.vectors
    ensures m.Ok(v) && m.View()[v] == m.Contents(v)
    ensures m.vectors[v].mStorage != 0 ==>
      && m.vectors[v].mStorage in m.buffers && m.buffers[m.vectors[v].mStorage].refs >= 1
      && Filled(m.flags, m.buffers[m.vectors[v].mStorage].slots, m.vectors[v].mCount)
      && m.Contents(v) == Values(m.buffers[m.vectors[v].mStorage].slots, 0, m.vectors[v].mCount)
    ensures m.vectors[v].mStorage == 0 ==> m.vectors[v].mCount == 0
    ensures 0 !in m.buffers
  {
  }

  lemma ValidIsValidExcept<T>(m: Memory<T>, v: Id)
    requires m.Valid()
    ensures m.ValidExcept({v})
  {
  }

  lemma KeptTwo<T>(m: Memory<T>, n: Memory<T>, m': Memory<T>, v: Id)
    requires Kept(m, n, v) && Kept(n, m', v)
    ensures Kept(m, m', v)
  {
  }

  lemma KeptFacts<T>(m: Memory<T>, m': Memory<T>, v: Id, w: Id)
    requires m.Valid() && Kept(m, m', v) && w in m.vectors && w != v
    ensures w in m'.vectors && m'.vectors[w] == m.vectors[w]
    ensures var f := m.vectors[w]; f.mStorage != 0 ==>
      && f.mStorage in m'.buffers && Filled(m'.flags, m'.buffers[f.mStorage].slots, f.mCount)
      && Values(m'.buffers[f.mStorage].slots, 0, f.mCount) == m.View()[w]
  {
  }

  /** A buffer that v holds and not alone keeps its items whatever happens to v. */
  lemma SharedStays<T>(m: Memory<T>, m': Memory<T>, v: Id)
    requires m.Valid() && Kept(m, m', v) && m.vectors[v].mStorage != 0 && !m.Sole(v, m.vectors[v].mStorage)
    ensures var f := m.vectors[v];
      && f.mStorage in m'.buffers && Filled(m'.flags, m'.buffers[f.mStorage].slots, f.mCount)
      && Values(m'.buffers[f.mStorage].slots, 0, f.mCount) == m.View()[v]
  {
    var a := m.vectors[v].mStorage;
    var w := OtherHolder(m, v);
    KeptFacts(m, m', v, w);
    assert m.Contents(w) == m.Contents(v);
  }

  lemma OtherHolder<T>(m: Memory<T>, v: Id) returns (w: Id)
    requires m.Counted() && v in m.vectors && m.vectors[v].mStorage != 0 && !m.Sole(v, m.vectors[v].mStorage)
    ensures w != v && w in m.vectors && m.vectors[w].mStorage == m.vectors[v].mStorage
  {
    var holders := m.Holders(m.vectors[v].mStorage);
    assert v in holders && |holders - {v}| == |holders| - 1 > 0;
    w :| w in holders - {v};
  }

  lemma KeptSameView<T>(m: Memory<T>, m': Memory<T>, v: Id)
    requires m.Valid() && m'.Valid() && m'.View() == m.View()
    requires v in m.vectors && m'.vectors == m.vectors[v := m'.vectors[v]]
    ensures Kept(m, m', v)
  {
    forall w | w in m.vectors ensures m'.Contents(w) == m.Contents(w) {
      assert m.View()[w] == m'.View()[w];
    }
  }

  /** Two steps that each touch v alone make one that does. */
  lemma KeptTwice<T>(m: Memory<T>, n: Memory<T>, m': Memory<T>, v: Id)
    requires m.Valid() && m'.Valid()
    requires Kept(m, n, v) && Kept(n, m', v)
    ensures Kept(m, m', v) && m'.View() == m.View()[v := m'.View()[v]]
  {
    hide Memory.Valid, Memory.View, Memory.Contents, Memory.Ok;
    KeptTwo(m, n, m', v);
    OkFacts(m', v);
    KeptView(m, m', v);
  }
}
