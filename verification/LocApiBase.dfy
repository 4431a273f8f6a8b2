/** LocApiBase: the table of location adapters, and the masks of the events they want. */
module LocApis {

  const MAX_ADAPTERS: nat := 10

  /** A mask of events, as the set of its bits. */
  type EventMask = set<nat>

  /** LocAdapterBase, whose mEvtMask is const. */
  class LocAdapter {
    const mEvtMask: EventMask

    constructor (mask: EventMask)
      ensures mEvtMask == mask
    {
      mEvtMask := mask;
    }
  }

  /** What the table makes happen: a message that opens the engine with a mask, or a close. */
  datatype Action = Open(mask: EventMask) | Close

  function AllMasks(adapters: seq<LocAdapter>): EventMask {
    if adapters == [] then {} else AllMasks(adapters[..|adapters| - 1]) + adapters[|adapters| - 1].mEvtMask
  }

  /** An event is in the joint mask exactly when some adapter wants it, in whatever order they stand. */
  lemma {:induction false} AllMasksBits(adapters: seq<LocAdapter>, bit: nat)
    ensures bit in AllMasks(adapters) <==> exists a :: a in adapters && bit in a.mEvtMask
  {
    if adapters != [] {
      var n := |adapters| - 1;
      AllMasksBits(adapters[..n], bit);
      if bit in AllMasks(adapters) {
        var a :| a in adapters[..n] + [adapters[n]] && bit in a.mEvtMask;
        assert a in adapters;
      }
      if exists a :: a in adapters && bit in a.mEvtMask {
        var a :| a in adapters && bit in a.mEvtMask;
        assert a in adapters[..n] || a == adapters[n];
      }
    }
  }

  function Members(adapters: seq<LocAdapter>): set<LocAdapter> {
    set a | a in adapters
  }

  ghost predicate Distinct(adapters: seq<LocAdapter>) {
    forall i, j :: 0 <= i < j < |adapters| ==> adapters[i] != adapters[j]
  }

  lemma {:induction false} MembersCount(adapters: seq<LocAdapter>)
    requires Distinct(adapters)
    ensures |Members(adapters)| == |adapters|
  {
    if adapters != [] {
      var n := |adapters| - 1;
      MembersCount(adapters[..n]);
      assert Members(adapters) == Members(adapters[..n]) + {adapters[n]};
    }
  }

  /** The last adapter moves into the place of the one removed. */
  function WithLastAt(adapters: seq<LocAdapter>, j: nat): seq<LocAdapter>
    requires j < |adapters|
  {
    adapters[j := adapters[|adapters| - 1]][..|adapters| - 1]
  }

  lemma WithLastMembers(adapters: seq<LocAdapter>, j: nat)
    requires j < |adapters| && Distinct(adapters)
    ensures Distinct(WithLastAt(adapters, j))
    ensures Members(WithLastAt(adapters, j)) == Members(adapters) - {adapters[j]}
  {
    var r := WithLastAt(adapters, j);
    var n := |adapters| - 1;
    forall a ensures a in r <==> a in adapters && a != adapters[j] {
      if a in adapters && a != adapters[j] {
        var i :| 0 <= i <= n && adapters[i] == a;
        assert if i == n then r[j] == a else r[i] == a;
      }
    }
  }

  class LocApiBase {
    const mLocAdapters: array<LocAdapter?>
    const mExcludedMask: EventMask
    ghost var adapters: seq<LocAdapter>
    ghost var actions: seq<Action>

    /** The slots in use are a prefix of the table and hold different adapters. */
    ghost predicate Valid()
      reads this, mLocAdapters
    {
      && mLocAdapters.Length == MAX_ADAPTERS && |adapters| <= MAX_ADAPTERS
      && (forall i :: 0 <= i < MAX_ADAPTERS ==>
           mLocAdapters[i] == if i < |adapters| then adapters[i] else null)
      && Distinct(adapters)
    }

    constructor (excludedMask: EventMask)
      ensures Valid() && adapters == [] && actions == [] && mExcludedMask == excludedMask && fresh(mLocAdapters)
    {
      mLocAdapters := new LocAdapter?[MAX_ADAPTERS](_ => null);
      mExcludedMask := excludedMask;
      adapters, actions := [], [];
    }

    /** getEvtMask. */
    method GetEvtMask() returns (mask: EventMask)
      requires Valid()
      ensures mask == AllMasks(adapters) - mExcludedMask
    {
      mask := {};
      var i := 0;
      while i < MAX_ADAPTERS && mLocAdapters[i] != null
        invariant 0 <= i <= |adapters|
        invariant mask == AllMasks(adapters[..i])
      {
        assert adapters[..i + 1][..i] == adapters[..i];
        mask := mask + mLocAdapters[i].mEvtMask;
        i := i + 1;
      }
      assert adapters[..i] == adapters;
      mask := mask - mExcludedMask;
    }

    /** addAdapter.  An adapter that is there already is not added, nor is one that finds no slot.  The
        message it sends carries the adapter's whole mask, excluded events and all. */
    method AddAdapter(adapter: LocAdapter)
      requires Valid()
      modifies this, mLocAdapters
      ensures Valid()
      ensures adapters ==
        if adapter in old(adapters) || |old(adapters)| == MAX_ADAPTERS then old(adapters) else old(adapters) + [adapter]
      ensures Members(adapters) ==
        if |Members(old(adapters))| < MAX_ADAPTERS then Members(old(adapters)) + {adapter} else Members(old(adapters))
      ensures actions == old(actions) + if adapters == old(adapters) then [] else [Open(adapter.mEvtMask)]
    {
      MembersCount(adapters);
      assert Members(adapters + [adapter]) == Members(adapters) + {adapter};
      var i := 0;
      while i < MAX_ADAPTERS && mLocAdapters[i] != adapter
        invariant 0 <= i <= |adapters| && Valid()
        invariant adapters == old(adapters) && actions == old(actions)
        invariant forall k :: 0 <= k < i ==> adapters[k] != adapter
      {
        if mLocAdapters[i] == null {
          mLocAdapters[i] := adapter;
          adapters := adapters + [adapter];
          actions := actions + [Open(adapter.mEvtMask)];
          return;
        }
        i := i + 1;
      }
      if i < MAX_ADAPTERS { assert adapters[i] == adapter; }
    }

    /** removeAdapter. */
    method RemoveAdapter(adapter: LocAdapter)
      requires Valid()
      modifies this, mLocAdapters
      ensures Valid()
      ensures Members(adapters) == Members(old(adapters)) - {adapter}
      ensures |adapters| == |old(adapters)| - if adapter in old(adapters) then 1 else 0
      ensures adapter !in old(adapters) ==> adapters == old(adapters) && actions == old(actions)
      ensures adapter in old(adapters) ==>
        actions == old(actions) + [if adapters == [] then Close else Open(AllMasks(adapters) - mExcludedMask)]
    {
      var i := 0;
      while i < MAX_ADAPTERS && mLocAdapters[i] != null
        invariant 0 <= i <= |adapters| && Valid()
        invariant adapters == old(adapters) && actions == old(actions)
        invariant forall k :: 0 <= k < i ==> adapters[k] != adapter
      {
        if mLocAdapters[i] == adapter {
          ghost var before := adapters;
          mLocAdapters[i] := null;
          var j := i;
          i := i + 1;
          while i < MAX_ADAPTERS && mLocAdapters[i] != null
            invariant j < i <= |before|
          {
            i := i + 1;
          }
          i := i - 1;
          mLocAdapters[j] := mLocAdapters[i];
          mLocAdapters[i] := null;
          adapters := WithLastAt(before, j);
          WithLastMembers(before, j);
          if i == 0 {
            actions := actions + [Close];
          } else {
            var mask := GetEvtMask();
            actions := actions + [Open(mask)];
          }
          assert i + 1 == MAX_ADAPTERS || mLocAdapters[i + 1] == null;  // the loop of the program ends here
          return;
        }
        i := i + 1;
      }
    }
  }

  // ----- whole runs

  datatype Call = AddCall(adapter: LocAdapter) | RemoveCall(adapter: LocAdapter)

  /** The adapters registered after a run of calls: a set of at most ten. */
  function Registered(registered: set<LocAdapter>, calls: seq<Call>): set<LocAdapter> {
    if calls == [] then registered
    else
      var before := Registered(registered, calls[..|calls| - 1]);
      match calls[|calls| - 1]
      case AddCall(a) => if |before| < MAX_ADAPTERS then before + {a} else before
      case RemoveCall(a) => before - {a}
  }

  /** The events that some registered adapter wants. */
  function JointMask(registered: set<LocAdapter>): EventMask {
    set a, bit | a in registered && bit in a.mEvtMask :: bit
  }

  lemma AllMasksJoint(adapters: seq<LocAdapter>)
    ensures AllMasks(adapters) == JointMask(Members(adapters))
  {
    forall bit ensures bit in AllMasks(adapters) <==> bit in JointMask(Members(adapters)) {
      AllMasksBits(adapters, bit);
      if bit in AllMasks(adapters) {
        var a :| a in adapters && bit in a.mEvtMask;
        assert a in Members(adapters);
      }
    }
  }

  /** What a call posts: an added adapter's own mask; after a removal the joint mask of the others
      without the excluded events, or a close when there are none. */
  function Posted(before: set<LocAdapter>, excluded: EventMask, call: Call): seq<Action> {
    match call
    case AddCall(a) => if a in before || |before| >= MAX_ADAPTERS then [] else [Open(a.mEvtMask)]
    case RemoveCall(a) =>
      if a !in before then []
      else if before == {a} then [Close]
      else [Open(JointMask(before - {a}) - excluded)]
  }

  /** What a run of calls posts. */
  function AllPosted(registered: set<LocAdapter>, excluded: EventMask, calls: seq<Call>): seq<Action> {
    if calls == [] then []
    else
      var n := |calls| - 1;
      AllPosted(registered, excluded, calls[..n]) + Posted(Registered(registered, calls[..n]), excluded, calls[n])
  }

  method Perform(api: LocApiBase, call: Call)
    requires api.Valid()
    modifies api, api.mLocAdapters
    ensures api.Valid()
    ensures Members(api.adapters) == Registered(Members(old(api.adapters)), [call])
    ensures api.actions == old(api.actions) + Posted(Members(old(api.adapters)), api.mExcludedMask, call)
  {
    ghost var before := api.adapters;
    MembersCount(before);
    assert [call][..0] == [];
    match call {
      case AddCall(a) =>
        api.AddAdapter(a);
      case RemoveCall(a) =>
        api.RemoveAdapter(a);
        if a in before {
          MembersCount(api.adapters);
          AllMasksJoint(api.adapters);
          if |before| == 1 { assert Members(before) == {a}; }
        }
    }
  }

  /** The table holds what is registered, and every message that a call owes has been sent, in order. */
  method Run(api: LocApiBase, calls: seq<Call>)
    requires api.Valid()
    modifies api, api.mLocAdapters
    ensures api.Valid() && Members(api.adapters) == Registered(Members(old(api.adapters)), calls)
    ensures api.actions == old(api.actions) + AllPosted(Members(old(api.adapters)), api.mExcludedMask, calls)
  {
    hide Members, Posted;
    ghost var registered, excluded := Members(api.adapters), api.mExcludedMask;
    var i := 0;
    while i < |calls|
      invariant 0 <= i <= |calls| && api.Valid()
      invariant Members(api.adapters) == Registered(registered, calls[..i])
      invariant api.actions == old(api.actions) + AllPosted(registered, excluded, calls[..i])
    {
      assert calls[..i + 1][..i] == calls[..i] && [calls[i]][..0] == [];
      Perform(api, calls[i]);
      i := i + 1;
    }
    assert calls[..|calls|] == calls;
  }
}
