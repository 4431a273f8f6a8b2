/** Storage slots of a buffer and the lifetime rules of the objects in them.

    A slot is either raw memory or holds a constructed object.  The functions below are the four
    ways VectorImpl touches slots; their preconditions are the lifetime rules: nothing is
    constructed over a live object, and only live objects are read, moved or destroyed.  For item
    types whose destructor is trivial, destroying does nothing and a dead object may be overwritten.
  */
module Slots {

  datatype Slot<+T> = Raw | Live(value: T)

  /** The mFlags bits of VectorImpl: what the item type's constructor, destructor and copy do. */
  datatype Flags = Flags(trivialCtor: bool, trivialDtor: bool, trivialCopy: bool)

  ghost predicate AllLive<T>(s: seq<Slot<T>>, at: nat, n: nat)
    requires at + n <= |s|
  {
    forall k :: at <= k < at + n ==> s[k].Live?
  }

  /** True iff objects may be constructed in the n slots from index at. */
  ghost predicate Vacant<T>(f: Flags, s: seq<Slot<T>>, at: nat, n: nat)
    requires at + n <= |s|
  {
    f.trivialDtor || forall k :: at <= k < at + n ==> s[k].Raw?
  }

  /** The slots of a vector of count items: exactly the first count of them hold objects. */
  ghost predicate Filled<T>(f: Flags, s: seq<Slot<T>>, count: nat) {
    && count <= |s|
    && AllLive(s, 0, count)
    && Vacant(f, s, count, |s| - count)
  }

  function Values<T>(s: seq<Slot<T>>, at: nat, n: nat): (vs: seq<T>)
    requires at + n <= |s| && AllLive(s, at, n)
    ensures |vs| == n
    ensures forall k :: 0 <= k < n ==> vs[k] == s[at + k].value
  {
    seq(n, k requires 0 <= k < n => s[at + k].value)
  }

  function RawSlots<T>(n: nat): (s: seq<Slot<T>>)
    ensures |s| == n && forall k :: 0 <= k < n ==> s[k].Raw?
  {
    seq(n, _ => Raw)
  }

  /** _do_copy, _do_splat and _do_construct: objects with the given values come to life. */
  function Construct<T>(f: Flags, s: seq<Slot<T>>, at: nat, vs: seq<T>): (r: seq<Slot<T>>)
    requires at + |vs| <= |s| && Vacant(f, s, at, |vs|)
    ensures |r| == |s|
    ensures forall k :: 0 <= k < |s| ==> r[k] == if at <= k < at + |vs| then Live(vs[k - at]) else s[k]
  {
    s[..at] + seq(|vs|, k requires 0 <= k < |vs| => Live(vs[k])) + s[at + |vs|..]
  }

  /** _do_destroy. */
  function Destroy<T>(f: Flags, s: seq<Slot<T>>, at: nat, n: nat): (r: seq<Slot<T>>)
    requires at + n <= |s| && AllLive(s, at, n)
    ensures |r| == |s|
    ensures forall k :: 0 <= k < |s| && !(at <= k < at + n) ==> r[k] == s[k]
    ensures Vacant(f, r, at, n)
  {
    if f.trivialDtor then s else s[..at] + RawSlots(n) + s[at + n..]
  }

  /** _do_destroy and _do_copy on the same slot. */
  function Overwrite<T>(f: Flags, s: seq<Slot<T>>, at: nat, value: T): (r: seq<Slot<T>>)
    requires at < |s| && s[at].Live?
    ensures r == s[at := Live(value)]
  {
    Construct(f, Destroy(f, s, at, 1), at, [value])
  }

  /** _do_move_forward and _do_move_backward: n objects move from one range of slots to another,
      which may overlap it.  The slots they leave and do not enter again become vacant. */
  function Move<T>(f: Flags, s: seq<Slot<T>>, to: nat, from: nat, n: nat): (r: seq<Slot<T>>)
    requires to + n <= |s| && from + n <= |s|
    requires AllLive(s, from, n)
    requires f.trivialDtor || forall k :: to <= k < to + n && !(from <= k < from + n) ==> s[k].Raw?
    ensures |r| == |s|
    ensures forall k :: to <= k < to + n ==> r[k] == s[from + (k - to)]
    ensures forall k :: 0 <= k < |s| && !(to <= k < to + n) && !(from <= k < from + n) ==> r[k] == s[k]
    ensures forall k :: from <= k < from + n && !(to <= k < to + n) ==> f.trivialDtor || r[k].Raw?
  {
    seq(|s|, k requires 0 <= k < |s| =>
      if to <= k < to + n then s[from + (k - to)]
      else if from <= k < from + n && !f.trivialDtor then Raw
      else s[k])
  }

  /** realloc and memcpy of whole buffers: keeps what fits. */
  function Realloc<T>(s: seq<Slot<T>>, capacity: nat): (r: seq<Slot<T>>)
    ensures |r| == capacity
    ensures forall k :: 0 <= k < |s| && k < capacity ==> r[k] == s[k]
    ensures forall k :: |s| <= k < capacity ==> r[k].Raw?
  {
    if capacity <= |s| then s[..capacity] else s + RawSlots(capacity - |s|)
  }
}
