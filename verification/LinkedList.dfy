/** linked_list: a doubly linked list to whose head elements are added and from whose tail they are
    taken. */
module LinkedLists {
  import opened Options

  datatype Error =
    | Success
    | FailureGeneral
    | InvalidParameter
    | InvalidHandle
    | UnavailableResource
    | InsufficientBuffer

  /** A data pointer; 0 is the null pointer. */
  type Data = nat

  /** A dealloc function. */
  type Dealloc = nat

  /** What an element of the list carries. */
  datatype Item = Item(data: Data, dealloc: Option<Dealloc>)

  class ListElement {
    var next: ListElement?
    var prev: ListElement?
    const data_ptr: Data
    const dealloc_func: Option<Dealloc>

    constructor (data: Data, dealloc: Option<Dealloc>)
      ensures next == null && prev == null && data_ptr == data && dealloc_func == dealloc
    {
      next, prev := null, null;
      data_ptr, dealloc_func := data, dealloc;
    }
  }

  function Items(nodes: seq<ListElement>): (items: seq<Item>)
    ensures |items| == |nodes|
    ensures forall i :: 0 <= i < |nodes| ==> items[i] == Item(nodes[i].data_ptr, nodes[i].dealloc_func)
  {
    seq(|nodes|, i requires 0 <= i < |nodes| => Item(nodes[i].data_ptr, nodes[i].dealloc_func))
  }

  /** Every element but the last points to the one behind it. */
  ghost predicate NextOk(s: seq<ListElement>)
    reads (set i | 0 <= i < |s| - 1 :: s[i])`next
  {
    forall i {:trigger s[i].next} :: 0 <= i < |s| - 1 ==> s[i].next == s[i + 1]
  }

  /** Every element but the first points to the one before it. */
  ghost predicate PrevOk(s: seq<ListElement>)
    reads (set i | 1 <= i < |s| :: s[i])`prev
  {
    forall i {:trigger s[i].prev} :: 1 <= i < |s| ==> s[i].prev == s[i - 1]
  }

  /** The elements of s, between head and tail, point to one another and to nothing else. */
  ghost predicate Linked(s: seq<ListElement>, head: ListElement?, tail: ListElement?)
    reads s
  {
    && NextOk(s) && PrevOk(s)
    && if s == [] then head == null && tail == null
       else head == s[0] && tail == s[|s| - 1] && s[0].prev == null && s[|s| - 1].next == null
  }

  lemma LinksConcat(a: seq<ListElement>, b: seq<ListElement>)
    requires a != [] && b != []
    ensures NextOk(a + b) <==> NextOk(a) && NextOk(b) && a[|a| - 1].next == b[0]
    ensures PrevOk(a + b) <==> PrevOk(a) && PrevOk(b) && b[0].prev == a[|a| - 1]
  {
    var s := a + b;
    if NextOk(s) {
      assert s[|a| - 1].next == s[|a|];
      forall i | 0 <= i < |a| - 1 ensures a[i].next == a[i + 1] { assert s[i].next == s[i + 1]; }
      forall i | 0 <= i < |b| - 1 ensures b[i].next == b[i + 1] { assert s[|a| + i].next == s[|a| + i + 1]; }
    }
    if PrevOk(s) {
      assert s[|a|].prev == s[|a| - 1];
      forall i | 1 <= i < |a| ensures a[i].prev == a[i - 1] { assert s[i].prev == s[i - 1]; }
      forall i | 1 <= i < |b| ensures b[i].prev == b[i - 1] { assert s[|a| + i].prev == s[|a| + i - 1]; }
    }
  }

  /** Two chains whose ends point to each other are linked. */
  lemma Rejoined(front: seq<ListElement>, back: seq<ListElement>, head: ListElement?, tail: ListElement?)
    requires NextOk(front) && PrevOk(front) && NextOk(back) && PrevOk(back)
    requires head == if front != [] then front[0] else if back != [] then back[0] else null
    requires tail == if back != [] then back[|back| - 1] else if front != [] then front[|front| - 1] else null
    requires front != [] ==>
      front[0].prev == null && front[|front| - 1].next == if back != [] then back[0] else null
    requires back != [] ==>
      back[|back| - 1].next == null && back[0].prev == if front != [] then front[|front| - 1] else null
    ensures Linked(front + back, head, tail)
  {
    if front == [] {
      assert front + back == back;
    } else if back == [] {
      assert front + back == front;
    } else {
      LinksConcat(front, back);
      hide NextOk, PrevOk;
    }
  }

  class ListState {
    var p_head: ListElement?
    var p_tail: ListElement?
    ghost var nodes: seq<ListElement>       // from head to tail
    ghost var allocated_elements: set<ListElement>  // malloc'ed and not yet freed
    ghost var calls: seq<Item>              // items passed to their dealloc functions, in order

    ghost predicate Valid()
      reads this, nodes
    {
      && Linked(nodes, p_head, p_tail)
      && allocated_elements == set n | n in nodes
    }

    ghost function Contents(): (items: seq<Item>)
      reads this
      ensures |items| == |nodes|
    {
      Items(nodes)
    }

    /** The links lead through every element once: no element occurs twice. */
    lemma {:induction false} Acyclic(i: nat, j: nat)
      requires Valid() && i < j < |nodes|
      ensures nodes[i] != nodes[j]
    {
      if i > 0 && nodes[i] == nodes[j] {
        assert nodes[i].prev == nodes[i - 1] && nodes[j].prev == nodes[j - 1];
        Acyclic(i - 1, j - 1);
      }
    }

    constructor ()
      ensures Valid() && nodes == [] && calls == []
    {
      p_head, p_tail := null, null;
      nodes, allocated_elements, calls := [], {}, [];
    }

    /** The part of linked_list_add that links a newly allocated element. */
    method ReplaceHead(elem: ListElement)
      requires Valid() && elem !in nodes && elem.next == null && elem.prev == null
      modifies this, nodes, elem
      ensures Valid() && nodes == [elem] + old(nodes) && calls == old(calls)
      ensures Contents() == [Item(elem.data_ptr, elem.dealloc_func)] + old(Contents())
    {
      ghost var before := nodes;
      if before != [] { Elsewhere(0); }
      hide NextOk, PrevOk;
      var tmp := p_head;
      p_head := elem;
      elem.next := tmp;
      if tmp != null {
        tmp.prev := elem;
      } else {
        p_tail := elem;
      }
      nodes := [elem] + before;
      allocated_elements := allocated_elements + {elem};
      if before != [] { LinksConcat([elem], before); }
    }

    /** An element is not among those from another place of the list on. */
    lemma Elsewhere(k: nat)
      requires Valid() && k < |nodes|
      ensures forall i :: 0 <= i < |nodes| && i != k ==> nodes[i] != nodes[k]
    {
      forall i | 0 <= i < |nodes| && i != k ensures nodes[i] != nodes[k] {
        if i < k { Acyclic(i, k); } else { Acyclic(k, i); }
      }
    }

    /** The part of linked_list_remove that unlinks the last element. */
    method ReplaceTail() returns (tmp: ListElement)
      requires Valid() && nodes != []
      modifies this, nodes
      ensures Valid() && old(nodes) == nodes + [tmp] && calls == old(calls)
      ensures allocated_elements == old(allocated_elements) - {tmp}
    {
      ghost var n := |nodes|;
      Elsewhere(n - 1);
      if n > 1 { Elsewhere(n - 2); }
      tmp := p_tail;
      p_tail := tmp.prev;
      if p_tail != null {
        p_tail.next := null;
      } else {
        p_head := p_tail;
      }
      nodes := nodes[..n - 1];
      allocated_elements := allocated_elements - {tmp};  // free(tmp)
    }

    /** What linked_list_search does with the element found when it is to be removed. */
    method TakeOut(tmp: ListElement, ghost k: nat, dispose: bool)
      requires Valid() && k < |nodes| && nodes[k] == tmp
      modifies this, nodes
      ensures Valid() && forall n :: n in nodes ==> n in old(nodes)
      ensures Contents() == old(Contents())[..k] + old(Contents())[k + 1..]
      ensures calls ==
        if dispose && old(Contents())[k].dealloc.Some? then old(calls) + [old(Contents())[k]] else old(calls)
    {
      ghost var items := Contents();
      ItemsWithout(nodes, k);
      assert items[k] == Item(tmp.data_ptr, tmp.dealloc_func);
      hide Valid, Items, NextOk, PrevOk;
      Unlink(tmp, k);
      if dispose && tmp.dealloc_func != None {
        calls := calls + [Item(tmp.data_ptr, tmp.dealloc_func)];
      }
    }

    /** The part of linked_list_search that unlinks the element found. */
    method Unlink(tmp: ListElement, ghost k: nat)
      requires Valid() && k < |nodes| && nodes[k] == tmp
      modifies this, nodes
      ensures Valid() && nodes == old(nodes)[..k] + old(nodes)[k + 1..] && calls == old(calls)
      ensures allocated_elements == old(allocated_elements) - {tmp}
      ensures forall n :: n in nodes ==> n in old(nodes)
    {
      ghost var front, back := nodes[..k], nodes[k + 1..];
      SplitAround(k);
      Elsewhere(k);
      ElementsWithout(nodes, k, front + back);
      if k + 1 < |nodes| { Elsewhere(k + 1); }
      hide NextOk, PrevOk;
      SkipForward(tmp, k);
      SkipBackward(tmp, front, back);
      tmp.prev, tmp.next := null, null;
      Rejoined(front, back, p_head, p_tail);
      nodes := front + back;
      allocated_elements := allocated_elements - {tmp};  // free(tmp)
      hide Linked;
    }

    /** The element before tmp, or the head, skips it. */
    method SkipForward(tmp: ListElement, ghost k: nat)
      requires Valid() && k < |nodes| && nodes[k] == tmp
      modifies this`p_head, nodes`next
      ensures p_head == if k > 0 then nodes[0] else tmp.next
      ensures tmp.next == old(tmp.next)
      ensures NextOk(nodes[..k]) && NextOk(nodes[k + 1..])
      ensures k > 0 ==> nodes[k - 1].next == tmp.next
      ensures k + 1 < |nodes| ==> nodes[|nodes| - 1].next == null
    {
      SplitAround(k);
      Elsewhere(k);
      if k > 0 { Elsewhere(k - 1); }
      if tmp.prev == null {
        p_head := tmp.next;
      } else {
        tmp.prev.next := tmp.next;
      }
    }

    /** The element behind tmp, or the tail, skips it. */
    method SkipBackward(tmp: ListElement, ghost front: seq<ListElement>, ghost back: seq<ListElement>)
      requires PrevOk(front) && PrevOk(back) && tmp !in front && tmp !in back
      requires tmp.next == if back == [] then null else back[0]
      requires forall i :: 0 < i < |back| ==> back[i] != back[0]
      requires back != [] ==> back[0] !in front
      modifies this`p_tail, (if back == [] then {} else {back[0]})`prev
      ensures p_tail == if back == [] then tmp.prev else old(p_tail)
      ensures PrevOk(front) && PrevOk(back) && (back != [] ==> back[0].prev == tmp.prev)
      ensures tmp.prev == old(tmp.prev)
    {
      if tmp.next == null {
        p_tail := tmp.prev;
      } else {
        tmp.next.prev := tmp.prev;
      }
    }

    lemma SplitAround(k: nat)
      requires Valid() && k < |nodes|
      ensures NextOk(nodes[..k]) && PrevOk(nodes[..k]) && NextOk(nodes[k + 1..]) && PrevOk(nodes[k + 1..])
      ensures nodes[k].prev == (if k > 0 then nodes[k - 1] else null)
      ensures nodes[k].next == (if k + 1 < |nodes| then nodes[k + 1] else null)
    {
      assert nodes == nodes[..k] + nodes[k..];
      if k > 0 { LinksConcat(nodes[..k], nodes[k..]); }
      assert nodes[k..] == [nodes[k]] + nodes[k + 1..];
      if k + 1 < |nodes| { LinksConcat([nodes[k]], nodes[k + 1..]); }
    }
  }

  lemma ElementsWithout(nodes: seq<ListElement>, k: nat, rest: seq<ListElement>)
    requires k < |nodes| && rest == nodes[..k] + nodes[k + 1..]
    requires forall i :: 0 <= i < |nodes| && i != k ==> nodes[i] != nodes[k]
    ensures (set n | n in rest) == (set n | n in nodes) - {nodes[k]}
    ensures forall n :: n in rest ==> n in nodes
  {
  }

  ghost function Elements(list: ListState?): set<ListElement>
    reads list
  {
    if list == null then {} else set n | n in list.nodes
  }

  /** linked_list_add. */
  method Add(list: ListState?, data: Data, dealloc: Option<Dealloc>, memory: bool) returns (error: Error)
    requires list != null ==> list.Valid()
    modifies list, Elements(list)
    ensures error ==
      if list == null then InvalidHandle else if data == 0 then InvalidParameter
      else if !memory then FailureGeneral else Success
    ensures list != null ==> list.Valid() && list.calls == old(list.calls)
    ensures list != null ==> fresh(Elements(list) - old(Elements(list)))
    ensures error == Success ==> list.Contents() == [Item(data, dealloc)] + old(list.Contents())
    ensures error != Success && list != null ==> list.Contents() == old(list.Contents())
  {
    if list == null {
      return InvalidHandle;
    }
    if data == 0 {
      return InvalidParameter;
    }
    if !memory {
      return FailureGeneral;
    }
    var elem := new ListElement(data, dealloc);
    list.ReplaceHead(elem);
    return Success;
  }

  /** linked_list_remove. */
  method Remove(list: ListState?, wantsData: bool) returns (error: Error, data: Data)
    requires list != null ==> list.Valid()
    modifies list, Elements(list)
    ensures error ==
      if list == null then InvalidHandle else if !wantsData then InvalidParameter
      else if old(list.Contents()) == [] then UnavailableResource else Success
    ensures list != null ==> list.Valid() && list.calls == old(list.calls) && Elements(list) <= old(Elements(list))
    ensures error == Success ==>
      && old(list.Contents()) != [] && list.Contents() == old(list.Contents())[..|old(list.Contents())| - 1]
      && data == old(list.Contents())[|old(list.Contents())| - 1].data
    ensures error != Success ==> data == 0
    ensures error != Success && list != null ==> list.Contents() == old(list.Contents())
  {
    data := 0;
    if list == null {
      return InvalidHandle, data;
    }
    if !wantsData {
      return InvalidParameter, data;
    }
    if list.p_tail == null {
      return UnavailableResource, data;
    }
    var tmp := list.ReplaceTail();
    return Success, tmp.data_ptr;
  }

  /** linked_list_empty; a negative result is an error code. */
  method Empty(list: ListState?) returns (empty: int)
    requires list != null ==> list.Valid()
    ensures empty == if list == null then -3 else if list.Contents() == [] then 1 else 0
  {
    if list == null {
      return -3;
    }
    empty := if list.p_head == null then 1 else 0;
  }

  /** The items whose dealloc function gets called when they are thrown away. */
  function Disposed(items: seq<Item>): seq<Item> {
    if items == [] then []
    else Disposed(items[..|items| - 1]) + if items[|items| - 1].dealloc.Some? then [items[|items| - 1]] else []
  }

  /** An item is passed to its dealloc function as often as it is thrown away, if it has one; nothing
      else is passed on. */
  lemma {:induction false} DisposedExactly(items: seq<Item>, item: Item)
    ensures multiset(Disposed(items))[item] == if item.dealloc.Some? then multiset(items)[item] else 0
  {
    if items != [] {
      var front, last := items[..|items| - 1], items[|items| - 1];
      DisposedExactly(front, item);
      assert items == front + [last];
      assert multiset(Disposed(items)) == multiset(Disposed(front)) + if last.dealloc.Some? then multiset{last} else multiset{};
    }
  }

  /** The calls made so far when k elements have been thrown away. */
  function CallsAfter(calls: seq<Item>, nodes: seq<ListElement>, k: nat): seq<Item>
    requires k <= |nodes|
  {
    calls + Disposed(Items(nodes[..k]))
  }

  lemma DisposedNext(calls: seq<Item>, nodes: seq<ListElement>, k: nat)
    requires k < |nodes|
    ensures CallsAfter(calls, nodes, k + 1) ==
      if nodes[k].dealloc_func.Some?
      then CallsAfter(calls, nodes, k) + [Item(nodes[k].data_ptr, nodes[k].dealloc_func)]
      else CallsAfter(calls, nodes, k)
  {
    assert Items(nodes[..k + 1])[..k] == Items(nodes[..k]);
    assert Disposed(Items(nodes[..k])) + [] == Disposed(Items(nodes[..k]));
  }

  lemma DisposedEnds(calls: seq<Item>, nodes: seq<ListElement>)
    ensures CallsAfter(calls, nodes, 0) == calls
    ensures CallsAfter(calls, nodes, |nodes|) == calls + Disposed(Items(nodes))
  {
    assert nodes[..|nodes|] == nodes;
  }

  ghost function ElementsFrom(nodes: seq<ListElement>, k: nat): set<ListElement>
    requires k <= |nodes|
  {
    set n | n in nodes[k..]
  }

  ghost predicate Distinct(nodes: seq<ListElement>) {
    forall i, j :: 0 <= i < j < |nodes| ==> nodes[i] != nodes[j]
  }

  /** The next pointers lead from every element to the one behind it, and from the last to null. */
  ghost predicate Chained(nodes: seq<ListElement>)
    reads nodes
  {
    NextOk(nodes) && (nodes != [] ==> nodes[|nodes| - 1].next == null)
  }

  lemma ChainedAt(nodes: seq<ListElement>, k: nat)
    requires Chained(nodes) && k < |nodes|
    ensures nodes[k].next == if k + 1 < |nodes| then nodes[k + 1] else null
  {
  }

  lemma ElementsFromNext(nodes: seq<ListElement>, k: nat)
    requires k < |nodes| && Distinct(nodes)
    ensures nodes[k] in ElementsFrom(nodes, k)
    ensures ElementsFrom(nodes, k + 1) == ElementsFrom(nodes, k) - {nodes[k]}
  {
    assert nodes[k..] == [nodes[k]] + nodes[k + 1..];
  }

  /** linked_list_flush. */
  method Flush(list: ListState?) returns (error: Error)
    requires list != null ==> list.Valid()
    modifies list
    ensures error == if list == null then InvalidHandle else Success
    ensures list != null ==>
      list.Valid() && list.nodes == [] && list.calls == old(list.calls) + Disposed(old(list.Contents()))
  {
    if list == null {
      return InvalidHandle;
    }
    FreeElements(list);
    list.p_tail := null;
    list.nodes := [];
    return Success;
  }

  /** The loop of linked_list_flush. */
  method FreeElements(list: ListState)
    requires list.Valid()
    modifies list
    ensures list.p_head == null && list.allocated_elements == {} && list.nodes == old(list.nodes)
    ensures list.calls == old(list.calls) + Disposed(old(list.Contents()))
  {
    ghost var nodes, calls := list.nodes, list.calls;
    ghost var k := 0;
    FreeingStarts(list);
    DisposedEnds(calls, nodes);
    hide Disposed, Items, CallsAfter, ListState.Valid, ElementsFrom, Distinct, Chained, NextOk;
    while list.p_head != null
      invariant 0 <= k <= |nodes| && list.nodes == nodes && Chained(nodes)
      invariant list.p_head == if k < |nodes| then nodes[k] else null
      invariant list.calls == CallsAfter(calls, nodes, k)
      invariant list.allocated_elements == ElementsFrom(nodes, k)
      decreases |nodes| - k
    {
      DisposedNext(calls, nodes, k);
      ElementsFromNext(nodes, k);
      ChainedAt(nodes, k);
      FreeHead(list);
      k := k + 1;
    }
  }

  /** One turn of that loop: it reads the element before it frees it, and frees none twice. */
  method FreeHead(list: ListState)
    requires list.p_head != null && list.p_head in list.allocated_elements
    modifies list`p_head, list`calls, list`allocated_elements
    ensures list.p_head == old(list.p_head.next)
    ensures list.allocated_elements == old(list.allocated_elements) - {old(list.p_head)}
    ensures list.calls == if old(list.p_head).dealloc_func.Some?
      then old(list.calls) + [Item(old(list.p_head).data_ptr, old(list.p_head).dealloc_func)] else old(list.calls)
  {
    var tmp := list.p_head.next;
    if list.p_head.dealloc_func != None {
      list.calls := list.calls + [Item(list.p_head.data_ptr, list.p_head.dealloc_func)];
    }
    list.allocated_elements := list.allocated_elements - {list.p_head};  // free(p_head)
    list.p_head := tmp;
  }

  lemma FreeingStarts(list: ListState)
    requires list.Valid()
    ensures var nodes := list.nodes;
      && Chained(nodes) && Distinct(nodes)
      && list.p_head == (if 0 < |nodes| then nodes[0] else null)
      && ElementsFrom(nodes, 0) == list.allocated_elements && ElementsFrom(nodes, |nodes|) == {}
  {
    var nodes := list.nodes;
    forall i, j | 0 <= i < j < |nodes| ensures nodes[i] != nodes[j] {
      list.Acyclic(i, j);
    }
    assert nodes[0..] == nodes && nodes[|nodes|..] == [];
  }

  /** The first item that the search accepts; the length of the list when there is none. */
  function FirstMatch(items: seq<Item>, equal: (Data, Data) -> bool, data0: Data): (k: nat)
    ensures k <= |items|
    ensures forall i :: 0 <= i < k ==> !equal(data0, items[i].data)
    ensures k < |items| ==> equal(data0, items[k].data)
  {
    if items == [] || equal(data0, items[0].data) then 0 else 1 + FirstMatch(items[1..], equal, data0)
  }

  lemma FirstMatchUnique(items: seq<Item>, equal: (Data, Data) -> bool, data0: Data, k: nat)
    requires k <= |items|
    requires forall i :: 0 <= i < k ==> !equal(data0, items[i].data)
    requires k < |items| ==> equal(data0, items[k].data)
    ensures k == FirstMatch(items, equal, data0)
  {
  }

  lemma ItemsWithout(nodes: seq<ListElement>, k: nat)
    requires k < |nodes|
    ensures Items(nodes[..k] + nodes[k + 1..]) == Items(nodes)[..k] + Items(nodes)[k + 1..]
  {
  }

  /** The loop of linked_list_search, up to the element it acts on. */
  method Find(list: ListState, equal: (Data, Data) -> bool, data0: Data) returns (tmp: ListElement?, ghost k: nat)
    requires list.Valid()
    ensures k == FirstMatch(list.Contents(), equal, data0)
    ensures tmp == if FirstMatch(list.Contents(), equal, data0) < |list.nodes|
      then list.nodes[FirstMatch(list.Contents(), equal, data0)] else null
  {
    tmp := list.p_head;
    k := 0;
    while tmp != null && !equal(data0, tmp.data_ptr)
      invariant 0 <= k <= |list.nodes|
      invariant tmp == if k < |list.nodes| then list.nodes[k] else null
      invariant forall i :: 0 <= i < k ==> !equal(data0, list.Contents()[i].data)
      decreases |list.nodes| - k
    {
      tmp := tmp.next;
      k := k + 1;
    }
    FirstMatchUnique(list.Contents(), equal, data0, k);
  }

  /** linked_list_search.  The result written says what is stored through data_p, if anything: nothing
      when the caller passes a null data_p, and nothing either when the list is empty. */
  method Search(list: ListState?, wantsData: bool, equal: Option<(Data, Data) -> bool>, data0: Data, rmIfFound: bool)
    returns (error: Error, written: Option<Data>)
    requires list != null ==> list.Valid()
    modifies list, Elements(list)
    ensures error ==
      if list == null || equal == None then InvalidHandle
      else if old(list.Contents()) == [] then UnavailableResource else Success
    ensures list != null ==> list.Valid() && forall n :: n in list.nodes ==> n in old(list.nodes)
    ensures error != Success ==> written == None
    ensures error != Success && list != null ==> list.Contents() == old(list.Contents()) && list.calls == old(list.calls)
    ensures error == Success ==>
      var items := old(list.Contents());
      var k := FirstMatch(items, equal.value, data0);
      && written == (if !wantsData then None else if k < |items| then Some(items[k].data) else Some(0))
      && list.Contents() == (if k < |items| && rmIfFound then items[..k] + items[k + 1..] else items)
      && list.calls ==
           if k < |items| && rmIfFound && !wantsData && items[k].dealloc.Some? then old(list.calls) + [items[k]]
           else old(list.calls)
  {
    written := None;
    if list == null || equal == None {
      return InvalidHandle, written;
    }
    if list.p_tail == null {
      return UnavailableResource, written;
    }
    if wantsData {
      written := Some(0);
    }
    hide ListState.Valid, FirstMatch, Items, Elements, NextOk, PrevOk;
    var tmp, k := Find(list, equal.value, data0);
    if tmp != null {
      if wantsData {
        written := Some(tmp.data_ptr);
      }
      if rmIfFound {
        list.TakeOut(tmp, k, !wantsData);
      }
    }
    return Success, written;
  }
}
