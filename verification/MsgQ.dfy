/** msg_q: the sections of its functions that run under the queue's mutex, on the linked list. */
module MsgQs {
  import opened Options
  import opened LinkedLists
  import P = MessageQueueProtocol

  datatype MsgError =
    | MsgSuccess
    | MsgFailureGeneral
    | MsgInvalidParameter
    | MsgInvalidHandle
    | MsgUnavailableResource
    | MsgInsufficientBuffer

  /** convert_linked_list_err_type. */
  function Converted(e: Error): MsgError {
    match e
    case Success => MsgSuccess
    case InvalidParameter => MsgInvalidParameter
    case InvalidHandle => MsgInvalidHandle
    case UnavailableResource => MsgUnavailableResource
    case InsufficientBuffer => MsgInsufficientBuffer
    case FailureGeneral => MsgFailureGeneral
  }

  /** How a receiver leaves the mutex: it returns, or waits on the condition variable. */
  datatype Receipt = Returns(error: MsgError, message: Data) | Waits

  class MsgQ {
    var msg_list: ListState
    var unblocked: bool

    ghost predicate Valid()
      reads this, msg_list, msg_list.nodes
    {
      msg_list.Valid()
    }

    ghost function Contents(): seq<Item>
      reads this, msg_list
    {
      msg_list.Contents()
    }

    /** The queue is as a state of the protocol says. */
    ghost predicate Shows(s: P.State)
      reads this, msg_list
    {
      !s.destroyed && s.list == Contents() && s.unblocked == unblocked && s.calls == msg_list.calls
    }

    constructor ()
      ensures Shows(P.Start)
      ensures Valid() && fresh(msg_list) && Contents() == [] && !unblocked && msg_list.calls == []
    {
      msg_list := new ListState();
      unblocked := false;
    }
  }

  ghost function Footprint(q: MsgQ?): set<object>
    reads q, if q == null then {} else {q.msg_list}
  {
    if q == null then {} else {q.msg_list as object} + (set n | n in q.msg_list.nodes :: n as object)
  }

  // Each section is a step of the protocol: a method takes the state s that the queue shows and leaves
  // the queue showing the next one.

  /** msg_q_snd.  signal says whether pthread_cond_signal is called, which wakes the threads in woken. */
  method Send(q: MsgQ?, message: Data, dealloc: Option<Dealloc>, memory: bool, ghost s: P.State, ghost woken: set<P.Thread>)
    returns (error: MsgError, signal: bool)
    requires q != null ==> q.Valid() && q.Shows(s) && P.Enabled(s, P.Send(Item(message, dealloc), memory, woken))
    modifies Footprint(q)
    ensures error ==
      if q == null then MsgInvalidHandle else if message == 0 then MsgInvalidParameter
      else if q.unblocked then MsgUnavailableResource
      else if !memory then MsgFailureGeneral else MsgSuccess
    ensures signal <==> q != null && message != 0 && !q.unblocked
    ensures q != null ==> q.Valid() && q.msg_list.calls == old(q.msg_list.calls)
    ensures error == MsgSuccess ==> q.Contents() == [Item(message, dealloc)] + old(q.Contents())
    ensures error != MsgSuccess && q != null ==> q.Contents() == old(q.Contents())
    ensures q != null ==>
      var s' := P.Next(s, P.Send(Item(message, dealloc), memory, woken));
      && q.Shows(s')
      && s'.sent == (if error == MsgSuccess then s.sent + [Item(message, dealloc)] else s.sent)
      && s'.waiting == (if signal then s.waiting - woken else s.waiting)
  {
    signal := false;
    if q == null {
      return MsgInvalidHandle, signal;
    }
    if message == 0 {
      return MsgInvalidParameter, signal;
    }
    if q.unblocked {
      return MsgUnavailableResource, signal;
    }
    var rv := Add(q.msg_list, message, dealloc, memory);
    return Converted(rv), true;
  }

  /** What a receiver finds when it tests its condition, the first time or after it was woken. */
  ghost predicate Received(unblocked: bool, before: seq<Item>, after: seq<Item>, receipt: Receipt) {
    if before == [] then
      after == [] && receipt == if unblocked then Returns(MsgUnavailableResource, 0) else Waits
    else
      after == before[..|before| - 1] && receipt == Returns(MsgSuccess, before[|before| - 1].data)
  }

  /** The protocol's step of thread t from s to s' ends as the receipt says: t waits exactly when the
      receiver does, and a message is received exactly when the receiver returns with it. */
  ghost predicate Ends(s: P.State, s': P.State, t: P.Thread, receipt: Receipt) {
    && (t in s'.waiting <==> receipt.Waits?)
    && t !in s'.woken
    && if receipt.Returns? && receipt.error == MsgSuccess
       then exists item: Item :: item.data == receipt.message && s'.received == s.received + [item]
       else s'.received == s.received
  }

  /** msg_q_rcv in thread t, from taking the mutex to leaving it. */
  method Receive(q: MsgQ?, wantsMessage: bool, ghost s: P.State, ghost t: P.Thread) returns (receipt: Receipt)
    requires q != null ==> q.Valid() && q.Shows(s) && P.Enabled(s, P.Receive(t))
    modifies Footprint(q)
    ensures q != null ==> q.Valid() && q.msg_list.calls == old(q.msg_list.calls)
    ensures q == null ==> receipt == Returns(MsgInvalidHandle, 0)
    ensures q != null && !wantsMessage ==> receipt == Returns(MsgInvalidParameter, 0) && q.Shows(s)
    ensures q != null && wantsMessage && q.unblocked ==>
      receipt == Returns(MsgUnavailableResource, 0) && q.Contents() == old(q.Contents())
    ensures q != null && wantsMessage && !q.unblocked ==> Received(q.unblocked, old(q.Contents()), q.Contents(), receipt)
    ensures q != null && wantsMessage ==>
      q.Shows(P.Next(s, P.Receive(t))) && Ends(s, P.Next(s, P.Receive(t)), t, receipt)
  {
    if q == null {
      return Returns(MsgInvalidHandle, 0);
    }
    if !wantsMessage {
      return Returns(MsgInvalidParameter, 0);
    }
    if q.unblocked {
      return Returns(MsgUnavailableResource, 0);
    }
    receipt := Retest(q);
    if s.list != [] { TakenLast(s); }
  }

  /** msg_q_rcv in thread t, from being woken, which gives it the mutex back, to leaving it again. */
  method Resume(q: MsgQ, ghost s: P.State, ghost t: P.Thread) returns (receipt: Receipt)
    requires q.Valid() && q.Shows(s) && P.Threads(s) && P.Enabled(s, P.Resume(t))
    modifies Footprint(q)
    ensures q.Valid() && q.msg_list.calls == old(q.msg_list.calls)
    ensures Received(q.unblocked, old(q.Contents()), q.Contents(), receipt)
    ensures q.Shows(P.Next(s, P.Resume(t))) && Ends(s, P.Next(s, P.Resume(t)), t, receipt)
  {
    receipt := Retest(q);
    ResumeTests(s, t, q.Contents(), receipt);
    hide P.Next, P.Threads, Ends, Received;
  }

  lemma TakenLast(s: P.State)
    requires s.list != []
    ensures exists item: Item ::
      item.data == s.list[|s.list| - 1].data && P.Taken(s).received == s.received + [item]
  {
    assert P.Taken(s).received == s.received + [s.list[|s.list| - 1]];
  }

  /** The protocol's steps of a receiver are what Retest does. */
  lemma ResumeTests(s: P.State, t: P.Thread, after: seq<Item>, receipt: Receipt)
    requires P.Threads(s) && P.Enabled(s, P.Resume(t)) && Received(s.unblocked, s.list, after, receipt)
    ensures var s' := P.Next(s, P.Resume(t));
      && !s'.destroyed && s'.list == after && s'.unblocked == s.unblocked && s'.calls == s.calls
      && Ends(s, s', t, receipt)
  {
    if s.list != [] { TakenLast(s.(woken := s.woken - {t})); }
  }

  /** msg_q_rcv from the test of its wait loop, with the mutex, to leaving the mutex. */
  method Retest(q: MsgQ) returns (receipt: Receipt)
    requires q.Valid()
    modifies Footprint(q)
    ensures q.Valid() && q.msg_list == old(q.msg_list) && q.msg_list.calls == old(q.msg_list.calls)
    ensures q.unblocked == old(q.unblocked)
    ensures Received(q.unblocked, old(q.Contents()), q.Contents(), receipt)
  {
    var empty := Empty(q.msg_list);
    if empty != 0 && !q.unblocked {
      return Waits;
    }
    var rv, data := Remove(q.msg_list, true);
    receipt := Returns(Converted(rv), data);
  }

  /** msg_q_flush. */
  method FlushQueue(q: MsgQ?, ghost s: P.State) returns (error: MsgError)
    requires q != null ==> q.Valid() && q.Shows(s)
    modifies Footprint(q)
    ensures error == if q == null then MsgInvalidHandle else MsgSuccess
    ensures q != null ==>
      q.Valid() && q.Contents() == [] && q.msg_list.calls == old(q.msg_list.calls) + Disposed(old(q.Contents()))
    ensures q != null ==> q.Shows(P.Next(s, P.Flush))
  {
    if q == null {
      return MsgInvalidHandle;
    }
    var rv := Flush(q.msg_list);
    return Converted(rv);
  }

  /** msg_q_unblock.  broadcast says whether every waiting thread is woken. */
  method Unblock(q: MsgQ?, ghost s: P.State) returns (error: MsgError, broadcast: bool)
    requires q != null ==> q.Valid() && q.Shows(s)
    modifies q
    ensures error == if q == null then MsgInvalidHandle else if old(q.unblocked) then MsgUnavailableResource else MsgSuccess
    ensures broadcast <==> error == MsgSuccess
    ensures q != null ==> q.Valid() && q.unblocked && q.msg_list == old(q.msg_list) && q.Contents() == old(q.Contents())
    ensures q != null ==>
      && q.Shows(P.Next(s, P.Unblock))
      && P.Next(s, P.Unblock).waiting == (if broadcast then {} else s.waiting)
  {
    if q == null {
      return MsgInvalidHandle, false;
    }
    if q.unblocked {
      return MsgUnavailableResource, false;
    }
    q.unblocked := true;
    return MsgSuccess, true;
  }
}
