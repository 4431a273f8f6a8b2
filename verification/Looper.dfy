/** The Looper object: the loops that the steps of the protocol stand for. */
module Loopers {
  import opened Options
  import opened Sequences
  import opened MessageQueue
  import opened LooperProtocol

  lemma {:induction false} KeptConcat(q: seq<Envelope>, r: seq<Envelope>, handler: nat, only: Option<int>)
    ensures Kept(q + r, handler, only) == Kept(q, handler, only) + Kept(r, handler, only)
  {
    if r == [] {
      assert q + r == q;
    } else {
      KeptConcat(q, r[..|r| - 1], handler, only);
      assert (q + r)[..|q + r| - 1] == q + r[..|r| - 1];
    }
  }

  lemma KeptOne(e: Envelope, r: seq<Envelope>, handler: nat, only: Option<int>)
    ensures Kept([e] + r, handler, only) ==
      (if Matches(e, handler, only) then [] else [e]) + Kept(r, handler, only)
  {
    KeptSingle(e, handler, only);
    hide Kept, Matches;
    KeptConcat([e], r, handler, only);
  }

  lemma KeptSingle(e: Envelope, handler: nat, only: Option<int>)
    ensures Kept([e], handler, only) == if Matches(e, handler, only) then [] else [e]
  {
    assert [e][..0] == [];
    ConcatEmpty([e]);
  }

  lemma InsertionIndexUnique(q: seq<Envelope>, uptime: Nanos, i: nat)
    requires i <= |q|
    requires forall k :: 0 <= k < i ==> q[k].uptime <= uptime
    requires i < |q| ==> uptime < q[i].uptime
    ensures InsertionIndex(q, uptime) == i
  {
  }

  /** The responses pushed for the events of one epoll_wait. */
  function ResponsesTo(requests: map<Fd, Request>, events: seq<EpollEvent>): seq<Response> {
    if events == [] then []
    else
      var before := ResponsesTo(requests, events[..|events| - 1]);
      match events[|events| - 1]
      case WakeEvent(_) => before
      case FdEvent(fd, mask) => if fd in requests then before + [Response(EventBits(mask), requests[fd])] else before
  }

  lemma {:induction false} ResponsesConcat(requests: map<Fd, Request>, es: seq<EpollEvent>, fs: seq<EpollEvent>)
    ensures ResponsesTo(requests, es + fs) == ResponsesTo(requests, es) + ResponsesTo(requests, fs)
  {
    if fs == [] {
      assert es + fs == es;
    } else {
      ResponsesConcat(requests, es, fs[..|fs| - 1]);
      assert (es + fs)[..|es + fs| - 1] == es + fs[..|fs| - 1];
    }
  }

  /** The steps of the protocol from the end of epoll_wait to the delivery loop, when nobody interferes. */
  function Drained(s: State): (t: State)
    requires s.pc.Draining?
    ensures t.pc.Delivering?
    decreases |s.pc.events|, s.pipe
  {
    var t := HandleNext(s);
    if t.pc.Draining? then Drained(t) else t
  }

  lemma ResponsesToOne(requests: map<Fd, Request>, e: EpollEvent)
    ensures ResponsesTo(requests, [e]) ==
      if e.FdEvent? && e.fd in requests then [Response(EventBits(e.mask), requests[e.fd])] else []
  {
    assert [e][..0] == [];
    hide EventBits;
  }

  lemma FirstResponses(requests: map<Fd, Request>, events: seq<EpollEvent>)
    requires events != []
    ensures ResponsesTo(requests, events) ==
      (if events[0].FdEvent? && events[0].fd in requests
       then [Response(EventBits(events[0].mask), requests[events[0].fd])] else [])
      + ResponsesTo(requests, events[1..])
  {
    assert events == [events[0]] + events[1..];
    hide ResponsesTo, EventBits;
    ResponsesConcat(requests, [events[0]], events[1..]);
    ResponsesToOne(requests, events[0]);
  }

  lemma FirstReport(events: seq<EpollEvent>)
    requires events != []
    ensures ReportsInput(events) <==> (events[0].WakeEvent? && events[0].mask.input) || ReportsInput(events[1..])
  {
    var rest := events[1..];
    if ReportsInput(rest) {
      var k :| 0 <= k < |rest| && rest[k].WakeEvent? && rest[k].mask.input;
      assert events[k + 1] == rest[k];
    }
  }

  /** A step that handles an event leaves what all of them add up to. */
  lemma EventHandled(s: State)
    requires s.pc.Draining? && s.pc.events != []
    ensures var t := HandleNext(s);
      && t.pc.Draining? && t.requests == s.requests
      && t.responses + ResponsesTo(t.requests, t.pc.events) == s.responses + ResponsesTo(s.requests, s.pc.events)
      && (if ReportsInput(t.pc.events) then 0 else t.pipe) == (if ReportsInput(s.pc.events) then 0 else s.pipe)
  {
    FirstResponses(s.requests, s.pc.events);
    FirstReport(s.pc.events);
    hide ResponsesTo, ReportsInput, EventBits;
    var e := s.pc.events[0];
    if e.FdEvent? && e.fd in s.requests {
      var r := Response(EventBits(e.mask), s.requests[e.fd]);
      var more := ResponsesTo(s.requests, s.pc.events[1..]);
      ConcatAssociative(s.responses, [r], more);
    } else {
      ConcatEmpty(ResponsesTo(s.requests, s.pc.events[1..]));
    }
  }

  /** HandleEvents does in one go what those steps do. */
  lemma {:induction false} DrainedIsHandleEvents(s: State)
    requires s.pc.Draining?
    ensures Drained(s).responses == s.responses + ResponsesTo(s.requests, s.pc.events)
    ensures Drained(s).pipe == if ReportsInput(s.pc.events) then 0 else s.pipe
    decreases |s.pc.events|, s.pipe
  {
    if s.pc.events != [] {
      EventHandled(s);
      var t := HandleNext(s);
      assert Drained(s) == Drained(t);
      hide ResponsesTo, ReportsInput, EventBits, Drained;
      DrainedIsHandleEvents(t);
    } else {
      assert s.responses + [] == s.responses;
    }
  }

  class Looper {
    const mAllowNonCallbacks: bool
    var mMessageEnvelopes: seq<Envelope>
    var mSendingMessage: bool
    var mNextMessageUptime: Nanos
    var mRequests: map<Fd, Request>
    var mResponses: seq<Response>
    var mResponseIndex: nat
    var wakePipe: nat

    constructor (allowNonCallbacks: bool)
      ensures mAllowNonCallbacks == allowNonCallbacks
      ensures mMessageEnvelopes == Start.queue && mSendingMessage == Start.sending && wakePipe == Start.pipe
      ensures mNextMessageUptime == Start.next && mRequests == Start.requests
      ensures mResponses == Start.responses && mResponseIndex == Start.cursor
    {
      mAllowNonCallbacks := allowNonCallbacks;
      mMessageEnvelopes, mSendingMessage, wakePipe := [], false, 0;
      mNextMessageUptime, mRequests := LLONG_MAX, map[];
      mResponses, mResponseIndex := [], 0;
    }

    /** The fields are as a state of the protocol says. */
    predicate Shows(s: State)
      reads this
    {
      && mMessageEnvelopes == s.queue && mSendingMessage == s.sending && mNextMessageUptime == s.next
      && mRequests == s.requests && mResponses == s.responses && mResponseIndex == s.cursor && wakePipe == s.pipe
    }

    /** sendMessageAtTime up to the release of the lock; the result says whether wake() is due. */
    method Enqueue(e: Envelope) returns (wake: bool)
      modifies this`mMessageEnvelopes
      ensures mMessageEnvelopes == Inserted(old(mMessageEnvelopes), e)
      ensures wake <==> !mSendingMessage && InsertionIndex(old(mMessageEnvelopes), e.uptime) == 0
    {
      var i := 0;
      var messageCount := |mMessageEnvelopes|;
      while i < messageCount && e.uptime >= mMessageEnvelopes[i].uptime
        invariant 0 <= i <= messageCount
        invariant forall k :: 0 <= k < i ==> mMessageEnvelopes[k].uptime <= e.uptime
      {
        i := i + 1;
      }
      InsertionIndexUnique(mMessageEnvelopes, e.uptime, i);
      mMessageEnvelopes := mMessageEnvelopes[..i] + [e] + mMessageEnvelopes[i..];
      if mSendingMessage {
        return false;
      }
      wake := i == 0;
    }

    /** sendMessageAtTime. */
    method SendMessageAtTime(e: Envelope, ghost s: State)
      requires Shows(s) && Enabled(s, Send(e.uptime, e.handler, e.what)) && e.arrival == |s.sent|
      modifies this`mMessageEnvelopes, this`wakePipe
      ensures mMessageEnvelopes == Inserted(old(mMessageEnvelopes), e)
      ensures wakePipe ==
        if !mSendingMessage && InsertionIndex(old(mMessageEnvelopes), e.uptime) == 0 then WritePipe(old(wakePipe))
        else old(wakePipe)
      ensures var s' := Next(s, Send(e.uptime, e.handler, e.what));
        && s'.sent == s.sent + [e] && s.owed <= s'.owed <= s.owed + 1
        && Shows(if s'.owed > s.owed then Next(s', LooperProtocol.OwedWake) else s')
    {
      var due := Enqueue(e);
      if due {
        Wake();
      }
    }

    /** removeMessages, of a handler or of a handler and a what. */
    method RemoveMessages(handler: nat, only: Option<int>, ghost s: State)
      requires Shows(s) && Enabled(s, Remove(handler, only))
      modifies this`mMessageEnvelopes
      ensures Shows(Next(s, Remove(handler, only)))
      ensures mMessageEnvelopes == Kept(old(mMessageEnvelopes), handler, only)
    {
      hide Kept, Matching;
      RemoveMatching(handler, only);
    }

    /** The loop of removeMessages, from the last message to the first. */
    method RemoveMatching(handler: nat, only: Option<int>)
      modifies this`mMessageEnvelopes
      ensures mMessageEnvelopes == Kept(old(mMessageEnvelopes), handler, only)
    {
      hide Kept, Matches;
      ghost var q := mMessageEnvelopes;
      ghost var tail: seq<Envelope> := [];
      var i := |mMessageEnvelopes|;
      KeptEnds(q, handler, only);
      while i != 0
        invariant 0 <= i <= |q| && mMessageEnvelopes == q[..i] + tail
        invariant tail == Kept(q[i..], handler, only)
      {
        i := i - 1;
        var messageEnvelope := mMessageEnvelopes[i];
        SplitLast(q, i, tail);
        KeptOne(q[i], q[i + 1..], handler, only);
        if Matches(messageEnvelope, handler, only) {
          mMessageEnvelopes := mMessageEnvelopes[..i] + mMessageEnvelopes[i + 1..];
        } else {
          tail := [messageEnvelope] + tail;
        }
      }
      assert q[..0] + tail == tail;
    }

    lemma KeptEnds(q: seq<Envelope>, handler: nat, only: Option<int>)
      ensures q[..|q|] + [] == q && q[0..] == q && Kept(q[|q|..], handler, only) == []
    {
    }

    lemma SplitLast(q: seq<Envelope>, i: nat, tail: seq<Envelope>)
      requires i < |q|
      ensures var all := q[..i + 1] + tail;
        && all == q[..i] + ([q[i]] + tail) && all[..i] + all[i + 1..] == q[..i] + tail && all[i] == q[i]
        && q[i..] == [q[i]] + q[i + 1..]
    {
    }

    method Wake()
      modifies this`wakePipe
      ensures wakePipe == WritePipe(old(wakePipe)) && wakePipe > 0
    {
      if wakePipe < PIPE_CAPACITY {
        wakePipe := wakePipe + 1;
      }
    }

    /** awoken, while nobody writes. */
    method Awoken()
      modifies this`wakePipe
      ensures wakePipe == 0
    {
      var nRead := READ_SIZE;
      while nRead == READ_SIZE
        invariant nRead <= READ_SIZE && (nRead < READ_SIZE ==> wakePipe == 0)
        decreases nRead == READ_SIZE, wakePipe
      {
        nRead := if wakePipe < READ_SIZE then wakePipe else READ_SIZE;
        wakePipe := wakePipe - nRead;
      }
    }

    /** pollInner's loop over the events of one epoll_wait. */
    method HandleEvents(events: seq<EpollEvent>)
      modifies this`wakePipe, this`mResponses
      ensures wakePipe == if ReportsInput(events) then 0 else old(wakePipe)
      ensures mResponses == old(mResponses) + ResponsesTo(mRequests, events)
    {
      var i := 0;
      while i < |events|
        invariant 0 <= i <= |events|
        invariant wakePipe == if ReportsInput(events[..i]) then 0 else old(wakePipe)
        invariant mResponses == old(mResponses) + ResponsesTo(mRequests, events[..i])
      {
        assert events[..i + 1][..i] == events[..i];
        ReportsOneMore(events, i);
        match events[i] {
          case WakeEvent(mask) =>
            if mask.input {
              Awoken();
            }
          case FdEvent(fd, mask) =>
            if fd in mRequests {
              PushResponse(EventBits(mask), mRequests[fd]);
            }
        }
        i := i + 1;
      }
      assert events[..|events|] == events;
    }

    lemma ReportsOneMore(events: seq<EpollEvent>, i: nat)
      requires i < |events|
      ensures ReportsInput(events[..i + 1]) <==>
        ReportsInput(events[..i]) || (events[i].WakeEvent? && events[i].mask.input)
    {
      var all, front := events[..i + 1], events[..i];
      if ReportsInput(front) {
        var k :| 0 <= k < |front| && front[k].WakeEvent? && front[k].mask.input;
        assert all[k] == front[k];
      }
      if events[i].WakeEvent? && events[i].mask.input {
        assert all[i] == events[i];
      }
      if ReportsInput(all) {
        var k :| 0 <= k < |all| && all[k].WakeEvent? && all[k].mask.input;
        if k < i { assert front[k] == all[k]; }
      }
    }

    method PushResponse(events: nat, request: Request)
      modifies this`mResponses
      ensures mResponses == old(mResponses) + [Response(events, request)]
    {
      mResponses := mResponses + [Response(events, request)];
    }

    /** pollOnce's inner loop: the next response whose caller asked for an ident. */
    method NextIdent() returns (response: Option<Response>)
      requires mResponseIndex <= |mResponses|
      modifies this`mResponseIndex
      ensures old(mResponseIndex) <= mResponseIndex <= |mResponses|
      ensures response.None? ==> mResponseIndex == |mResponses| && Idents(mResponses[old(mResponseIndex)..]) == []
      ensures response.Some? ==>
        Idents(mResponses[old(mResponseIndex)..]) == [response.value] + Idents(mResponses[mResponseIndex..])
    {
      while mResponseIndex < |mResponses|
        invariant old(mResponseIndex) <= mResponseIndex <= |mResponses|
        invariant Idents(mResponses[old(mResponseIndex)..]) == Idents(mResponses[mResponseIndex..])
        decreases |mResponses| - mResponseIndex
      {
        FirstResponse(mResponses, mResponseIndex);
        var r := mResponses[mResponseIndex];
        mResponseIndex := mResponseIndex + 1;
        if r.request.ident >= 0 {
          return Some(r);
        }
      }
      response := None;
    }

    /** addFd.  ctlOk says whether epoll_ctl succeeds. */
    method AddFd(request: Request, hasCallback: bool, ctlOk: bool, ghost s: State) returns (result: int)
      requires Shows(s) && Enabled(s, Step.AddFd(request, hasCallback, mAllowNonCallbacks, ctlOk))
      modifies this`mRequests
      ensures Shows(Next(s, Step.AddFd(request, hasCallback, mAllowNonCallbacks, ctlOk)))
      ensures result == if RegisteredIdent(request.ident, hasCallback, mAllowNonCallbacks).Some? && ctlOk then 1 else -1
      ensures mRequests ==
        if result == 1
        then old(mRequests)[request.fd :=
          request.(ident := RegisteredIdent(request.ident, hasCallback, mAllowNonCallbacks).value)]
        else old(mRequests)
      ensures result == 1 <==> ctlOk && (hasCallback || (mAllowNonCallbacks && request.ident >= 0))
      ensures result == 1 ==>
        mRequests[request.fd] == request.(ident := if hasCallback then POLL_CALLBACK else request.ident)
    {
      var ident := request.ident;
      if !hasCallback {
        if !mAllowNonCallbacks {
          return -1;
        }
        if ident < 0 {
          return -1;
        }
      } else {
        ident := POLL_CALLBACK;
      }
      if !ctlOk {
        return -1;
      }
      mRequests := mRequests[request.fd := request.(ident := ident)];
      result := 1;
    }

    method RemoveFd(fd: Fd, ctlOk: bool, ghost s: State) returns (result: int)
      requires Shows(s) && Enabled(s, Step.RemoveFd(fd, ctlOk))
      modifies this`mRequests
      ensures Shows(Next(s, Step.RemoveFd(fd, ctlOk)))
      ensures result == if fd !in old(mRequests) then 0 else if ctlOk then 1 else -1
      ensures mRequests == if result == 1 then old(mRequests) - {fd} else old(mRequests)
    {
      if fd !in mRequests {
        return 0;
      }
      if !ctlOk {
        return -1;
      }
      mRequests := mRequests - {fd};
      result := 1;
    }
  }
}
