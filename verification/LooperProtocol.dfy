/** The Looper as interleaved steps: the polling thread, senders, removers and whoever registers file
    descriptors.  Whatever happens under mLock is one step; a sender's wake() is a step of its own,
    because it runs after the lock is released. */
module LooperProtocol {
  import opened Options
  import opened Sequences
  import opened MessageQueue

  // pollOnce results
  const POLL_WAKE := -1
  const POLL_CALLBACK := -2
  const POLL_TIMEOUT := -3
  const POLL_ERROR := -4

  // Response events
  const EVENT_INPUT: nat := 1
  const EVENT_OUTPUT: nat := 2
  const EVENT_ERROR: nat := 4
  const EVENT_HANGUP: nat := 8

  /** Bytes that fit into the wake pipe; further writes fail with EAGAIN. */
  const PIPE_CAPACITY: nat := 65536

  /** Bytes awoken() reads at a time. */
  const READ_SIZE: nat := 16

  type Fd = int

  datatype Mask = Mask(input: bool, output: bool, error: bool, hangup: bool)

  datatype Request = Request(fd: Fd, ident: int, data: int)

  datatype Response = Response(events: nat, request: Request)

  datatype EpollEvent = WakeEvent(mask: Mask) | FdEvent(fd: Fd, mask: Mask)

  /** An event that pollInner has dealt with, and the request it found for it. */
  datatype Seen = Seen(event: EpollEvent, request: Option<Request>)

  datatype EpollResult = Interrupted | Failed | TimedOut | Ready(events: seq<EpollEvent>)

  /** What a pollOnce returned: the ident of a response, or how its pollInner went. */
  datatype Answer =
    | Ident(result: int, response: Response)
    | Outcome(result: int, ran: bool, outcome: EpollResult)

  /** Where the polling thread is.  It holds mLock while draining and delivering. */
  datatype Pc =
    | Idle                                                  // outside pollOnce
    | Scanning(timeout: int, result: int)                   // pollOnce's loop over mResponses
    | InEpoll(timeout: int, requested: int, since: Nanos)   // epoll_wait(timeout), computed at `since`
    | Draining(events: seq<EpollEvent>, requested: int, result: int)
    | Delivering(requested: int, result: int)
    | Handling(message: Envelope, requested: int)           // in handleMessage, unlocked
    | Callbacks(i: nat, requested: int, result: int)        // pollInner's loop over mResponses
  {
    predicate HoldsLock() { Draining? || Delivering? }
  }

  /** What has happened so far in the calls of pollOnce. */
  datatype Log = Log(
    woke: Nanos,                     // when epoll_wait last returned
    looked: Nanos,                   // when the thread last stopped delivering messages
    ran: bool,                       // a handler or callback has run in this pollInner
    outcome: EpollResult,            // of the last epoll_wait
    calls: nat,                      // of pollOnce
    answers: seq<Answer>
  )

  datatype State = State(
    now: Nanos,
    queue: seq<Envelope>,            // mMessageEnvelopes
    sending: bool,                   // mSendingMessage
    next: Nanos,                     // mNextMessageUptime
    pipe: nat,                       // bytes in the wake pipe
    owed: nat,                       // senders that have unlocked and not yet called wake()
    requests: map<Fd, Request>,      // mRequests
    responses: seq<Response>,        // mResponses
    cursor: nat,                     // mResponseIndex
    pc: Pc,
    // what has happened so far
    sent: seq<Envelope>,
    delivered: seq<Envelope>,
    deliveredAt: seq<Nanos>,
    removed: seq<Envelope>,
    reported: seq<EpollEvent>,       // by epoll_wait
    seen: seq<Seen>,
    pushed: seq<Response>,
    handled: seq<Response>,
    returned: seq<Response>,
    polls: nat,                      // calls of pollInner in this pollOnce
    log: Log
  )

  datatype Step =
    | Tick(t: Nanos)
    | Send(uptime: Nanos, handler: nat, what: int)
    | Wake
    | OwedWake
    | Remove(handler: nat, only: Option<int>)
    | AddFd(request: Request, hasCallback: bool, allowNonCallbacks: bool, ctlOk: bool)
    | RemoveFd(fd: Fd, ctlOk: bool)
    | PollOnce(timeout: int)
    | Scan
    | EpollReturns(outcome: EpollResult)
    | HandleEvent
    | Deliver
    | HandlerReturns
    | Callback(callbackResult: int, ctlOk: bool)

  const Start := State(0, [], false, LLONG_MAX, 0, 0, map[], [], 0, Idle, [], [], [], [], [], [], [], [], [], 0,
    Log(0, 0, false, Interrupted, 0, []))

  const MILLISECOND: nat := 1000000

  /** The longest delay in nanoseconds that fits into a timeout of epoll_wait. */
  const MAX_DELAY: nat := 2147483646 * MILLISECOND

  /** Milliseconds from one time to another, rounded up: 0 when it is past, negative when there are
      too many of them. */
  function MillisecondDelay(now: Nanos, time: Nanos): int {
    if time <= now then 0
    else if time - now > MAX_DELAY then -1
    else (time - now + MILLISECOND - 1) / MILLISECOND
  }

  /** pollInner's adjustment of the timeout. */
  function AdjustedTimeout(timeout: int, next: Nanos, now: Nanos): int {
    if timeout == 0 || next == LLONG_MAX then timeout
    else
      var delay := MillisecondDelay(now, next);
      if delay >= 0 && (timeout < 0 || delay < timeout) then delay else timeout
  }

  /** Rounding up loses less than a millisecond, and never wakes too early. */
  lemma MillisecondDelayExact(now: Nanos, time: Nanos)
    ensures MillisecondDelay(now, time) >= 0 <==> time - now <= MAX_DELAY
    ensures MillisecondDelay(now, time) >= 0 && time > now ==>
      time <= now + MillisecondDelay(now, time) * MILLISECOND < time + MILLISECOND
    ensures time <= now ==> MillisecondDelay(now, time) == 0
  {
  }

  /** What the adjustment makes of an alarm that is no later than the time due. */
  lemma AdjustedInTime(requested: int, next: Nanos, since: Nanos, due: Nanos)
    requires next <= due < LLONG_MAX
    ensures var timeout := AdjustedTimeout(requested, next, since);
      && (requested >= 0 ==> 0 <= timeout <= requested)
      && (due - since <= MAX_DELAY ==>
            0 <= timeout && since + timeout * MILLISECOND < (if due > since then due else since) + MILLISECOND)
  {
    MillisecondDelayExact(since, next);
    hide MillisecondDelay;
  }

  function EventBits(m: Mask): nat {
    (if m.input then EVENT_INPUT else 0) + (if m.output then EVENT_OUTPUT else 0)
      + (if m.error then EVENT_ERROR else 0) + (if m.hangup then EVENT_HANGUP else 0)
  }

  function WritePipe(pipe: nat): nat {
    if pipe < PIPE_CAPACITY then pipe + 1 else pipe
  }

  /** addFd's checks of its arguments, and the ident it registers. */
  function RegisteredIdent(ident: int, hasCallback: bool, allowNonCallbacks: bool): Option<int> {
    if hasCallback then Some(POLL_CALLBACK)
    else if !allowNonCallbacks || ident < 0 then None
    else Some(ident)
  }

  /** epoll reports that the wake pipe can be read. */
  predicate ReportsInput(events: seq<EpollEvent>) {
    exists i :: 0 <= i < |events| && events[i].WakeEvent? && events[i].mask.input
  }

  predicate Enabled(s: State, step: Step) {
    match step
    case Tick(t) => s.now <= t
    case Send(_, _, _) => !s.pc.HoldsLock()
    case Wake => true
    case OwedWake => s.owed > 0
    case Remove(_, _) => !s.pc.HoldsLock()
    case AddFd(_, _, _, _) => !s.pc.HoldsLock()
    case RemoveFd(_, _) => !s.pc.HoldsLock()
    case PollOnce(_) => s.pc.Idle?
    case Scan => s.pc.Scanning?
    case EpollReturns(outcome) =>
      s.pc.InEpoll? && (outcome.Ready? && ReportsInput(outcome.events) ==> s.pipe > 0)
    case HandleEvent => s.pc.Draining?
    case Deliver => s.pc.Delivering?
    case HandlerReturns => s.pc.Handling?
    case Callback(_, _) => s.pc.Callbacks?
  }

  function Next(s: State, step: Step): State
    requires Enabled(s, step)
  {
    match step
    case Tick(t) => s.(now := t)
    case Send(uptime, handler, what) =>
      var e := Envelope(uptime, handler, what, |s.sent|);
      var q := Inserted(s.queue, e);
      s.(queue := q, sent := s.sent + [e],
         owed := if !s.sending && InsertionIndex(s.queue, uptime) == 0 then s.owed + 1 else s.owed)
    case Wake => s.(pipe := WritePipe(s.pipe))
    case OwedWake => s.(pipe := WritePipe(s.pipe), owed := s.owed - 1)
    case Remove(handler, what) =>
      s.(queue := Kept(s.queue, handler, what), removed := s.removed + Matching(s.queue, handler, what))
    case AddFd(request, hasCallback, allowNonCallbacks, ctlOk) =>
      var ident := RegisteredIdent(request.ident, hasCallback, allowNonCallbacks);
      if ident.Some? && ctlOk then s.(requests := s.requests[request.fd := request.(ident := ident.value)]) else s
    case RemoveFd(fd, ctlOk) =>
      if ctlOk then s.(requests := s.requests - {fd}) else s
    case PollOnce(timeout) => s.(pc := Scanning(timeout, 0), polls := 0, log := s.log.(calls := s.log.calls + 1))
    case Scan => ScanNext(s)
    case EpollReturns(outcome) =>
      var requested := s.pc.requested;
      var s' := s.(log := s.log.(woke := s.now, ran := false, outcome := outcome));
      (match outcome
       case Interrupted => s'.(pc := Delivering(requested, POLL_WAKE), next := LLONG_MAX)
       case Failed => s'.(pc := Delivering(requested, POLL_ERROR), next := LLONG_MAX)
       case TimedOut => s'.(pc := Delivering(requested, POLL_TIMEOUT), next := LLONG_MAX)
       case Ready(events) => s'.(pc := Draining(events, requested, POLL_WAKE), reported := s.reported + events))
    case HandleEvent => HandleNext(s)
    case Deliver => DeliverNext(s)
    case HandlerReturns => s.(sending := false, pc := Delivering(s.pc.requested, POLL_CALLBACK))
    case Callback(callbackResult, ctlOk) => CallbackNext(s, callbackResult, ctlOk)
  }

  /** One turn of pollOnce's loop. */
  function ScanNext(s: State): State
    requires s.pc.Scanning?
  {
    if s.cursor < |s.responses| then
      var r := s.responses[s.cursor];
      if r.request.ident >= 0 then
        s.(cursor := s.cursor + 1, returned := s.returned + [r], pc := Idle,
           log := s.log.(answers := s.log.answers + [Ident(r.request.ident, r)]))
      else s.(cursor := s.cursor + 1)
    else if s.pc.result != 0 then 
      s.(pc := Idle, log := s.log.(answers := s.log.answers + [Outcome(s.pc.result, s.log.ran, s.log.outcome)]))
    else
      s.(responses := [], cursor := 0, polls := s.polls + 1,
         pc := InEpoll(AdjustedTimeout(s.pc.timeout, s.next, s.now), s.pc.timeout, s.now))
  }

  /** One epoll event; draining the wake pipe takes a step for every read. */
  function HandleNext(s: State): State
    requires s.pc.Draining?
  {
    if s.pc.events == [] then s.(pc := Delivering(s.pc.requested, s.pc.result), next := LLONG_MAX)
    else
      var e, rest := s.pc.events[0], s.pc.(events := s.pc.events[1..]);
      match e
      case WakeEvent(mask) =>
        if !mask.input then s.(pc := rest, seen := s.seen + [Seen(e, None)])
        else if s.pipe >= READ_SIZE then s.(pipe := s.pipe - READ_SIZE)
        else s.(pipe := 0, pc := rest, seen := s.seen + [Seen(e, None)])
      case FdEvent(fd, mask) =>
        if fd in s.requests then
          var r := Response(EventBits(mask), s.requests[fd]);
          s.(responses := s.responses + [r], pushed := s.pushed + [r], pc := rest,
             seen := s.seen + [Seen(e, Some(s.requests[fd]))])
        else s.(pc := rest, seen := s.seen + [Seen(e, None)])
  }

  /** One turn of the loop that delivers messages. */
  function DeliverNext(s: State): State
    requires s.pc.Delivering?
  {
    if s.queue == [] then s.(pc := Callbacks(0, s.pc.requested, s.pc.result), log := s.log.(looked := s.now))
    else if s.queue[0].uptime <= s.now then
      s.(queue := s.queue[1..], sending := true, delivered := s.delivered + [s.queue[0]], deliveredAt := s.deliveredAt + [s.now],
         pc := Handling(s.queue[0], s.pc.requested), log := s.log.(ran := true))
    else s.(next := s.queue[0].uptime, pc := Callbacks(0, s.pc.requested, s.pc.result), log := s.log.(looked := s.now))
  }

  /** One turn of the loop that invokes callbacks. */
  function CallbackNext(s: State, callbackResult: int, ctlOk: bool): State
    requires s.pc.Callbacks?
  {
    if s.pc.i >= |s.responses| then s.(pc := Scanning(s.pc.requested, s.pc.result))
    else
      var r := s.responses[s.pc.i];
      if r.request.ident == POLL_CALLBACK then
        s.(handled := s.handled + [r],
           requests := if callbackResult == 0 && ctlOk then s.requests - {r.request.fd} else s.requests,
           pc := s.pc.(i := s.pc.i + 1, result := POLL_CALLBACK), log := s.log.(ran := true))
      else s.(pc := s.pc.(i := s.pc.i + 1))
  }

  // ----- the invariant

  /** The polling thread will not look at the queue again before it sleeps, or is asleep. */
  predicate MaySleep(pc: Pc) {
    pc.Idle? || pc.Scanning? || pc.InEpoll? || pc.Callbacks?
  }

  /** No lost wake-up. */
  predicate HeadCovered(s: State) {
    s.queue == [] || s.next <= s.queue[0].uptime || s.pipe > 0 || s.owed > 0
  }

  ghost predicate QueueInv(s: State) {
    && Timed(s.queue)
    && (forall k :: 0 <= k < |s.queue| ==> s.queue[k].arrival < |s.sent|)
    && multiset(s.sent) == multiset(s.delivered) + multiset(s.removed) + multiset(s.queue)
  }

  /** Nothing is delivered before its time. */
  ghost predicate DueInv(s: State) {
    |s.deliveredAt| == |s.delivered| && forall k :: 0 <= k < |s.delivered| ==> s.delivered[k].uptime <= s.deliveredAt[k]
  }

  predicate WakeInv(s: State) {
    && (s.sending <==> s.pc.Handling?)
    && (MaySleep(s.pc) ==> HeadCovered(s))
    && (s.pc.InEpoll? ==> s.pc.since <= s.now && s.pc.timeout == AdjustedTimeout(s.pc.requested, s.next, s.pc.since))
  }

  function Idents(rs: seq<Response>): seq<Response> {
    if rs == [] then []
    else if rs[|rs| - 1].request.ident >= 0 then Idents(rs[..|rs| - 1]) + [rs[|rs| - 1]]
    else Idents(rs[..|rs| - 1])
  }

  function Calls(rs: seq<Response>): seq<Response> {
    if rs == [] then []
    else if rs[|rs| - 1].request.ident == POLL_CALLBACK then Calls(rs[..|rs| - 1]) + [rs[|rs| - 1]]
    else Calls(rs[..|rs| - 1])
  }

  /** How many of the current responses have been offered to their callbacks. */
  function Offered(s: State): nat {
    match s.pc
    case Draining(_, _, _) => 0
    case Delivering(_, _) => 0
    case Handling(_, _) => 0
    case Callbacks(i, _, _) => i
    case _ => |s.responses|
  }

  /** Every response pushed was returned or waits to be, and was handled or waits to be. */
  ghost predicate Accounted(s: State, cursor: nat, offered: nat) {
    && cursor <= |s.responses| && offered <= |s.responses|
    && Idents(s.pushed) == s.returned + Idents(s.responses[cursor..])
    && Calls(s.pushed) == s.handled + Calls(s.responses[offered..])
  }

  ghost predicate ResponseInv(s: State) {
    && (s.pc.Draining? || s.pc.Delivering? || s.pc.Handling? || s.pc.Callbacks? ==> s.cursor == 0)
    && (s.pc.InEpoll? ==> s.responses == [])
    && Accounted(s, s.cursor, Offered(s))
  }

  predicate PollInv(s: State) {
    && (s.pc.Scanning? ==> s.polls == if s.pc.result == 0 then 0 else 1)
    && (s.pc.InEpoll? || s.pc.Draining? || s.pc.Delivering? || s.pc.Handling? || s.pc.Callbacks? ==> s.polls == 1)
    && (s.pc.Draining? || s.pc.Delivering? || s.pc.Callbacks? ==> s.pc.result != 0)
    && s.polls <= 1
  }

  /** What addFd registers is an ident to return or a callback to invoke. */
  predicate ProperIdent(r: Request) {
    r.ident >= 0 || r.ident == POLL_CALLBACK
  }

  predicate AllProper(rs: seq<Response>) {
    forall k :: 0 <= k < |rs| ==> ProperIdent(rs[k].request)
  }

  ghost predicate IdentInv(s: State) {
    (forall fd :: fd in s.requests ==> ProperIdent(s.requests[fd])) && AllProper(s.pushed)
  }

  function EventsOf(seen: seq<Seen>): (events: seq<EpollEvent>)
    ensures |events| == |seen|
  {
    seq(|seen|, k requires 0 <= k < |seen| => seen[k].event)
  }

  /** The responses that the events ask for: one for each for whose fd there was a request. */
  function Answers(seen: seq<Seen>): seq<Response> {
    if seen == [] then []
    else
      var n := |seen| - 1;
      if seen[n].event.FdEvent? && seen[n].request.Some?
      then Answers(seen[..n]) + [Response(EventBits(seen[n].event.mask), seen[n].request.value)]
      else Answers(seen[..n])
  }

  /** The request found for an event is the one of its fd. */
  predicate OwnRequest(v: Seen) {
    v.request.Some? ==> v.event.FdEvent? && v.request.value.fd == v.event.fd
  }

  /** The events that epoll_wait reported and that have not been dealt with. */
  function Pending(pc: Pc): seq<EpollEvent> {
    if pc.Draining? then pc.events else []
  }

  ghost predicate EventInv(s: State) {
    && s.reported == EventsOf(s.seen) + Pending(s.pc)
    && s.pushed == Answers(s.seen)
  }

  ghost predicate RequestInv(s: State) {
    && (forall k :: 0 <= k < |s.seen| ==> OwnRequest(s.seen[k]))
    && (forall fd :: fd in s.requests ==> s.requests[fd].fd == fd)
  }

  /** What was due when the thread last looked has been delivered, or the thread is about to be woken. */
  predicate LookedInv(s: State) {
    && s.log.woke <= s.now && s.log.looked <= s.now
    && (MaySleep(s.pc) ==>
         && s.log.woke <= s.log.looked
         && (s.queue == [] || s.queue[0].uptime > s.log.looked || s.pipe > 0 || s.owed > 0))
  }

  /** The alarm is set for a message, if it is set. */
  ghost predicate NextInv(s: State) {
    && (s.pc.Delivering? || s.pc.Handling? ==> s.next == LLONG_MAX)
    && (s.next == LLONG_MAX || exists k :: 0 <= k < |s.sent| && s.sent[k].uptime == s.next)
  }

  /** What pollInner returns when it ends. */
  function ResultOf(ran: bool, outcome: EpollResult): int {
    if ran then POLL_CALLBACK
    else
      match outcome
      case Interrupted => POLL_WAKE
      case Failed => POLL_ERROR
      case TimedOut => POLL_TIMEOUT
      case Ready(_) => POLL_WAKE
  }

  predicate ProperAnswer(a: Answer) {
    match a
    case Ident(result, response) => result == response.request.ident >= 0
    case Outcome(result, ran, outcome) => result == ResultOf(ran, outcome)
  }

  ghost predicate AnswerInv(s: State) {
    && (s.pc.Draining? ==> !s.log.ran && s.log.outcome.Ready?)
    && (s.pc.Handling? ==> s.log.ran)
    && (s.pc.Draining? || s.pc.Delivering? || s.pc.Callbacks? || (s.pc.Scanning? && s.pc.result != 0) ==>
         s.pc.result == ResultOf(s.log.ran, s.log.outcome))
    && s.log.calls == |s.log.answers| + (if s.pc.Idle? then 0 else 1)
    && (forall k :: 0 <= k < |s.log.answers| ==> ProperAnswer(s.log.answers[k]))
  }

  ghost predicate Inv(s: State) {
    QueueInv(s) && DueInv(s) && WakeInv(s) && ResponseInv(s) && PollInv(s) && IdentInv(s) && EventInv(s)
    && RequestInv(s) && LookedInv(s) && NextInv(s) && AnswerInv(s)
  }

  lemma SendKeepsQueue(s: State, step: Step)
    requires QueueInv(s) && Enabled(s, step) && step.Send?
    ensures QueueInv(Next(s, step))
  {
    var e := Envelope(step.uptime, step.handler, step.what, |s.sent|);
    hide Timed, Inserted, InsertionIndex;
    InsertedTimed(s.queue, e);
    InsertedArrivals(s.queue, e);
    assert multiset(s.sent + [e]) == multiset(s.sent) + multiset{e};
  }

  lemma RemoveKeepsQueue(s: State, step: Step)
    requires QueueInv(s) && Enabled(s, step) && step.Remove?
    ensures QueueInv(Next(s, step))
  {
    KeptTimed(s.queue, step.handler, step.only);
    KeptMultiset(s.queue, step.handler, step.only);
    hide Timed;
    var k := Kept(s.queue, step.handler, step.only);
    forall j | 0 <= j < |k| ensures k[j].arrival < |s.sent| {
      KeptMember(s.queue, step.handler, step.only, k[j]);
    }
  }

  lemma DeliverKeepsQueue(s: State, step: Step)
    requires QueueInv(s) && Enabled(s, step) && step.Deliver?
    ensures QueueInv(Next(s, step))
  {
    if s.queue != [] && s.queue[0].uptime <= s.now {
      TimedTail(s.queue);
      hide Timed, Before;
      assert multiset(s.delivered + [s.queue[0]]) == multiset(s.delivered) + multiset{s.queue[0]};
    } else {
      hide Timed;
    }
  }

  lemma TimedTail(q: seq<Envelope>)
    requires Timed(q) && q != []
    ensures Timed(q[1..]) && multiset(q) == multiset{q[0]} + multiset(q[1..])
  {
    assert q == [q[0]] + q[1..];
  }

  lemma QueueStep(s: State, step: Step)
    requires QueueInv(s) && Enabled(s, step)
    ensures QueueInv(Next(s, step))
  {
    if step.Send? {
      SendKeepsQueue(s, step);
    } else if step.Remove? {
      RemoveKeepsQueue(s, step);
    } else if step.Deliver? {
      DeliverKeepsQueue(s, step);
    } else {
      hide Timed, EventBits, AdjustedTimeout, WritePipe;
      var s' := Next(s, step);
      assert s'.queue == s.queue && s'.sent == s.sent && s'.delivered == s.delivered && s'.removed == s.removed;
    }
  }

  lemma SendKeepsWake(s: State, step: Step)
    requires QueueInv(s) && WakeInv(s) && Enabled(s, step) && step.Send?
    ensures WakeInv(Next(s, step))
  {
    var e := Envelope(step.uptime, step.handler, step.what, |s.sent|);
    InsertedTimed(s.queue, e);
    hide Timed, QueueInv, AdjustedTimeout, Inserted;
    assert s.queue != [] && InsertionIndex(s.queue, step.uptime) > 0 ==> s.queue[0].uptime <= step.uptime;
  }

  lemma RemoveKeepsWake(s: State, step: Step)
    requires QueueInv(s) && WakeInv(s) && Enabled(s, step) && step.Remove?
    ensures WakeInv(Next(s, step))
  {
    if Kept(s.queue, step.handler, step.only) != [] { KeptHead(s.queue, step.handler, step.only); }
    hide QueueInv, Kept, Matching, AdjustedTimeout;
  }

  lemma WakeStep(s: State, step: Step)
    requires QueueInv(s) && WakeInv(s) && Enabled(s, step)
    ensures WakeInv(Next(s, step))
  {
    hide QueueInv;
    if step.Send? {
      hide WakeInv, Next;
      SendKeepsWake(s, step);
    } else if step.Remove? {
      hide WakeInv, Next;
      RemoveKeepsWake(s, step);
    } else {
      hide EventBits, AdjustedTimeout, Inserted, InsertionIndex, Kept, Matching;
    }
  }

  lemma PollStep(s: State, step: Step)
    requires PollInv(s) && Enabled(s, step)
    ensures PollInv(Next(s, step))
  {
  }

  lemma {:induction false} SplitResponses(rs: seq<Response>, ts: seq<Response>)
    ensures Idents(rs + ts) == Idents(rs) + Idents(ts)
    ensures Calls(rs + ts) == Calls(rs) + Calls(ts)
  {
    if ts == [] {
      assert rs + ts == rs;
    } else {
      SplitResponses(rs, ts[..|ts| - 1]);
      assert (rs + ts)[..|rs + ts| - 1] == rs + ts[..|ts| - 1];
    }
  }

  lemma FirstResponse(rs: seq<Response>, i: nat)
    requires i < |rs|
    ensures Idents(rs[i..]) == (if rs[i].request.ident >= 0 then [rs[i]] else []) + Idents(rs[i + 1..])
    ensures Calls(rs[i..]) == (if rs[i].request.ident == POLL_CALLBACK then [rs[i]] else []) + Calls(rs[i + 1..])
  {
    SplitResponses([rs[i]], rs[i + 1..]);
    assert rs[i..] == [rs[i]] + rs[i + 1..];
    assert [rs[i]][..0] == [];
  }

  lemma OneMoreResponse(pushed: seq<Response>, responses: seq<Response>, returned: seq<Response>, handled: seq<Response>, r: Response)
    requires Idents(pushed) == returned + Idents(responses[0..])
    requires Calls(pushed) == handled + Calls(responses[0..])
    ensures Idents(pushed + [r]) == returned + Idents((responses + [r])[0..])
    ensures Calls(pushed + [r]) == handled + Calls((responses + [r])[0..])
  {
    SplitResponses(pushed, [r]);
    SplitResponses(responses[0..], [r]);
    assert (responses + [r])[0..] == responses[0..] + [r];
    hide Idents, Calls;
    ConcatAssociative(returned, Idents(responses[0..]), Idents([r]));
    ConcatAssociative(handled, Calls(responses[0..]), Calls([r]));
  }

  lemma HandleKeepsResponses(s: State)
    requires ResponseInv(s) && s.pc.Draining?
    ensures ResponseInv(HandleNext(s))
  {
    hide Idents, Calls, EventBits;
    if s.pc.events != [] && s.pc.events[0].FdEvent? && s.pc.events[0].fd in s.requests {
      var r := Response(EventBits(s.pc.events[0].mask), s.requests[s.pc.events[0].fd]);
      OneMoreResponse(s.pushed, s.responses, s.returned, s.handled, r);
    }
  }

  lemma SameResponses(s: State, s': State, cursor: nat, offered: nat)
    requires Accounted(s, cursor, offered)
    requires s'.responses == s.responses && s'.pushed == s.pushed
    requires s'.returned == s.returned && s'.handled == s.handled
    ensures Accounted(s', cursor, offered)
  {
  }

  /** pollOnce moves on by one response, and returns it if it has an ident. */
  lemma NextReturned(s: State, cursor: nat, offered: nat)
    requires Accounted(s, cursor, offered) && cursor < |s.responses|
    ensures var r := s.responses[cursor];
      Accounted(if r.request.ident >= 0 then s.(returned := s.returned + [r]) else s, cursor + 1, offered)
  {
    var r, more := s.responses[cursor], Idents(s.responses[cursor + 1..]);
    FirstResponse(s.responses, cursor);
    hide Idents, Calls;
    ConcatAssociative(s.returned, [r], more);
    ConcatEmpty(more);
  }

  lemma AllForgotten(s: State)
    requires Accounted(s, |s.responses|, |s.responses|)
    ensures Accounted(s.(responses := []), 0, 0)
  {
    assert s.responses[|s.responses|..] == [];
    assert s.(responses := []).responses[0..] == [];
    hide Idents, Calls;
  }

  lemma ScanKeepsResponses(s: State)
    requires ResponseInv(s) && s.pc.Scanning?
    ensures ResponseInv(ScanNext(s))
  {
    if s.cursor < |s.responses| {
      NextReturned(s, s.cursor, |s.responses|);
      var r := s.responses[s.cursor];
      var s' := if r.request.ident >= 0 then s.(returned := s.returned + [r]) else s;
      SameResponses(s', ScanNext(s), s.cursor + 1, |s.responses|);
      hide Accounted;
    } else if s.pc.result == 0 {
      assert s.cursor == |s.responses|;
      AllForgotten(s);
      SameResponses(s.(responses := []), ScanNext(s), 0, 0);
    } else {
      SameResponses(s, ScanNext(s), s.cursor, |s.responses|);
    }
    hide AdjustedTimeout, Accounted;
  }

  lemma CallbackKeepsResponses(s: State, callbackResult: int, ctlOk: bool)
    requires ResponseInv(s) && s.pc.Callbacks?
    ensures ResponseInv(CallbackNext(s, callbackResult, ctlOk))
  {
    hide Idents, Calls;
    if s.pc.i < |s.responses| {
      FirstResponse(s.responses, s.pc.i);
      var r := s.responses[s.pc.i];
      ConcatAssociative(s.handled, [r], Calls(s.responses[s.pc.i + 1..]));
      ConcatEmpty(Calls(s.responses[s.pc.i + 1..]));
    }
  }

  lemma OtherKeepsResponses(s: State, step: Step)
    requires ResponseInv(s) && Enabled(s, step) && !step.Scan? && !step.HandleEvent? && !step.Callback?
    ensures ResponseInv(Next(s, step))
  {
    hide Idents, Calls, Inserted, Kept, Matching, InsertionIndex, WritePipe, RegisteredIdent;
    var s' := Next(s, step);
    assert Offered(s') == Offered(s);
    SameResponses(s, s', s.cursor, Offered(s));
    hide Accounted;
  }

  lemma ResponseStep(s: State, step: Step)
    requires ResponseInv(s) && Enabled(s, step)
    ensures ResponseInv(Next(s, step))
  {
    hide ResponseInv, ScanNext, HandleNext, CallbackNext, DeliverNext, Inserted, Kept, Matching, InsertionIndex;
    if step.Scan? {
      ScanKeepsResponses(s);
    } else if step.HandleEvent? {
      HandleKeepsResponses(s);
    } else if step.Callback? {
      CallbackKeepsResponses(s, step.callbackResult, step.ctlOk);
    } else {
      hide Next;
      OtherKeepsResponses(s, step);
    }
  }

  lemma DueStep(s: State, step: Step)
    requires DueInv(s) && Enabled(s, step)
    ensures DueInv(Next(s, step))
  {
  }

  lemma OneMoreSeen(seen: seq<Seen>, v: Seen, more: seq<EpollEvent>)
    ensures EventsOf(seen + [v]) + more == EventsOf(seen) + ([v.event] + more)
    ensures Answers(seen + [v]) ==
      if v.event.FdEvent? && v.request.Some? then Answers(seen) + [Response(EventBits(v.event.mask), v.request.value)]
      else Answers(seen)
  {
    assert (seen + [v])[..|seen|] == seen;
    assert EventsOf(seen + [v]) == EventsOf(seen) + [v.event];
    hide EventBits;
    ConcatAssociative(EventsOf(seen), [v.event], more);
  }

  lemma HandleKeepsEvents(s: State)
    requires EventInv(s) && s.pc.Draining?
    ensures EventInv(HandleNext(s))
  {
    if s.pc.events == [] {
      assert Pending(HandleNext(s).pc) == s.pc.events;
    } else {
      var e, more := s.pc.events[0], s.pc.events[1..];
      var request := if e.FdEvent? && e.fd in s.requests then Some(s.requests[e.fd]) else None;
      assert [e] + more == s.pc.events;
      hide EventsOf, Answers, EventBits;
      OneMoreSeen(s.seen, Seen(e, request), more);
    }
  }

  lemma OtherKeepsEvents(s: State, step: Step)
    requires EventInv(s) && Enabled(s, step) && !step.HandleEvent?
    ensures EventInv(Next(s, step))
  {
    hide EventsOf, Answers, EventBits, WritePipe, AdjustedTimeout, Inserted, Kept, Matching, InsertionIndex, HandleNext;
    if step.EpollReturns? {
      ConcatEmpty(EventsOf(s.seen));
    } else {
      assert Pending(Next(s, step).pc) == Pending(s.pc);
    }
  }

  lemma EventStep(s: State, step: Step)
    requires EventInv(s) && Enabled(s, step)
    ensures EventInv(Next(s, step))
  {
    hide EventInv, HandleNext;
    if step.HandleEvent? {
      HandleKeepsEvents(s);
    } else {
      hide Next;
      OtherKeepsEvents(s, step);
    }
  }

  lemma HandleKeepsRequests(s: State)
    requires RequestInv(s) && s.pc.Draining?
    ensures RequestInv(HandleNext(s))
  {
    hide EventBits;
  }

  lemma RequestStep(s: State, step: Step)
    requires RequestInv(s) && Enabled(s, step)
    ensures RequestInv(Next(s, step))
  {
    if step.HandleEvent? {
      HandleKeepsRequests(s);
      hide RequestInv, HandleNext;
    } else {
      hide OwnRequest, HandleNext, EventBits, WritePipe, AdjustedTimeout, Inserted, Kept, Matching, InsertionIndex;
      assert Next(s, step).seen == s.seen;
    }
  }

  lemma IdentStep(s: State, step: Step)
    requires IdentInv(s) && Enabled(s, step)
    ensures IdentInv(Next(s, step))
  {
    hide EventBits, WritePipe, AdjustedTimeout, Inserted, Kept, Matching, InsertionIndex;
  }

  /** Responses with proper idents are to be returned or to be handled, and never both. */
  lemma {:induction false} ProperSplit(rs: seq<Response>)
    requires AllProper(rs)
    ensures multiset(rs) == multiset(Idents(rs)) + multiset(Calls(rs))
  {
    if rs != [] {
      var front, last := rs[..|rs| - 1], rs[|rs| - 1];
      ProperSplit(front);
      assert rs == front + [last] && ProperIdent(last.request);
      hide AllProper;
    }
  }

  lemma SendKeepsLooked(s: State, step: Step)
    requires QueueInv(s) && LookedInv(s) && WakeInv(s) && Enabled(s, step) && step.Send?
    ensures LookedInv(Next(s, step))
  {
    var e := Envelope(step.uptime, step.handler, step.what, |s.sent|);
    InsertedTimed(s.queue, e);
    hide Timed, QueueInv, AdjustedTimeout, Inserted;
    assert s.queue != [] && InsertionIndex(s.queue, step.uptime) > 0 ==> s.queue[0].uptime <= step.uptime;
  }

  /** The steps of everybody but the polling thread. */
  predicate FromOutside(step: Step) {
    step.Tick? || step.Send? || step.Wake? || step.OwedWake? || step.Remove? || step.AddFd? || step.RemoveFd?
  }

  /** What they leave alone. */
  lemma OutsideFrame(s: State, step: Step)
    requires Enabled(s, step) && FromOutside(step)
    ensures var s' := Next(s, step);
      && s'.pc == s.pc && s'.log == s.log && s'.next == s.next && s'.polls == s.polls
      && s'.now >= s.now && s'.sending == s.sending && s.sent <= s'.sent
      && (!step.Send? && !step.Remove? ==> s'.queue == s.queue)
      && (!step.OwedWake? && !step.Send? ==> s'.owed == s.owed)
      && s'.pipe >= s.pipe && (step.OwedWake? ==> s'.pipe > 0)
  {
    hide Inserted, InsertionIndex, Kept, Matching, RegisteredIdent;
  }

  lemma RemoveKeepsLooked(s: State, step: Step)
    requires QueueInv(s) && LookedInv(s) && Enabled(s, step) && step.Remove?
    ensures LookedInv(Next(s, step))
  {
    if Kept(s.queue, step.handler, step.only) != [] { KeptHead(s.queue, step.handler, step.only); }
    hide QueueInv, Kept, Matching;
  }

  lemma LookedStep(s: State, step: Step)
    requires QueueInv(s) && LookedInv(s) && WakeInv(s) && Enabled(s, step)
    ensures LookedInv(Next(s, step))
  {
    hide QueueInv, WakeInv;
    if step.Send? {
      hide LookedInv, Next;
      SendKeepsLooked(s, step);
    } else if step.Remove? {
      hide LookedInv, Next;
      RemoveKeepsLooked(s, step);
    } else if FromOutside(step) {
      OutsideFrame(s, step);
      hide Next;
    } else {
      hide EventBits, AdjustedTimeout;
    }
  }

  lemma DeliverKeepsNext(s: State)
    requires QueueInv(s) && NextInv(s) && s.pc.Delivering?
    ensures NextInv(DeliverNext(s))
  {
    hide Timed;
    if s.queue != [] {
      assert s.queue[0] in multiset(s.sent);
      assert s.queue[0] in s.sent;
    }
  }

  /** What the polling thread does to the alarm and the messages sent, but for delivering. */
  lemma OwnFrame(s: State, step: Step)
    requires Enabled(s, step) && !FromOutside(step) && !step.Deliver?
    ensures var s' := Next(s, step);
      && s'.sent == s.sent && (s'.next == s.next || s'.next == LLONG_MAX)
      && (s'.pc.Handling? ==> s.pc.Handling?)
      && (s'.pc.Delivering? ==> s'.next == LLONG_MAX || s.pc.Handling?)
  {
    hide EventBits, AdjustedTimeout;
    if step.Scan? {
      hide HandleNext, CallbackNext, DeliverNext;
    } else if step.HandleEvent? {
      hide ScanNext, CallbackNext, DeliverNext;
    } else if step.Callback? {
      hide ScanNext, HandleNext, DeliverNext;
    } else {
      hide ScanNext, HandleNext, CallbackNext, DeliverNext;
    }
  }

  lemma NextStep(s: State, step: Step)
    requires QueueInv(s) && NextInv(s) && Enabled(s, step)
    ensures NextInv(Next(s, step))
  {
    if step.Deliver? {
      DeliverKeepsNext(s);
      hide NextInv, DeliverNext;
    } else if FromOutside(step) {
      OutsideFrame(s, step);
      var s' := Next(s, step);
      assert forall k :: 0 <= k < |s.sent| ==> s'.sent[k] == s.sent[k];
      hide Next, QueueInv;
    } else {
      OwnFrame(s, step);
      hide Next, QueueInv;
    }
  }

  lemma OwnLoopsKeepAnswers(s: State, step: Step)
    requires AnswerInv(s) && PollInv(s) && Enabled(s, step)
    requires step.Scan? || step.HandleEvent? || step.Deliver? || step.Callback?
    ensures AnswerInv(Next(s, step))
  {
    hide AdjustedTimeout, EventBits;
    if step.Scan? {
      assert AnswerInv(ScanNext(s));
    } else if step.HandleEvent? {
      assert AnswerInv(HandleNext(s));
    } else if step.Deliver? {
      assert AnswerInv(DeliverNext(s));
    } else {
      assert AnswerInv(CallbackNext(s, step.callbackResult, step.ctlOk));
    }
    hide AnswerInv, PollInv, ScanNext, HandleNext, DeliverNext, CallbackNext;
  }

  lemma AnswerStep(s: State, step: Step)
    requires AnswerInv(s) && PollInv(s) && Enabled(s, step)
    ensures AnswerInv(Next(s, step))
  {
    if step.Scan? || step.HandleEvent? || step.Deliver? || step.Callback? {
      OwnLoopsKeepAnswers(s, step);
      hide Next, AnswerInv;
    } else if FromOutside(step) {
      OutsideFrame(s, step);
      hide Next, ProperAnswer;
    } else {
      hide ProperAnswer;
      assert Next(s, step).log.answers == s.log.answers;
    }
  }

  // ----- whole runs

  ghost predicate Legal(s: State, steps: seq<Step>)
    decreases |steps|
  {
    steps == [] || (Enabled(s, steps[0]) && Legal(Next(s, steps[0]), steps[1..]))
  }

  ghost function After(s: State, steps: seq<Step>): State
    requires Legal(s, steps)
    decreases |steps|
  {
    if steps == [] then s else After(Next(s, steps[0]), steps[1..])
  }

  lemma InvStep(s: State, step: Step)
    requires Inv(s) && Enabled(s, step)
    ensures Inv(Next(s, step))
  {
    hide QueueInv, DueInv, WakeInv, ResponseInv, PollInv, IdentInv, EventInv, RequestInv, LookedInv, NextInv, AnswerInv,
      Next, Enabled;
    QueueStep(s, step);
    DueStep(s, step);
    WakeStep(s, step);
    ResponseStep(s, step);
    PollStep(s, step);
    IdentStep(s, step);
    EventStep(s, step);
    RequestStep(s, step);
    LookedStep(s, step);
    NextStep(s, step);
    AnswerStep(s, step);
  }

  lemma {:induction false} InvAfter(s: State, steps: seq<Step>)
    requires Inv(s) && Legal(s, steps)
    ensures Inv(After(s, steps))
    decreases |steps|
  {
    hide Inv, Next, Enabled;
    if steps != [] {
      InvStep(s, steps[0]);
      InvAfter(Next(s, steps[0]), steps[1..]);
    }
  }

  lemma StartInv()
    ensures Inv(Start)
  {
  }

  /** Whatever the interleaving, an idle or sleeping Looper with messages to deliver has set its alarm
      early enough, or has a wake-up in the pipe, or is about to get one. */
  lemma NoLostWakeUp(steps: seq<Step>)
    requires Legal(Start, steps) && MaySleep(After(Start, steps).pc)
    ensures HeadCovered(After(Start, steps))
  {
    StartInv();
    hide Legal, After, AdjustedTimeout;
    InvAfter(Start, steps);
  }

  /** A thread asleep in epoll_wait with a message in the queue and no wake-up on its way sleeps no
      longer than its caller asked for; and it has an alarm less than a millisecond after the head's
      time, or after now if that is past, unless the head is further away than any alarm can be. */
  lemma SleepsNoLonger(steps: seq<Step>)
    requires Legal(Start, steps)
    ensures var s := After(Start, steps);
      s.pc.InEpoll? && s.queue != [] && s.queue[0].uptime < LLONG_MAX && s.pipe == 0 && s.owed == 0 ==>
        var since, timeout, due := s.pc.since, s.pc.timeout, s.queue[0].uptime;
        && since <= s.now
        && (s.pc.requested >= 0 ==> 0 <= timeout <= s.pc.requested)
        && (due - since <= MAX_DELAY ==>
              0 <= timeout && since + timeout * MILLISECOND < (if due > since then due else since) + MILLISECOND)
  {
    StartInv();
    hide Legal, After, AdjustedTimeout;
    InvAfter(Start, steps);
    var s := After(Start, steps);
    assert WakeInv(s);
    hide Inv;
    if s.pc.InEpoll? && s.queue != [] && s.next <= s.queue[0].uptime < LLONG_MAX {
      AdjustedInTime(s.pc.requested, s.next, s.pc.since, s.queue[0].uptime);
    }
  }

  /** Exactly when a thread that was asked to sleep without limit has an alarm at all; and an alarm,
      which is set for a message that was sent, never wakes the thread early. */
  lemma AlarmSet(steps: seq<Step>)
    requires Legal(Start, steps)
    ensures var s := After(Start, steps);
      s.pc.InEpoll? ==>
        && (s.pc.requested < 0 ==>
             (s.pc.timeout >= 0 <==> s.next < LLONG_MAX && s.next - s.pc.since <= MAX_DELAY))
        && (s.pc.timeout != s.pc.requested ==>
             && s.pc.timeout >= 0 && (s.pc.requested < 0 || s.pc.timeout < s.pc.requested)
             && s.next <= s.pc.since + s.pc.timeout * MILLISECOND
             && exists k :: 0 <= k < |s.sent| && s.sent[k].uptime == s.next)
  {
    StartInv();
    hide Legal, After, MillisecondDelay;
    InvAfter(Start, steps);
    var s := After(Start, steps);
    if s.pc.InEpoll? {
      MillisecondDelayExact(s.pc.since, s.next);
      assert WakeInv(s) && NextInv(s);
    }
    hide Inv;
  }

  /** In every run, when the thread has looked at the queue and not yet slept, or sleeps, no message is
      left that was due when it looked, unless a wake-up is there or on its way; and it has looked since
      epoll_wait last returned. */
  lemma DueIsDelivered(steps: seq<Step>)
    requires Legal(Start, steps) && MaySleep(After(Start, steps).pc)
    ensures var s := After(Start, steps);
      && s.log.woke <= s.log.looked <= s.now
      && (s.pipe == 0 && s.owed == 0 ==> forall e :: e in s.queue ==> e.uptime > s.log.looked)
  {
    StartInv();
    hide Legal, After, AdjustedTimeout;
    InvAfter(Start, steps);
    var s := After(Start, steps);
    assert QueueInv(s) && LookedInv(s);
    hide Inv;
    if s.queue != [] { HeadFirst(s.queue); }
  }

  /** Every pollOnce that has returned has returned one thing: the ident of a response, or POLL_CALLBACK
      if a handler or callback ran, or else what became of epoll_wait. */
  lemma PollAnswers(steps: seq<Step>)
    requires Legal(Start, steps)
    ensures var s := After(Start, steps);
      && s.log.calls == |s.log.answers| + (if s.pc.Idle? then 0 else 1)
      && (forall k :: 0 <= k < |s.log.answers| ==> ProperAnswer(s.log.answers[k]))
  {
    StartInv();
    hide Legal, After, AdjustedTimeout;
    InvAfter(Start, steps);
    assert AnswerInv(After(Start, steps));
    hide Inv;
  }

  /** A callback that returns 0 takes its request with it; one that does not keeps it. */
  lemma CallbackUnregisters(s: State, callbackResult: int, ctlOk: bool, fd: Fd)
    requires s.pc.Callbacks? && s.pc.i < |s.responses| && s.responses[s.pc.i].request.ident == POLL_CALLBACK
    ensures var after := CallbackNext(s, callbackResult, ctlOk).requests;
      && (fd in after <==> fd in s.requests && !(fd == s.responses[s.pc.i].request.fd && callbackResult == 0 && ctlOk))
      && (fd in after ==> after[fd] == s.requests[fd])
  {
  }

  /** Each bit of a response's events says one thing. */
  lemma EventBitsExactly(m: Mask)
    ensures EventBits(m) < 16
    ensures (EventBits(m) % 2 == 1 <==> m.input) && ((EventBits(m) / 2) % 2 == 1 <==> m.output)
    ensures ((EventBits(m) / 4) % 2 == 1 <==> m.error) && ((EventBits(m) / 8) % 2 == 1 <==> m.hangup)
  {
  }

  lemma StepFirst(s: State, step: Step, rest: seq<Step>)
    requires Enabled(s, step) && Legal(Next(s, step), rest)
    ensures Legal(s, [step] + rest) && After(s, [step] + rest) == After(Next(s, step), rest)
  {
    assert ([step] + rest)[1..] == rest;
    hide Next, Enabled;
  }

  const DAY: nat := 24 * 3600 * 1000 * MILLISECOND

  const FarMessage := Envelope(25 * DAY, 0, 0, 0)

  /** The state of a Looper that waits for FarMessage and does nothing else. */
  function Waits(pc: Pc, next: Nanos, woken: seq<EpollEvent>, seen: seq<Seen>): State {
    Start.(queue := [FarMessage], sent := [FarMessage], pc := pc, next := next, reported := woken, seen := seen,
           polls := 1, log := Start.log.(calls := 1, outcome := if woken == [] then Interrupted else Ready(woken)))
  }

  lemma FourSteps(s: State, steps: seq<Step>, s1: State, s2: State, s3: State, s4: State)
    requires |steps| == 4
    requires Enabled(s, steps[0]) && Next(s, steps[0]) == s1 && Enabled(s1, steps[1]) && Next(s1, steps[1]) == s2
    requires Enabled(s2, steps[2]) && Next(s2, steps[2]) == s3 && Enabled(s3, steps[3]) && Next(s3, steps[3]) == s4
    ensures Legal(s, steps) && After(s, steps) == s4
  {
    assert Legal(s4, []) && After(s4, []) == s4;
    hide Next, Enabled;
    StepFirst(s3, steps[3], []);
    StepFirst(s2, steps[2], [steps[3]] + []);
    StepFirst(s1, steps[1], [steps[2]] + ([steps[3]] + []));
    StepFirst(s, steps[0], [steps[1]] + ([steps[2]] + ([steps[3]] + [])));
    assert steps == [steps[0]] + ([steps[1]] + ([steps[2]] + ([steps[3]] + [])));
  }

  lemma {:induction false} RunConcat(s: State, steps: seq<Step>, more: seq<Step>)
    requires Legal(s, steps) && Legal(After(s, steps), more)
    ensures Legal(s, steps + more) && After(s, steps + more) == After(After(s, steps), more)
    decreases |steps|
  {
    hide Next, Enabled;
    if steps == [] {
      assert steps + more == more;
    } else {
      RunConcat(Next(s, steps[0]), steps[1..], more);
      assert (steps + more)[1..] == steps[1..] + more;
    }
  }

  lemma FarSent()
    ensures var steps := [Send(25 * DAY, 0, 0), OwedWake, PollOnce(-1), Scan];
      Legal(Start, steps) && After(Start, steps) == Waits(InEpoll(-1, -1, 0), LLONG_MAX, [], []).(pipe := 1)
  {
    var s1 := Start.(queue := [FarMessage], sent := [FarMessage], owed := 1);
    var s2 := s1.(owed := 0, pipe := 1);
    var s3 := s2.(pc := Scanning(-1, 0), log := s2.log.(calls := 1));
    FourSteps(Start, [Send(25 * DAY, 0, 0), OwedWake, PollOnce(-1), Scan], s1, s2, s3,
              Waits(InEpoll(-1, -1, 0), LLONG_MAX, [], []).(pipe := 1));
  }

  lemma FarWoken(woken: seq<EpollEvent>)
    requires woken == [WakeEvent(Mask(true, false, false, false))]
    ensures var s, steps := Waits(InEpoll(-1, -1, 0), LLONG_MAX, [], []).(pipe := 1),
        [EpollReturns(Ready(woken)), HandleEvent, HandleEvent, Deliver];
      Legal(s, steps)
      && After(s, steps) == Waits(Callbacks(0, -1, POLL_WAKE), FarMessage.uptime, woken, [Seen(woken[0], None)])
  {
    var s := Waits(InEpoll(-1, -1, 0), LLONG_MAX, [], []).(pipe := 1);
    var s1 := Waits(Draining(woken, -1, POLL_WAKE), LLONG_MAX, woken, []).(pipe := 1);
    var s2 := Waits(Draining([], -1, POLL_WAKE), LLONG_MAX, woken, [Seen(woken[0], None)]);
    var s3 := Waits(Delivering(-1, POLL_WAKE), LLONG_MAX, woken, [Seen(woken[0], None)]);
    assert woken[0].WakeEvent? && woken[0].mask.input && woken[1..] == [] && [] + woken == woken;
    FourSteps(s, [EpollReturns(Ready(woken)), HandleEvent, HandleEvent, Deliver], s1, s2, s3,
              Waits(Callbacks(0, -1, POLL_WAKE), FarMessage.uptime, woken, [Seen(woken[0], None)]));
  }

  lemma FarAsleep(woken: seq<EpollEvent>, seen: seq<Seen>)
    requires woken != []
    ensures var s, steps := Waits(Callbacks(0, -1, POLL_WAKE), FarMessage.uptime, woken, seen),
        [Callback(0, true), Scan, PollOnce(-1), Scan];
      Legal(s, steps)
      && After(s, steps) == Waits(InEpoll(-1, -1, 0), FarMessage.uptime, woken, seen).(
           log := Log(0, 0, false, Ready(woken), 2, [Outcome(POLL_WAKE, false, Ready(woken))]))
  {
    var s := Waits(Callbacks(0, -1, POLL_WAKE), FarMessage.uptime, woken, seen);
    var s1 := Waits(Scanning(-1, POLL_WAKE), FarMessage.uptime, woken, seen);
    var answers := [Outcome(POLL_WAKE, false, Ready(woken))];
    var s2 := s1.(pc := Idle, log := Log(0, 0, false, Ready(woken), 1, answers));
    var s3 := s2.(pc := Scanning(-1, 0), polls := 0, log := Log(0, 0, false, Ready(woken), 2, answers));
    FourSteps(s, [Callback(0, true), Scan, PollOnce(-1), Scan], s1, s2, s3,
              s3.(pc := InEpoll(-1, -1, 0), polls := 1));
  }

  /** A run that ends asleep without an alarm: a message is sent for a time 25 days ahead; a pollOnce
      takes the wake-up, and finds the message not due; the next one sleeps. */
  lemma SleepsForever() returns (steps: seq<Step>)
    ensures Legal(Start, steps)
    ensures var s := After(Start, steps);
      && s.pc == InEpoll(-1, -1, s.now) && s.queue == [FarMessage] && s.next == FarMessage.uptime < LLONG_MAX
      && s.pipe == 0 && s.owed == 0
  {
    var woken := [WakeEvent(Mask(true, false, false, false))];
    FarSent();
    FarWoken(woken);
    FarAsleep(woken, [Seen(woken[0], None)]);
    var first := [Send(25 * DAY, 0, 0), OwedWake, PollOnce(-1), Scan];
    var second := [EpollReturns(Ready(woken)), HandleEvent, HandleEvent, Deliver];
    var third := [Callback(0, true), Scan, PollOnce(-1), Scan];
    hide Legal, After;
    RunConcat(After(Start, first), second, third);
    RunConcat(Start, first, second + third);
    steps := first + (second + third);
  }

  lemma FirstDelivered(s: State)
    requires QueueInv(s) && s.pc.Delivering?
    ensures var s' := DeliverNext(s);
      && (s'.delivered != s.delivered <==> exists e :: e in s.queue && e.uptime <= s.now)
      && (s'.delivered != s.delivered ==>
           && s.queue != [] && s'.delivered == s.delivered + [s.queue[0]] && s'.queue == s.queue[1..]
           && s.queue[0].uptime <= s.now && s'.pc == Handling(s.queue[0], s.pc.requested))
      && (s'.delivered == s.delivered ==>
           s'.pc.Callbacks? && s'.queue == s.queue && s'.next == if s.queue == [] then s.next else s.queue[0].uptime)
  {
    if s.queue != [] { HeadFirst(s.queue); }
    hide Timed;
  }

  lemma FirstHanded(s: State)
    requires QueueInv(s) && NextInv(s) && s.pc.Delivering?
    ensures var s' := DeliverNext(s);
      && (s'.delivered != s.delivered <==> exists e :: e in s.queue && e.uptime <= s.now)
      && (s'.delivered != s.delivered ==>
           && |s'.delivered| == |s.delivered| + 1 && s'.delivered[..|s.delivered|] == s.delivered
           && var e := s'.delivered[|s.delivered|];
              && e in s.queue && e.uptime <= s.now && s'.pc == Handling(e, s.pc.requested)
              && (forall other :: other in s.queue && other != e ==> Before(e, other))
              && multiset(s'.queue) == multiset(s.queue) - multiset{e})
      && (s'.delivered == s.delivered ==>
           s'.pc.Callbacks? && s'.queue == s.queue && s'.next == if s.queue == [] then LLONG_MAX else s.queue[0].uptime)
  {
    FirstDelivered(s);
    if s.queue != [] {
      HeadFirst(s.queue);
      TimedTail(s.queue);
    }
    hide QueueInv, Timed, Before, DeliverNext;
  }

  /** A turn of the delivery loop hands a message over exactly when one is due, and then the one that
      comes before every other that waits. */
  lemma DeliversTheFirst(steps: seq<Step>)
    requires Legal(Start, steps) && After(Start, steps).pc.Delivering?
    ensures var s := After(Start, steps);
      var s' := Next(s, Deliver);
      && (s'.delivered != s.delivered <==> exists e :: e in s.queue && e.uptime <= s.now)
      && (s'.delivered != s.delivered ==>
           && |s'.delivered| == |s.delivered| + 1 && s'.delivered[..|s.delivered|] == s.delivered
           && var e := s'.delivered[|s.delivered|];
              && e in s.queue && e.uptime <= s.now && s'.pc == Handling(e, s.pc.requested)
              && (forall other :: other in s.queue && other != e ==> Before(e, other))
              && multiset(s'.queue) == multiset(s.queue) - multiset{e})
      && (s'.delivered == s.delivered ==>
           s'.pc.Callbacks? && s'.queue == s.queue && s'.next == if s.queue == [] then LLONG_MAX else s.queue[0].uptime)
  {
    StartInv();
    hide Legal, After, AdjustedTimeout;
    InvAfter(Start, steps);
    var s := After(Start, steps);
    assert QueueInv(s) && NextInv(s);
    assert Next(s, Deliver) == DeliverNext(s);
    hide Inv, QueueInv, NextInv, DeliverNext, Next, Before;
    FirstHanded(s);
  }

  /** Every message sent is delivered, removed or still waiting, and is so once; none is early. */
  lemma MessagesConserved(steps: seq<Step>)
    requires Legal(Start, steps)
    ensures var s := After(Start, steps);
      && multiset(s.sent) == multiset(s.delivered) + multiset(s.removed) + multiset(s.queue)
      && |s.deliveredAt| == |s.delivered|
      && (forall k :: 0 <= k < |s.delivered| ==> s.delivered[k].uptime <= s.deliveredAt[k])
  {
    StartInv();
    hide Legal, After, AdjustedTimeout;
    InvAfter(Start, steps);
  }

  /** Whenever the thread sleeps in epoll_wait, it has dealt with every event reported so far, in order;
      the responses that these ask for have been pushed; and every one of them has been handled by its
      callback or returned to a caller of pollOnce, once and in order.  A pollOnce calls pollInner at
      most once. */
  lemma ResponsesExactlyOnce(steps: seq<Step>)
    requires Legal(Start, steps)
    ensures var s := After(Start, steps);
      && s.pushed == Answers(s.seen) && EventsOf(s.seen) <= s.reported
      && (forall k :: 0 <= k < |s.seen| ==> OwnRequest(s.seen[k]))
      && (s.pc.InEpoll? ==>
           && EventsOf(s.seen) == s.reported
           && s.returned == Idents(s.pushed) && s.handled == Calls(s.pushed)
           && multiset(s.pushed) == multiset(s.returned) + multiset(s.handled))
      && (s.pc.Idle? || s.pc.Scanning? ==> s.handled == Calls(s.pushed))
      && s.returned <= Idents(s.pushed) && s.handled <= Calls(s.pushed)
      && s.polls <= 1
  {
    StartInv();
    hide Legal, After, AdjustedTimeout;
    InvAfter(Start, steps);
    var s := After(Start, steps);
    AsleepAnswered(s);
    hide Inv, Answers, EventsOf, Idents, Calls;
  }

  /** The same, of any state in which the invariant holds. */
  lemma AsleepAnswered(s: State)
    requires Inv(s)
    ensures s.pushed == Answers(s.seen) && EventsOf(s.seen) <= s.reported
    ensures forall k :: 0 <= k < |s.seen| ==> OwnRequest(s.seen[k])
    ensures s.pc.InEpoll? ==>
      && EventsOf(s.seen) == s.reported
      && s.returned == Idents(s.pushed) && s.handled == Calls(s.pushed)
      && multiset(s.pushed) == multiset(s.returned) + multiset(s.handled)
    ensures s.pc.Idle? || s.pc.Scanning? ==> s.handled == Calls(s.pushed)
    ensures s.returned <= Idents(s.pushed) && s.handled <= Calls(s.pushed) && s.polls <= 1
  {
    assert s.responses[|s.responses|..] == [];
    hide QueueInv, WakeInv, DueInv, Answers, EventsOf;
    if s.pc.InEpoll? {
      assert s.responses[s.cursor..] == [];
      ProperSplit(s.pushed);
    }
  }
}
