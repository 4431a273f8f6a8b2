/** The threads of the multi-HAL: one writer per queue and one poller, under queue_mutex and two kinds
    of condition variables.  What a thread does while it holds the mutex is one step. */
module MultiHalProtocol {
  import opened Sequences
  import opened SensorEventQueues
  import opened MultiHalHandles
  import opened MultiHalPoll

  /** SENSOR_EVENT_QUEUE_CAPACITY. */
  const CAPACITY: nat := 36

  /** A writerTask: about to take the mutex, waiting for space without having been signalled, or in
      its device's poll with a region of its queue to fill and no mutex. */
  datatype Writer = Ready | Waiting | Filling(first: nat, length: nat, wrote: seq<Event>)

  /** The caller of poll: elsewhere, waiting for data without having been signalled, or signalled. */
  datatype Poller = Outside | PollWaiting(maxReads: int) | PollWoken(maxReads: int)

  /** What a call of poll returned. */
  datatype Reply = Reply(maxReads: int, events: seq<Event>)

  datatype State = State(
    queues: seq<Queue>,
    writers: seq<Writer>,
    poller: Poller,
    waitingForData: bool,        // waiting_for_data
    nextRead: nat,               // nextReadIndex
    // what has happened so far
    marked: seq<seq<Event>>,     // for each queue, the events marked as written
    visits: seq<Visit>,          // poll's looks at the queues
    returned: seq<Event>,        // the events returned by poll
    asked: seq<int>,             // the maxReads of every call of poll
    replies: seq<Reply>
  )

  datatype Step =
    | WriterLocks(i: nat, length: nat)    // waitForSpace, then getWritableRegion
    | WriterStores(i: nat, e: Event)      // the device fills the next slot of the region
    | WriterReturns(i: nat, count: int)   // the device's poll returns, markAsWritten
    | WriterWakes(i: nat)                 // pthread_cond_wait returns unasked
    | Poll(maxReads: int)
    | PollResumes
    | PollWakes

  ghost predicate Initial(s: State) {
    && |s.writers| == |s.queues| == |s.marked|
    && (forall i :: 0 <= i < |s.queues| ==>
         s.queues[i].Valid() && |s.queues[i].data| == CAPACITY && s.queues[i].size == 0
         && s.writers[i] == Ready && s.marked[i] == [])
    && s.poller == Outside && !s.waitingForData && s.nextRead == 0 && s.visits == [] && s.returned == []
    && s.asked == [] && s.replies == []
  }

  predicate Enabled(s: State, step: Step) {
    match step
    case WriterLocks(i, length) =>
      i < |s.writers| && i < |s.queues| && s.writers[i].Ready? && s.queues[i].Valid() && |s.queues[i].data| > 0
      && (s.queues[i].size < |s.queues[i].data| ==> s.queues[i].Held(s.queues[i].Slot(s.queues[i].size), length))
    case WriterStores(i, _) =>
      i < |s.writers| && i < |s.queues| && s.writers[i].Filling? && |s.writers[i].wrote| < s.writers[i].length
      && s.writers[i].first + s.writers[i].length <= |s.queues[i].data|
    case WriterReturns(i, count) =>
      i < |s.writers| && i < |s.queues| && i < |s.marked| && s.writers[i].Filling? && count <= |s.writers[i].wrote|
    case WriterWakes(i) => i < |s.writers| && s.writers[i].Waiting?
    case Poll(maxReads) => s.poller.Outside? && maxReads >= 1
    case PollResumes => s.poller.PollWoken?
    case PollWakes => s.poller.PollWaiting?
  }

  function Next(t: Tables, s: State, step: Step): State
    requires Inv(t, s) && Enabled(s, step)
  {
    CoreValid(t, s);
    match step
    case WriterLocks(i, length) =>
      var q := s.queues[i];
      if q.size == |q.data| then s.(writers := s.writers[i := Waiting])
      else s.(writers := s.writers[i := Filling(q.Slot(q.size), length, [])])
    case WriterStores(i, e) =>
      var w := s.writers[i];
      s.(queues := s.queues[i := s.queues[i].Stored(w.first + |w.wrote|, e)],
         writers := s.writers[i := w.(wrote := w.wrote + [e])])
    case WriterReturns(i, count) =>
      if count <= 0 then s.(writers := s.writers[i := Ready])
      else
        s.(queues := s.queues[i := s.queues[i].Marked(count)],
           marked := s.marked[i := s.marked[i] + s.writers[i].wrote[..count]],
           writers := s.writers[i := Ready],
           poller := if s.waitingForData && s.poller.PollWaiting? then PollWoken(s.poller.maxReads) else s.poller)
    case WriterWakes(i) => s.(writers := s.writers[i := Ready])
    case Poll(maxReads) => Scanned(t, s.(asked := s.asked + [maxReads]), maxReads)
    case PollResumes => Scanned(t, s.(waitingForData := false), s.poller.maxReads)
    case PollWakes => s.(poller := PollWoken(s.poller.maxReads))
  }

  /** A scan of the queues under the mutex.  A writer wakes when dequeue signals it. */
  function Scanned(t: Tables, s: State, maxReads: int): State
    requires AllValid(s.queues) && |s.writers| == |s.queues| && (s.nextRead < |s.queues| || s.queues == [])
  {
    var r := Scan(t, s.queues, s.nextRead, 0, [], maxReads);
    var writers := seq(|s.writers|, i requires 0 <= i < |s.writers| =>
      if s.writers[i].Waiting? && Signalled(r.visits, i) then Ready else s.writers[i]);
    var s' := s.(queues := r.queues, nextRead := r.next, writers := writers, visits := s.visits + r.visits,
                 returned := s.returned + r.output);
    if r.output == [] then s'.(waitingForData := true, poller := PollWaiting(maxReads))
    else s'.(poller := Outside, replies := s.replies + [Reply(maxReads, r.output)])
  }

  // ----- the invariant

  /** A writer that waits has a full queue; one that fills a region has it to itself. */
  predicate WriterOk(q: Queue, w: Writer) {
    && q.Valid() && |q.data| == CAPACITY
    && match w
       case Ready => true
       case Waiting => q.size == CAPACITY
       case Filling(first, length, wrote) =>
         && q.Held(first, length) && |wrote| <= length
         && q.data[first..first + |wrote|] == wrote
  }

  predicate PollerOk(s: State) {
    && (s.poller.Outside? ==> !s.waitingForData)
    && (s.poller.PollWaiting? ==> s.waitingForData && forall i :: 0 <= i < |s.queues| ==> s.queues[i].size == 0)
    && (!s.poller.Outside? ==> s.poller.maxReads >= 1)
  }

  /** What was marked in queue i is what poll has taken from it and what is still there. */
  predicate QueueOk(s: State, i: nat)
    requires |s.writers| == |s.queues| == |s.marked| && i < |s.queues|
  {
    WriterOk(s.queues[i], s.writers[i]) && s.marked[i] == Taken(s.visits, i) + s.queues[i].Contents()
  }

  ghost predicate Core(t: Tables, s: State) {
    && |s.writers| == |s.queues| == |s.marked|
    && (forall i :: 0 <= i < |s.queues| ==> QueueOk(s, i))
    && (s.nextRead < |s.queues| || s.queues == [])
    && s.returned == Delivered(t, s.visits)
  }

  /** All looks at the queues so far go round and round, whichever polls they belong to. */
  ghost predicate TurnsOk(s: State) {
    if s.queues == [] then s.visits == []
    else InTurn(s.visits, 0, |s.queues|) && s.nextRead == QueueAt(0, |s.visits|, |s.queues|)
  }

  function AllEvents(replies: seq<Reply>): seq<Event> {
    if replies == [] then [] else AllEvents(replies[..|replies| - 1]) + replies[|replies| - 1].events
  }

  /** Calls of poll so far, the one that waits included, which has not been answered yet. */
  function Answerable(s: State): nat {
    |s.replies| + if s.poller.Outside? then 0 else 1
  }

  /** Every call is answered once, in turn, with events and no more of them than asked for. */
  ghost predicate RepliesOk(s: State) {
    && |s.asked| == Answerable(s)
    && (forall k :: 0 <= k < |s.replies| ==>
         s.replies[k].maxReads == s.asked[k] && 1 <= |s.replies[k].events| <= s.asked[k])
    && (!s.poller.Outside? ==> s.asked[|s.replies|] == s.poller.maxReads)
    && s.returned == AllEvents(s.replies)
  }

  ghost predicate Inv(t: Tables, s: State) {
    Core(t, s) && PollerOk(s) && TurnsOk(s) && RepliesOk(s)
  }

  lemma TurnKeepsRegion(t: Tables, queues: seq<Queue>, next: nat, empties: nat, output: seq<Event>, i: nat)
    requires AllValid(queues) && next < |queues| && i < |queues|
    ensures var n := TakeTurn(t, queues, next, empties, output);
      && i < |n.queues| && n.queues[i].data == queues[i].data
      && n.queues[i].size + |Taken([n.visit], i)| == queues[i].size
      && (forall first, length :: queues[i].Held(first, length) ==> n.queues[i].Held(first, length))
  {
    if i == next && queues[i].size > 0 {
      forall first, length | queues[i].Held(first, length) ensures queues[i].Dequeued().Held(first, length) {
        HeldAfterDequeue(queues[i], first, length);
      }
    }
  }

  /** A scan moves no writer's region and overwrites nothing. */
  lemma {:induction false} ScanKeepsRegion(t: Tables, queues: seq<Queue>, next: nat, empties: nat, output: seq<Event>, maxReads: int, i: nat)
    requires AllValid(queues) && (next < |queues| || queues == []) && i < |queues|
    ensures var r := Scan(t, queues, next, empties, output, maxReads);
      && |r.queues| == |queues| && r.queues[i].data == queues[i].data
      && r.queues[i].size + |Taken(r.visits, i)| == queues[i].size
      && (forall first, length :: queues[i].Held(first, length) ==> r.queues[i].Held(first, length))
      && (r.next < |queues| || queues == [])
    decreases Total(queues), |queues| - empties
  {
    if empties < |queues| && |output| < maxReads {
      TurnShrinks(t, queues, next, empties, output);
      TurnKeepsRegion(t, queues, next, empties, output, i);
      var n := TakeTurn(t, queues, next, empties, output);
      hide TakeTurn, AllValid;
      ScanKeepsRegion(t, n.queues, Ahead(next, 1, |queues|), n.empties, n.output, maxReads, i);
      FirstVisit(t, n.visit, Scan(t, n.queues, Ahead(next, 1, |queues|), n.empties, n.output, maxReads).visits, i);
    }
  }

  lemma {:induction false} VisitsConcat(t: Tables, visits: seq<Visit>, more: seq<Visit>, i: nat)
    ensures Taken(visits + more, i) == Taken(visits, i) + Taken(more, i)
    ensures Delivered(t, visits + more) == Delivered(t, visits) + Delivered(t, more)
  {
    if visits == [] {
      assert visits + more == more;
    } else {
      var v, rest := visits[0], visits[1..];
      hide Taken, Delivered;
      VisitsConcat(t, rest, more, i);
      FirstVisit(t, v, rest, i);
      FirstVisit(t, v, rest + more, i);
      assert visits == [v] + rest && visits + more == [v] + (rest + more);
      ConcatAssociative(Taken([v], i), Taken(rest, i), Taken(more, i));
      ConcatAssociative(Delivered(t, [v]), Delivered(t, rest), Delivered(t, more));
    }
  }

  lemma CoreValid(t: Tables, s: State)
    requires Core(t, s)
    ensures AllValid(s.queues) && forall i :: 0 <= i < |s.queues| ==> WriterOk(s.queues[i], s.writers[i])
  {
    forall i | 0 <= i < |s.queues| ensures WriterOk(s.queues[i], s.writers[i]) && s.queues[i].Valid() {
      assert QueueOk(s, i);
    }
  }

  lemma ScannedWriter(t: Tables, s: State, maxReads: int, i: nat)
    requires Core(t, s) && AllValid(s.queues) && i < |s.queues|
    ensures var s' := Scanned(t, s, maxReads);
      |s'.writers| == |s'.queues| == |s.queues| && WriterOk(s'.queues[i], s'.writers[i])
  {
    ScanKeepsRegion(t, s.queues, s.nextRead, 0, [], maxReads, i);
    ScanConserves(t, s.queues, s.nextRead, 0, [], maxReads, i);
    assert QueueOk(s, i);
    var r := Scan(t, s.queues, s.nextRead, 0, [], maxReads);
    if s.writers[i].Waiting? { FullQueueSignals(t, s.queues, s.nextRead, 0, [], maxReads, i); }
    if s.writers[i].Filling? { assert r.queues[i].Held(s.writers[i].first, s.writers[i].length); }
    hide Scan, Taken, Signalled, Delivered, AllValid, Core;
  }

  lemma ScannedHistory(t: Tables, s: State, maxReads: int, i: nat)
    requires Core(t, s) && AllValid(s.queues) && i < |s.queues|
    ensures var s' := Scanned(t, s, maxReads);
      && |s'.queues| == |s.queues| && s'.queues[i].Valid()
      && s'.marked[i] == Taken(s'.visits, i) + s'.queues[i].Contents()
  {
    ScanConserves(t, s.queues, s.nextRead, 0, [], maxReads, i);
    var r := Scan(t, s.queues, s.nextRead, 0, [], maxReads);
    VisitsConcat(t, s.visits, r.visits, i);
    assert QueueOk(s, i);
    hide Scan, Taken, WriterOk;
    ConcatAssociative(Taken(s.visits, i), Taken(r.visits, i), r.queues[i].Contents());
  }

  lemma ScannedCore(t: Tables, s: State, maxReads: int)
    requires Core(t, s) && AllValid(s.queues)
    ensures Core(t, Scanned(t, s, maxReads))
  {
    var s' := Scanned(t, s, maxReads);
    var r := Scan(t, s.queues, s.nextRead, 0, [], maxReads);
    ScanDelivers(t, s.queues, s.nextRead, 0, [], maxReads);
    VisitsConcat(t, s.visits, r.visits, 0);
    hide Scan, Taken, Delivered, WriterOk;
    if s.queues != [] { ScanKeepsRegion(t, s.queues, s.nextRead, 0, [], maxReads, 0); } else { ScanNothing(t, s, maxReads); }
    forall i | 0 <= i < |s.queues| ensures |s'.queues| == |s.queues| && QueueOk(s', i) {
      ScannedWriter(t, s, maxReads, i);
      ScannedHistory(t, s, maxReads, i);
    }
    assert [] + Delivered(t, r.visits) == Delivered(t, r.visits);
  }

  lemma ScanNothing(t: Tables, s: State, maxReads: int)
    requires s.queues == []
    ensures Scan(t, s.queues, s.nextRead, 0, [], maxReads) == ScanResult([], s.nextRead, [], [])
  {
  }

  /** A scan goes on where the last one stopped, in whichever poll that was. */
  lemma ScannedTurns(t: Tables, s: State, maxReads: int)
    requires AllValid(s.queues) && |s.writers| == |s.queues| && (s.nextRead < |s.queues| || s.queues == [])
    requires TurnsOk(s)
    ensures TurnsOk(Scanned(t, s, maxReads))
  {
    if s.queues == [] {
      ScanNothing(t, s, maxReads);
    } else {
      var r := Scan(t, s.queues, s.nextRead, 0, [], maxReads);
      ScanInTurn(t, s.queues, s.nextRead, 0, [], maxReads);
      ScanConserves(t, s.queues, s.nextRead, 0, [], maxReads, 0);
      InTurnConcat(s.visits, r.visits, 0, |s.queues|);
      QueueAtSum(0, |s.visits|, |r.visits|, |s.queues|);
      hide Scan, InTurn, QueueAt, Signalled, AllValid;
    }
  }

  lemma ScannedReplies(t: Tables, s: State, maxReads: int)
    requires AllValid(s.queues) && |s.writers| == |s.queues| && (s.nextRead < |s.queues| || s.queues == [])
    requires |s.asked| == |s.replies| + 1 && s.asked[|s.replies|] == maxReads >= 1
    requires forall k :: 0 <= k < |s.replies| ==>
      s.replies[k].maxReads == s.asked[k] && 1 <= |s.replies[k].events| <= s.asked[k]
    requires s.returned == AllEvents(s.replies)
    ensures RepliesOk(Scanned(t, s, maxReads))
  {
    var r := Scan(t, s.queues, s.nextRead, 0, [], maxReads);
    ScanDelivers(t, s.queues, s.nextRead, 0, [], maxReads);
    assert |r.output| <= maxReads;
    AllEventsNext(s.replies, Reply(maxReads, r.output));
    hide Scan, Taken, Signalled, AllValid, Delivered, AllEvents;
    var s' := Scanned(t, s, maxReads);
    if r.output == [] {
      ConcatEmpty(s.returned);
      assert s'.replies == s.replies && s'.asked == s.asked && s'.returned == s.returned;
    } else {
      assert s'.replies == s.replies + [Reply(maxReads, r.output)] && s'.asked == s.asked;
      assert s'.returned == s.returned + r.output && s'.poller.Outside?;
    }
    hide Scanned;
  }

  lemma AllEventsNext(replies: seq<Reply>, reply: Reply)
    ensures AllEvents(replies + [reply]) == AllEvents(replies) + reply.events
  {
    assert (replies + [reply])[..|replies|] == replies;
  }

  /** Neither the looks at the queues nor the answers are a writer's business. */
  lemma SamePolls(s: State, s': State)
    requires TurnsOk(s) && RepliesOk(s)
    requires |s'.queues| == |s.queues| && s'.visits == s.visits && s'.nextRead == s.nextRead
    requires s'.asked == s.asked && s'.replies == s.replies && s'.returned == s.returned
    requires s'.poller.Outside? == s.poller.Outside?
    requires !s.poller.Outside? ==> s'.poller.maxReads == s.poller.maxReads
    ensures TurnsOk(s') && RepliesOk(s')
  {
    hide InTurn, QueueAt, AllEvents;
  }

  lemma ScannedInv(t: Tables, s: State, maxReads: int)
    requires Core(t, s) && AllValid(s.queues) && TurnsOk(s) && !s.waitingForData && maxReads >= 1
    requires RepliesOk(Scanned(t, s, maxReads))
    ensures Inv(t, Scanned(t, s, maxReads))
  {
    ScannedCore(t, s, maxReads);
    ScannedTurns(t, s, maxReads);
    ScanExhausts(t, s.queues, s.nextRead, 0, [], maxReads);
    hide Core, Scan, TurnsOk, RepliesOk;
  }

  lemma LockStep(t: Tables, s: State, step: Step)
    requires Inv(t, s) && Enabled(s, step) && step.WriterLocks?
    ensures Inv(t, Next(t, s, step))
  {
    var s' := Next(t, s, step);
    SamePolls(s, s');
    hide TurnsOk, RepliesOk;
    assert QueueOk(s, step.i);
    forall k | 0 <= k < |s'.queues| ensures QueueOk(s', k) {
      assert QueueOk(s, k);
      hide Taken;
    }
  }

  lemma StoredQueue(q: Queue, w: Writer, e: Event)
    requires w.Filling? && WriterOk(q, w) && |w.wrote| < w.length
    ensures var q' := q.Stored(w.first + |w.wrote|, e);
      WriterOk(q', w.(wrote := w.wrote + [e])) && q'.Contents() == q.Contents()
  {
    StoredUnread(q, w.first, w.length, w.first + |w.wrote|, e);
    var at := w.first + |w.wrote|;
    assert q.data[at := e][w.first..at + 1] == q.data[w.first..at] + [e];
  }

  lemma StoreStep(t: Tables, s: State, step: Step)
    requires Inv(t, s) && Enabled(s, step) && step.WriterStores?
    ensures Inv(t, Next(t, s, step))
  {
    var s' := Next(t, s, step);
    assert QueueOk(s, step.i);
    StoredQueue(s.queues[step.i], s.writers[step.i], step.e);
    SamePolls(s, s');
    hide TurnsOk, RepliesOk, Taken, WriterOk;
    forall k | 0 <= k < |s'.queues| ensures QueueOk(s', k) {
      assert QueueOk(s, k);
    }
  }

  lemma ReturnedQueue(q: Queue, w: Writer, count: nat)
    requires w.Filling? && WriterOk(q, w) && count <= |w.wrote|
    ensures WriterOk(q.Marked(count), Ready) && q.Marked(count).Contents() == q.Contents() + w.wrote[..count]
  {
    MarkedContents(q, w.first, w.length, count);
    SlicePrefix(q.data, w.first, |w.wrote|, count);
  }

  lemma ReturnStep(t: Tables, s: State, step: Step)
    requires Inv(t, s) && Enabled(s, step) && step.WriterReturns?
    ensures Inv(t, Next(t, s, step))
  {
    var s' := Next(t, s, step);
    var i, w := step.i, s.writers[step.i];
    assert QueueOk(s, i);
    assert WriterOk(s.queues[i], Ready);
    SamePolls(s, s');
    if step.count > 0 { ReturnedQueue(s.queues[i], w, step.count); }
    hide TurnsOk, RepliesOk, Taken, WriterOk;
    forall k | 0 <= k < |s'.queues| ensures QueueOk(s', k) {
      assert QueueOk(s, k);
      if k == i && step.count > 0 {
        ConcatAssociative(Taken(s.visits, i), s.queues[i].Contents(), w.wrote[..step.count]);
      }
    }
  }

  /** A writer that finds space gets the region behind the events; one that finds none waits. */
  lemma LockAnswers(t: Tables, s: State, i: nat, length: nat)
    requires Inv(t, s) && Enabled(s, WriterLocks(i, length))
    ensures var w := Next(t, s, WriterLocks(i, length)).writers[i];
      && (w.Waiting? <==> s.queues[i].size == CAPACITY)
      && (!w.Waiting? ==> w == Filling((s.queues[i].start + s.queues[i].size) % CAPACITY, length, []))
  {
    assert QueueOk(s, i);
    SlotIsModulo(s.queues[i], s.queues[i].size);
  }

  /** What a device stores goes into the next slot of its region. */
  lemma StoreWrites(t: Tables, s: State, i: nat, e: Event)
    requires Inv(t, s) && Enabled(s, WriterStores(i, e))
    ensures var s', w := Next(t, s, WriterStores(i, e)), s.writers[i];
      && s'.writers[i] == w.(wrote := w.wrote + [e])
      && s'.queues[i] == s.queues[i].(data := s.queues[i].data[w.first + |w.wrote| := e])
      && s' == s.(writers := s'.writers, queues := s'.queues)
  {
  }

  /** When a device returns, exactly the events it reports join its queue, behind those that are there,
      and no other queue changes. */
  lemma ReturnMarks(t: Tables, s: State, i: nat, count: int)
    requires Inv(t, s) && Enabled(s, WriterReturns(i, count))
    ensures var s' := Next(t, s, WriterReturns(i, count));
      && |s'.queues| == |s.queues| && s'.writers[i] == Ready && s'.queues[i].Valid() && s.queues[i].Valid()
      && s'.queues[i].Contents() == s.queues[i].Contents() + s.writers[i].wrote[..if count > 0 then count else 0]
      && s'.marked[i] == s.marked[i] + s.writers[i].wrote[..if count > 0 then count else 0]
      && forall k :: 0 <= k < |s.queues| && k != i ==> s'.queues[k] == s.queues[k]
  {
    var w := s.writers[i];
    assert QueueOk(s, i);
    if count > 0 {
      MarkedContents(s.queues[i], w.first, w.length, count);
      SlicePrefix(s.queues[i].data, w.first, |w.wrote|, count);
    } else {
      ConcatEmpty(s.queues[i].Contents());
      ConcatEmpty(s.marked[i]);
    }
  }

  lemma PollStep(t: Tables, s: State, step: Step)
    requires Inv(t, s) && Enabled(s, step) && (step.Poll? || step.PollResumes?)
    ensures Inv(t, Next(t, s, step))
  {
    var s0 := if step.Poll? then s.(asked := s.asked + [step.maxReads]) else s.(waitingForData := false);
    var maxReads := if step.Poll? then step.maxReads else s.poller.maxReads;
    CoreValid(t, s);
    forall k | 0 <= k < |s0.queues| ensures QueueOk(s0, k) { assert QueueOk(s, k); }
    hide InTurn, QueueAt, AllEvents, Taken;
    ScannedReplies(t, s0, maxReads);
    ScannedInv(t, s0, maxReads);
  }

  lemma InvStep(t: Tables, s: State, step: Step)
    requires Inv(t, s) && Enabled(s, step)
    ensures Inv(t, Next(t, s, step))
  {
    match step
    case WriterLocks(_, _) => LockStep(t, s, step);
    case WriterStores(_, _) => StoreStep(t, s, step);
    case WriterReturns(_, _) => ReturnStep(t, s, step);
    case Poll(_) => PollStep(t, s, step);
    case PollResumes => PollStep(t, s, step);
    case _ =>
      var s' := Next(t, s, step);
      SamePolls(s, s');
      hide TurnsOk, RepliesOk;
      forall k | 0 <= k < |s'.queues| ensures QueueOk(s', k) { assert QueueOk(s, k); }
  }

  // ----- whole runs

  ghost predicate Legal(t: Tables, s: State, steps: seq<Step>)
    requires Inv(t, s)
    decreases |steps|
  {
    steps == [] || (Enabled(s, steps[0]) && (InvStep(t, s, steps[0]); Legal(t, Next(t, s, steps[0]), steps[1..])))
  }

  ghost function After(t: Tables, s: State, steps: seq<Step>): (s': State)
    requires Inv(t, s) && Legal(t, s, steps)
    ensures Inv(t, s')
    decreases |steps|
  {
    if steps == [] then s
    else
      InvStep(t, s, steps[0]);
      After(t, Next(t, s, steps[0]), steps[1..])
  }

  lemma InitialInv(t: Tables, s: State)
    requires Initial(s)
    ensures Inv(t, s)
  {
    forall i | 0 <= i < |s.queues| ensures QueueOk(s, i) {
      assert s.queues[i].Contents() == [];
    }
  }

  ghost predicate Run(t: Tables, s0: State, steps: seq<Step>) {
    Initial(s0) && (InitialInv(t, s0); Legal(t, s0, steps))
  }

  ghost function End(t: Tables, s0: State, steps: seq<Step>): (s: State)
    requires Run(t, s0, steps)
    ensures Inv(t, s)
  {
    InitialInv(t, s0);
    After(t, s0, steps)
  }

  /** A poller that waits unsignalled has nothing to read, a writer that does has nowhere to write, and
      so there is never one of each. */
  lemma NoStuckThreads(t: Tables, s0: State, steps: seq<Step>)
    requires Run(t, s0, steps)
    ensures var s := End(t, s0, steps);
      && |s.writers| == |s.queues|
      && (s.poller.PollWaiting? ==> forall i :: 0 <= i < |s.queues| ==> s.queues[i].size == 0)
      && (forall i :: 0 <= i < |s.writers| && s.writers[i].Waiting? ==> s.queues[i].size == CAPACITY)
      && !(s.poller.PollWaiting? && exists i :: 0 <= i < |s.writers| && s.writers[i].Waiting?)
  {
    CoreValid(t, End(t, s0, steps));
  }

  /** Over a whole run, however many calls of poll it takes: between a look at a queue and the next one
      at it, every other queue is looked at, and once. */
  lemma RoundRobin(t: Tables, s0: State, steps: seq<Step>, k: nat, i: nat) returns (p: nat)
    requires Run(t, s0, steps) && i < |End(t, s0, steps).queues|
    requires k + |End(t, s0, steps).queues| < |End(t, s0, steps).visits|
    requires i != End(t, s0, steps).visits[k].queue
    ensures var visits, n := End(t, s0, steps).visits, |End(t, s0, steps).queues|;
      && visits[k + n].queue == visits[k].queue
      && (forall q :: k < q < k + n ==> visits[q].queue != visits[k].queue)
      && k < p < k + n && visits[p].queue == i
      && (forall q :: k < q < k + n && q != p ==> visits[q].queue != i)
  {
    var s := End(t, s0, steps);
    p := OncePerRound(s.visits, 0, |s.queues|, k, i);
  }

  /** For every queue the events taken out, followed by those still inside, are the events marked as
      written, and poll returns the ones taken out in the order in which it took them. */
  lemma EventsInOrder(t: Tables, s0: State, steps: seq<Step>, i: nat)
    requires Run(t, s0, steps)
    requires i < |End(t, s0, steps).queues|
    ensures var s := End(t, s0, steps);
      && |s.marked| == |s.queues| && s.queues[i].Valid()
      && s.marked[i] == Taken(s.visits, i) + s.queues[i].Contents()
      && s.returned == Delivered(t, s.visits)
  {
    assert QueueOk(End(t, s0, steps), i);
  }

  /** Every call of poll that has returned has returned events, as many as asked for at most, and these
      calls together have returned what was delivered; any other call waits. */
  lemma PollAnswers(t: Tables, s0: State, steps: seq<Step>)
    requires Run(t, s0, steps)
    ensures var s := End(t, s0, steps);
      && |s.asked| == Answerable(s)
      && (forall k :: 0 <= k < |s.replies| ==>
           s.replies[k].maxReads == s.asked[k] && 1 <= |s.replies[k].events| <= s.asked[k])
      && AllEvents(s.replies) == Delivered(t, s.visits)
  {
    hide Run, End;
  }

  /** While a device fills its region without the mutex, no slot of the region can be read. */
  lemma UnlockedWriterSafe(t: Tables, s0: State, steps: seq<Step>, i: nat, slot: nat)
    requires Run(t, s0, steps)
    requires i < |End(t, s0, steps).writers| && End(t, s0, steps).writers[i].Filling?
    requires var w := End(t, s0, steps).writers[i]; w.first <= slot < w.first + w.length
    ensures var s := End(t, s0, steps);
      i < |s.queues| && s.queues[i].Valid() && slot < |s.queues[i].data| && !s.queues[i].Readable(slot)
  {
    var s := End(t, s0, steps);
    assert QueueOk(s, i);
    HeldUnreadable(s.queues[i], s.writers[i].first, s.writers[i].length, slot);
  }
}
