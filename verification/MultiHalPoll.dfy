/** The multi-HAL's poll: a round-robin scan of the event queues. */
module MultiHalPoll {
  import opened Options
  import opened Sequences
  import opened SensorEventQueues
  import opened MultiHalHandles

  /** An event; a meta-data event carries the handle of the sensor it is about in metaSensor. */
  datatype Event = Event(isMetaData: bool, sensor: int, metaSensor: int, payload: int)

  type Queue = Ring<Event>

  /** copy_event_remap_handle. */
  function Remapped(t: Tables, e: Event, queue: nat): Event {
    if e.isMetaData then e.(metaSensor := GlobalHandle(t, queue, e.metaSensor))
    else e.(sensor := GlobalHandle(t, queue, e.sensor))
  }

  /** What poll looks at to tell bad handles. */
  predicate Dropped(e: Event) {
    e.sensor == -1
  }

  predicate AllValid(queues: seq<Queue>) {
    forall i :: 0 <= i < |queues| ==> queues[i].Valid()
  }

  function Total(queues: seq<Queue>): nat {
    if queues == [] then 0 else queues[0].size + Total(queues[1..])
  }

  lemma {:induction false} TotalUpdate(queues: seq<Queue>, i: nat, q: Queue)
    requires i < |queues|
    ensures Total(queues[i := q]) == Total(queues) - queues[i].size + q.size
  {
    if i == 0 {
      assert queues[0 := q][1..] == queues[1..];
    } else {
      TotalUpdate(queues[1..], i - 1, q);
      assert queues[i := q][1..] == queues[1..][i - 1 := q];
    }
  }

  /** nextReadIndex after d turns, d at most once around. */
  function Ahead(next: nat, d: nat, n: nat): (i: nat)
    requires next < n && d <= n
    ensures i < n
  {
    if next + d < n then next + d else next + d - n
  }

  /** A look at a queue, the event taken out of it, and whether taking it signalled a writer. */
  datatype Visit = Visit(queue: nat, event: Option<Event>, signal: bool)

  datatype ScanResult = ScanResult(queues: seq<Queue>, next: nat, output: seq<Event>, visits: seq<Visit>)

  datatype Turn = Turn(queues: seq<Queue>, empties: nat, output: seq<Event>, visit: Visit)

  /** One turn of poll's inner loop, at queue next. */
  function TakeTurn(t: Tables, queues: seq<Queue>, next: nat, empties: nat, output: seq<Event>): Turn
    requires AllValid(queues) && next < |queues|
  {
    var q := queues[next];
    if q.size == 0 then Turn(queues, empties + 1, output, Visit(next, None, false))
    else
      var e := Remapped(t, q.data[q.start], next);
      var visit := Visit(next, Some(q.data[q.start]), q.size == |q.data|);
      Turn(queues[next := q.Dequeued()], 0, if Dropped(e) then output else output + [e], visit)
  }

  lemma TurnShrinks(t: Tables, queues: seq<Queue>, next: nat, empties: nat, output: seq<Event>)
    requires AllValid(queues) && next < |queues|
    ensures var n := TakeTurn(t, queues, next, empties, output);
      && |n.queues| == |queues| && AllValid(n.queues) && |n.output| <= |output| + 1
      && (Total(n.queues) < Total(queues) || (Total(n.queues) == Total(queues) && n.empties == empties + 1))
  {
    if queues[next].size > 0 { TotalUpdate(queues, next, queues[next].Dequeued()); }
  }

  /** poll's inner loop. */
  function Scan(t: Tables, queues: seq<Queue>, next: nat, empties: nat, output: seq<Event>, maxReads: int): ScanResult
    requires AllValid(queues) && (next < |queues| || queues == [])
    decreases Total(queues), |queues| - empties
  {
    if empties >= |queues| || |output| >= maxReads then ScanResult(queues, next, output, [])
    else
      TurnShrinks(t, queues, next, empties, output);
      var n := TakeTurn(t, queues, next, empties, output);
      var r := Scan(t, n.queues, Ahead(next, 1, |queues|), n.empties, n.output, maxReads);
      r.(visits := [n.visit] + r.visits)
  }

  /** The events taken out of queue i, in order. */
  function Taken(visits: seq<Visit>, i: nat): seq<Event> {
    if visits == [] then []
    else (if visits[0].queue == i && visits[0].event.Some? then [visits[0].event.value] else []) + Taken(visits[1..], i)
  }

  /** The events passed upstream. */
  function Delivered(t: Tables, visits: seq<Visit>): seq<Event> {
    if visits == [] then []
    else
      var v := visits[0];
      (if v.event.Some? && !Dropped(Remapped(t, v.event.value, v.queue)) then [Remapped(t, v.event.value, v.queue)] else [])
      + Delivered(t, visits[1..])
  }

  lemma TurnConserves(t: Tables, queues: seq<Queue>, next: nat, empties: nat, output: seq<Event>, i: nat)
    requires AllValid(queues) && next < |queues| && i < |queues|
    ensures var n := TakeTurn(t, queues, next, empties, output);
      && i < |n.queues| && n.queues[i].Valid()
      && queues[i].Contents() == Taken([n.visit], i) + n.queues[i].Contents()
  {
    if i == next && queues[i].size > 0 { DequeuedContents(queues[i]); }
  }

  lemma TurnDelivers(t: Tables, queues: seq<Queue>, next: nat, empties: nat, output: seq<Event>)
    requires AllValid(queues) && next < |queues|
    ensures var n := TakeTurn(t, queues, next, empties, output);
      n.output == output + Delivered(t, [n.visit])
  {
  }

  lemma FirstVisit(t: Tables, v: Visit, visits: seq<Visit>, i: nat)
    ensures Taken([v] + visits, i) == Taken([v], i) + Taken(visits, i)
    ensures Delivered(t, [v] + visits) == Delivered(t, [v]) + Delivered(t, visits)
  {
    assert ([v] + visits)[1..] == visits;
  }

  /** Nothing is lost or invented, and every queue keeps its order: what a queue held is what was
      taken from it followed by what it holds. */
  lemma {:induction false} ScanConserves(t: Tables, queues: seq<Queue>, next: nat, empties: nat, output: seq<Event>, maxReads: int, i: nat)
    requires AllValid(queues) && (next < |queues| || queues == []) && i < |queues|
    ensures var r := Scan(t, queues, next, empties, output, maxReads);
      && |r.queues| == |queues| && AllValid(r.queues)
      && queues[i].Contents() == Taken(r.visits, i) + r.queues[i].Contents()
    decreases Total(queues), |queues| - empties
  {
    if empties >= |queues| || |output| >= maxReads {
      assert queues[i].Contents() == [] + queues[i].Contents();
    } else {
      TurnShrinks(t, queues, next, empties, output);
      TurnConserves(t, queues, next, empties, output, i);
      var n := TakeTurn(t, queues, next, empties, output);
      hide TakeTurn, AllValid, Taken, Delivered, Total;
      ScanConserves(t, n.queues, Ahead(next, 1, |queues|), n.empties, n.output, maxReads, i);
      FirstVisit(t, n.visit, Scan(t, n.queues, Ahead(next, 1, |queues|), n.empties, n.output, maxReads).visits, i);
    }
  }

  /** The caller gets the events taken out, in that order, with global handles, without the dropped ones. */
  lemma {:induction false} ScanDelivers(t: Tables, queues: seq<Queue>, next: nat, empties: nat, output: seq<Event>, maxReads: int)
    requires AllValid(queues) && (next < |queues| || queues == [])
    ensures var r := Scan(t, queues, next, empties, output, maxReads);
      && r.output == output + Delivered(t, r.visits)
      && (|output| <= maxReads ==> |r.output| <= maxReads)
    decreases Total(queues), |queues| - empties
  {
    if empties >= |queues| || |output| >= maxReads {
      assert output == output + [];
    } else {
      TurnShrinks(t, queues, next, empties, output);
      TurnDelivers(t, queues, next, empties, output);
      var n := TakeTurn(t, queues, next, empties, output);
      hide TakeTurn, AllValid, Delivered, Taken, Total;
      ScanDelivers(t, n.queues, Ahead(next, 1, |queues|), n.empties, n.output, maxReads);
      var rest := Scan(t, n.queues, Ahead(next, 1, |queues|), n.empties, n.output, maxReads).visits;
      FirstVisit(t, n.visit, rest, 0);
      ConcatAssociative(output, Delivered(t, [n.visit]), Delivered(t, rest));
    }
  }

  // ----- when the scan stops

  /** The last `empties` queues looked at are empty. */
  ghost predicate EmptyBehind(queues: seq<Queue>, next: nat, empties: nat)
    requires next < |queues|
  {
    forall d :: |queues| - empties <= d < |queues| && d >= 0 ==> queues[Ahead(next, d, |queues|)].size == 0
  }

  lemma TurnKeepsEmptyBehind(t: Tables, queues: seq<Queue>, next: nat, empties: nat, output: seq<Event>)
    requires AllValid(queues) && next < |queues| && EmptyBehind(queues, next, empties)
    ensures var n := TakeTurn(t, queues, next, empties, output);
      |n.queues| == |queues| && EmptyBehind(n.queues, Ahead(next, 1, |queues|), n.empties)
  {
    var n := TakeTurn(t, queues, next, empties, output);
    var turn := Ahead(next, 1, |queues|);
    forall d | |queues| - n.empties <= d < |queues| && d >= 0 ensures n.queues[Ahead(turn, d, |queues|)].size == 0 {
      if d < |queues| - 1 { assert Ahead(turn, d, |queues|) == Ahead(next, d + 1, |queues|); }
    }
  }

  /** The scan leaves room in the caller's buffer only when every queue is empty. */
  lemma {:induction false} ScanExhausts(t: Tables, queues: seq<Queue>, next: nat, empties: nat, output: seq<Event>, maxReads: int)
    requires AllValid(queues) && (next < |queues| || queues == [])
    requires queues != [] ==> EmptyBehind(queues, next, empties)
    ensures var r := Scan(t, queues, next, empties, output, maxReads);
      |r.output| < maxReads ==> forall i :: 0 <= i < |r.queues| ==> r.queues[i].size == 0
    decreases Total(queues), |queues| - empties
  {
    if empties >= |queues| || |output| >= maxReads {
      if |output| < maxReads {
        forall i | 0 <= i < |queues| ensures queues[i].size == 0 {
          var d := if i >= next then i - next else i + |queues| - next;
          assert Ahead(next, d, |queues|) == i;
        }
      }
    } else {
      TurnShrinks(t, queues, next, empties, output);
      TurnKeepsEmptyBehind(t, queues, next, empties, output);
      var n := TakeTurn(t, queues, next, empties, output);
      hide TakeTurn, AllValid, EmptyBehind;
      ScanExhausts(t, n.queues, Ahead(next, 1, |queues|), n.empties, n.output, maxReads);
    }
  }

  // ----- fairness

  lemma AheadIsModulo(next: nat, d: nat, n: nat)
    requires next < n && d <= n
    ensures (next + d) % n == Ahead(next, d, n)
  {
    if next + d >= n { ModuloOnce(next + d, n); }
  }

  /** The queue looked at after k turns. */
  function QueueAt(next: nat, k: nat, n: nat): (i: nat)
    requires next < n
    ensures i < n
    decreases k
  {
    if k == 0 then next else QueueAt(Ahead(next, 1, n), k - 1, n)
  }

  lemma {:induction false} QueueAtAhead(next: nat, k: nat, d: nat, n: nat)
    requires next < n && d <= n
    ensures QueueAt(next, k + d, n) == Ahead(QueueAt(next, k, n), d, n)
    decreases k, d
  {
    if k > 0 {
      QueueAtAhead(Ahead(next, 1, n), k - 1, d, n);
    } else if d > 0 {
      QueueAtFromStart(next, d, n);
    }
  }

  lemma {:induction false} QueueAtFromStart(next: nat, d: nat, n: nat)
    requires next < n && d <= n
    ensures QueueAt(next, d, n) == Ahead(next, d, n)
    decreases d
  {
    if d > 0 { QueueAtFromStart(Ahead(next, 1, n), d - 1, n); }
  }

  /** The scan looks at the queues in turn. */
  lemma {:induction false} ScanInTurn(t: Tables, queues: seq<Queue>, next: nat, empties: nat, output: seq<Event>, maxReads: int)
    requires AllValid(queues) && next < |queues|
    ensures var r := Scan(t, queues, next, empties, output, maxReads);
      && (forall k :: 0 <= k < |r.visits| ==> r.visits[k].queue == QueueAt(next, k, |queues|))
      && r.next == QueueAt(next, |r.visits|, |queues|)
    decreases Total(queues), |queues| - empties
  {
    if empties < |queues| && |output| < maxReads {
      TurnShrinks(t, queues, next, empties, output);
      var n := TakeTurn(t, queues, next, empties, output);
      assert n.visit.queue == next;
      hide TakeTurn, AllValid;
      var turn := Ahead(next, 1, |queues|);
      ScanInTurn(t, n.queues, turn, n.empties, n.output, maxReads);
      var rest := Scan(t, n.queues, turn, n.empties, n.output, maxReads);
      assert Scan(t, queues, next, empties, output, maxReads).visits == [n.visit] + rest.visits;
    }
  }

  /** The visits go round all n queues, from queue `first` on. */
  ghost predicate InTurn(visits: seq<Visit>, first: nat, n: nat)
    requires first < n
  {
    forall k :: 0 <= k < |visits| ==> visits[k].queue == QueueAt(first, k, n)
  }

  lemma {:induction false} QueueAtSum(first: nat, j: nat, k: nat, n: nat)
    requires first < n
    ensures QueueAt(QueueAt(first, j, n), k, n) == QueueAt(first, j + k, n)
    decreases j
  {
    if j > 0 { QueueAtSum(Ahead(first, 1, n), j - 1, k, n); }
  }

  /** Visits that go on where others stopped go round with them. */
  lemma InTurnConcat(visits: seq<Visit>, more: seq<Visit>, first: nat, n: nat)
    requires first < n && InTurn(visits, first, n) && InTurn(more, QueueAt(first, |visits|, n), n)
    ensures InTurn(visits + more, first, n)
  {
    hide QueueAt;
    forall k | 0 <= k < |visits + more| ensures (visits + more)[k].queue == QueueAt(first, k, n) {
      InTurnAt(visits, more, first, n, k);
    }
  }

  lemma InTurnAt(visits: seq<Visit>, more: seq<Visit>, first: nat, n: nat, k: nat)
    requires first < n && InTurn(visits, first, n) && InTurn(more, QueueAt(first, |visits|, n), n)
    requires k < |visits + more|
    ensures (visits + more)[k].queue == QueueAt(first, k, n)
  {
    hide QueueAt;
    if k < |visits| {
      assert (visits + more)[k] == visits[k];
    } else {
      QueueAtSum(first, |visits|, k - |visits|, n);
      assert (visits + more)[k] == more[k - |visits|];
    }
  }

  /** Between a visit to a queue and the next one to it, every other queue is visited, and once. */
  lemma OncePerRound(visits: seq<Visit>, first: nat, n: nat, k: nat, i: nat) returns (p: nat)
    requires first < n && InTurn(visits, first, n) && i < n
    requires k + n < |visits| && i != visits[k].queue
    ensures visits[k + n].queue == visits[k].queue
    ensures forall q :: k < q < k + n ==> visits[q].queue != visits[k].queue
    ensures k < p < k + n && visits[p].queue == i
    ensures forall q :: k < q < k + n && q != p ==> visits[q].queue != i
  {
    var a := QueueAt(first, k, n);
    QueueAtAhead(first, k, n, n);
    p := k + if i >= a then i - a else i + n - a;
    QueueAtAhead(first, k, p - k, n);
    forall q | k < q < k + n ensures QueueAt(first, q, n) != a && (q != p ==> QueueAt(first, q, n) != i) {
      QueueAtAhead(first, k, q - k, n);
    }
  }

  // ----- signals

  /** The visits woke the writer of queue i. */
  predicate Signalled(visits: seq<Visit>, i: nat) {
    exists k :: 0 <= k < |visits| && visits[k].queue == i && visits[k].signal
  }

  lemma SignalledLater(v: Visit, visits: seq<Visit>, i: nat)
    requires (v.queue == i && v.signal) || Signalled(visits, i)
    ensures Signalled([v] + visits, i)
  {
    if v.queue == i && v.signal {
      assert ([v] + visits)[0] == v;
    } else {
      var k :| 0 <= k < |visits| && visits[k].queue == i && visits[k].signal;
      assert ([v] + visits)[k + 1] == visits[k];
    }
  }

  /** dequeue's guard is good enough: a full queue does not lose an event without a signal. */
  lemma {:induction false} FullQueueSignals(t: Tables, queues: seq<Queue>, next: nat, empties: nat, output: seq<Event>, maxReads: int, i: nat)
    requires AllValid(queues) && (next < |queues| || queues == []) && i < |queues|
    requires queues[i].size == |queues[i].data|
    ensures var r := Scan(t, queues, next, empties, output, maxReads);
      |r.queues| == |queues| && (r.queues[i] == queues[i] || Signalled(r.visits, i))
    decreases Total(queues), |queues| - empties
  {
    if empties < |queues| && |output| < maxReads {
      TurnShrinks(t, queues, next, empties, output);
      var n := TakeTurn(t, queues, next, empties, output);
      var turn := Ahead(next, 1, |queues|);
      var rest := Scan(t, n.queues, turn, n.empties, n.output, maxReads);
      assert Scan(t, queues, next, empties, output, maxReads).visits == [n.visit] + rest.visits;
      ScanConserves(t, n.queues, turn, n.empties, n.output, maxReads, i);
      if i == next && queues[i].size > 0 {
        SignalledLater(n.visit, rest.visits, i);
      } else {
        assert n.queues[i] == queues[i];
        hide TakeTurn, AllValid;
        FullQueueSignals(t, n.queues, turn, n.empties, n.output, maxReads, i);
        if Signalled(rest.visits, i) { SignalledLater(n.visit, rest.visits, i); }
      }
    }
  }

  // ----- dropping

  /** The handle an event ends up with is not one of the sensor list. */
  predicate BadHandle(e: Event) {
    (if e.isMetaData then e.metaSensor else e.sensor) == -1
  }

  /** poll drops events so that no bad handle goes upstream.  It looks at the sensor field, which for a
      meta-data event is not the one that was rewritten: for those the test lets bad handles pass. */
  lemma DroppedExactly(all: seq<FullHandle>, e: Event, queue: nat)
    ensures var r := Remapped(TablesOf(all), e, queue);
      && (BadHandle(r) <==> FullHandle(queue, if e.isMetaData then e.metaSensor else e.sensor) !in all)
      && (!e.isMetaData ==> (Dropped(r) <==> BadHandle(r)))
      && (e.isMetaData ==> (Dropped(r) <==> e.sensor == -1))
      && (BadHandle(r) && !Dropped(r) <==>
            e.isMetaData && e.sensor != -1 && FullHandle(queue, e.metaSensor) !in all)
  {
    LocalHandles(all, FullHandle(queue, if e.isMetaData then e.metaSensor else e.sensor));
  }

  /** The handle in r is the global one of the last sensor listed that has the local handle in its
      module, and calls with it reach the device that the queue belongs to. */
  ghost predicate Names(all: seq<FullHandle>, devices: seq<nat>, queue: nat, local: int, global: int) {
    && 1 <= global <= |all| && all[global - 1] == FullHandle(queue, local)
    && (forall i :: global <= i < |all| ==> all[i] != FullHandle(queue, local))
    && (local >= 0 && queue < |devices| ==> Route(TablesOf(all), devices, global) == Some((devices[queue], local)))
  }

  /** A delivered event names the sensor it came from, and is otherwise what the device wrote. */
  lemma RemappedExactly(all: seq<FullHandle>, devices: seq<nat>, e: Event, queue: nat)
    ensures var r := Remapped(TablesOf(all), e, queue);
      && r.isMetaData == e.isMetaData && r.payload == e.payload
      && (!e.isMetaData ==>
           r.metaSensor == e.metaSensor && (r.sensor == -1 || Names(all, devices, queue, e.sensor, r.sensor)))
      && (e.isMetaData ==>
           r.sensor == e.sensor && (r.metaSensor == -1 || Names(all, devices, queue, e.metaSensor, r.metaSensor)))
  {
    var local := if e.isMetaData then e.metaSensor else e.sensor;
    LocalHandles(all, FullHandle(queue, local));
    GlobalHandles(all);
  }

  /** Meta-data events for the list of one sensor: one about an unknown sensor passes, and one about the
      sensor itself is dropped for its other field. */
  lemma BadHandlePasses()
    ensures var t := TablesOf([FullHandle(0, 7)]);
      && (var r := Remapped(t, Event(true, 0, 9, 0), 0); BadHandle(r) && !Dropped(r))
      && (var r := Remapped(t, Event(true, -1, 7, 0), 0); !BadHandle(r) && Dropped(r))
  {
    DroppedExactly([FullHandle(0, 7)], Event(true, 0, 9, 0), 0);
    DroppedExactly([FullHandle(0, 7)], Event(true, -1, 7, 0), 0);
  }

  class PollContext {
    const queues: seq<SensorEventQueue<Event>>
    var nextReadIndex: nat

    ghost predicate Valid()
      reads this, queues, set q | q in queues :: q.mData
    {
      && (forall i :: 0 <= i < |queues| ==> queues[i].Valid())
      && (forall i, j :: 0 <= i < j < |queues| ==> queues[i] != queues[j])
      && (nextReadIndex < |queues| || queues == [])
    }

    ghost function Views(): (views: seq<Queue>)
      requires Valid()
      reads this, queues, set q | q in queues :: q.mData
      ensures AllValid(views) && |views| == |queues|
    {
      seq(|queues|, i requires 0 <= i < |queues| reads this, queues, set q | q in queues :: q.mData => queues[i].View())
    }

    constructor (queues: seq<SensorEventQueue<Event>>)
      requires forall i :: 0 <= i < |queues| ==> queues[i].Valid()
      requires forall i, j :: 0 <= i < j < |queues| ==> queues[i] != queues[j]
      ensures Valid() && this.queues == queues && nextReadIndex == 0
    {
      this.queues := queues;
      nextReadIndex := 0;
    }

    /** A turn's dequeue, seen from all the queues. */
    method DequeueNext(ghost before: seq<Queue>) returns (signal: bool)
      requires Valid() && nextReadIndex < |queues| && before == Views()
      requires queues[nextReadIndex].mSize > 0
      modifies queues[nextReadIndex]
      ensures Valid() && Views() == before[nextReadIndex := before[nextReadIndex].Dequeued()]
      ensures signal <==> before[nextReadIndex].size == |before[nextReadIndex].data|
    {
      var q := queues[nextReadIndex];
      assert before[nextReadIndex] == q.View();
      signal := q.Dequeue();
      forall i | 0 <= i < |queues|
        ensures queues[i].Valid()
        ensures queues[i].View() == if i == nextReadIndex then before[i].Dequeued() else before[i]
      {
        if i != nextReadIndex { assert queues[i] != q; }
      }
    }

    /** A turn's copy of an event to the caller, which counts unless the event is dropped. */
    method PassOn(t: Tables, data: array<Event>, event: Event, eventsRead: nat) returns (eventsRead': nat)
      requires eventsRead < data.Length
      modifies data
      ensures eventsRead' <= data.Length
      ensures var e := Remapped(t, event, nextReadIndex);
        data[..eventsRead'] == if Dropped(e) then old(data[..eventsRead]) else old(data[..eventsRead]) + [e]
    {
      hide Remapped;
      data[eventsRead] := Remapped(t, event, nextReadIndex);
      eventsRead' := eventsRead;
      if data[eventsRead].sensor != -1 {
        eventsRead' := eventsRead + 1;
      }
    }

    /** One turn of the loop. */
    method Look(t: Tables, data: array<Event>, empties: nat, eventsRead: nat)
      returns (empties': nat, eventsRead': nat, ghost visit: Visit)
      requires Valid() && nextReadIndex < |queues| && eventsRead < data.Length
      requires forall q :: q in queues ==> q.mData != data
      modifies this, data, set q | q in queues
      ensures Valid() && eventsRead' <= data.Length
      ensures Turn(Views(), empties', data[..eventsRead'], visit)
        == TakeTurn(t, old(Views()), old(nextReadIndex), empties, old(data[..eventsRead]))
      ensures nextReadIndex == Ahead(old(nextReadIndex), 1, |queues|)
    {
      hide Remapped, Dropped;
      ghost var before := Views();
      assert before[nextReadIndex] == queues[nextReadIndex].View();
      var event := queues[nextReadIndex].Peek();
      var signal := false;
      eventsRead' := eventsRead;
      if event.None? {
        empties' := empties + 1;
      } else {
        empties' := 0;
        eventsRead' := PassOn(t, data, event.value, eventsRead);
        assert Views() == before;
        signal := DequeueNext(before);
      }
      visit := Visit(nextReadIndex, event, signal);
      AheadIsModulo(nextReadIndex, 1, |queues|);
      nextReadIndex := (nextReadIndex + 1) % |queues|;
    }

    /** One scan of poll: what the loop does between waiting for data and waiting again or returning. */
    method ScanQueues(t: Tables, data: array<Event>, maxReads: int) returns (eventsRead: nat)
      requires Valid() && maxReads <= data.Length
      requires forall q :: q in queues ==> q.mData != data
      modifies this, data, set q | q in queues
      ensures Valid() && eventsRead <= data.Length
      ensures var r := Scan(t, old(Views()), old(nextReadIndex), 0, [], maxReads);
        Views() == r.queues && nextReadIndex == r.next && data[..eventsRead] == r.output
    {
      hide Scan, Remapped;
      ghost var views := Views();
      ghost var first := nextReadIndex;
      ghost var result := Scan(t, views, first, 0, [], maxReads);
      ghost var seen: seq<Visit> := [];
      var empties: nat := 0;
      eventsRead := 0;
      assert data[..0] == [];
      while empties < |queues| && eventsRead < maxReads
        invariant Valid() && empties <= |queues| && eventsRead <= data.Length
        invariant forall q :: q in queues ==> q.mData != data
        invariant result == Later(t, Views(), nextReadIndex, empties, data[..eventsRead], maxReads, seen)
        decreases Total(Views()), |queues| - empties
      {
        LaterTurn(t, Views(), nextReadIndex, empties, data[..eventsRead], maxReads, seen);
        TurnShrinks(t, Views(), nextReadIndex, empties, data[..eventsRead]);
        ghost var visit;
        empties, eventsRead, visit := Look(t, data, empties, eventsRead);
        seen := seen + [visit];
      }
      LaterDone(t, Views(), nextReadIndex, empties, data[..eventsRead], maxReads, seen);
    }
  }

  /** A scan of which some visits have been made. */
  ghost function Later(t: Tables, queues: seq<Queue>, next: nat, empties: nat, output: seq<Event>, maxReads: int, seen: seq<Visit>): ScanResult
    requires AllValid(queues) && (next < |queues| || queues == [])
  {
    var r := Scan(t, queues, next, empties, output, maxReads);
    r.(visits := seen + r.visits)
  }

  lemma LaterTurn(t: Tables, queues: seq<Queue>, next: nat, empties: nat, output: seq<Event>, maxReads: int, seen: seq<Visit>)
    requires AllValid(queues) && next < |queues| && empties < |queues| && |output| < maxReads
    ensures var n := TakeTurn(t, queues, next, empties, output);
      && |n.queues| == |queues| && AllValid(n.queues)
      && Later(t, queues, next, empties, output, maxReads, seen)
           == Later(t, n.queues, Ahead(next, 1, |queues|), n.empties, n.output, maxReads, seen + [n.visit])
  {
    TurnShrinks(t, queues, next, empties, output);
    var n := TakeTurn(t, queues, next, empties, output);
    var rest := Scan(t, n.queues, Ahead(next, 1, |queues|), n.empties, n.output, maxReads).visits;
    hide TakeTurn;
    assert (seen + [n.visit]) + rest == seen + ([n.visit] + rest);
  }

  lemma LaterDone(t: Tables, queues: seq<Queue>, next: nat, empties: nat, output: seq<Event>, maxReads: int, seen: seq<Visit>)
    requires AllValid(queues) && (next < |queues| || queues == [])
    requires empties >= |queues| || |output| >= maxReads
    ensures Later(t, queues, next, empties, output, maxReads, seen) == ScanResult(queues, next, output, seen)
  {
    assert seen + [] == seen;
  }
}
