/** msg_q under concurrency: senders, receivers, flushes and the one unblock, as the sections they run
    under the queue's mutex.  A receiver that waits on the condition variable leaves the mutex. */
module MessageQueueProtocol {
  import opened LinkedLists

  type Thread = nat

  /** What became of a message that left the queue. */
  datatype Fate = Received | Flushed

  datatype State = State(
    list: seq<Item>,             // newest first, as in the linked list
    unblocked: bool,
    destroyed: bool,
    waiting: set<Thread>,        // in pthread_cond_wait, not woken
    woken: set<Thread>,          // woken, but not yet back under the mutex
    // what has happened so far
    sent: seq<Item>,             // messages whose sending succeeded, oldest first
    fates: seq<Fate>,            // of the messages that have left the queue, oldest first
    received: seq<Item>,
    calls: seq<Item>             // messages passed to their dealloc functions
  )

  const Start := State([], false, false, {}, {}, [], [], [], [])

  datatype Step =
    | Send(message: Item, memory: bool, woken: set<Thread>)  // the threads pthread_cond_signal wakes
    | Receive(t: Thread)
    | Resume(t: Thread)          // pthread_cond_wait gets the mutex back
    | WakesUnasked(t: Thread)
    | Flush
    | Unblock
    | Destroy

  predicate Enabled(s: State, step: Step) {
    !s.destroyed &&
    match step
    case Send(_, _, woken) => woken <= s.waiting && (s.waiting != {} ==> woken != {})
    case Receive(t) => t !in s.waiting && t !in s.woken
    case Resume(t) => t in s.woken
    case WakesUnasked(t) => t in s.waiting
    case Flush => true
    case Unblock => true
    case Destroy => s.waiting == {} && s.woken == {}
  }

  function Next(s: State, step: Step): State
    requires Enabled(s, step)
  {
    match step
    case Send(message, memory, woken) =>
      if message.data == 0 || s.unblocked then s
      else
        var s' := s.(waiting := s.waiting - woken, woken := s.woken + woken);
        if memory then s'.(list := [message] + s.list, sent := s.sent + [message]) else s'
    case Receive(t) =>
      if s.unblocked then s
      else if s.list == [] then s.(waiting := s.waiting + {t})
      else Taken(s)
    case Resume(t) =>
      if s.list == [] && !s.unblocked then s.(woken := s.woken - {t}, waiting := s.waiting + {t})
      else if s.list == [] then s.(woken := s.woken - {t})
      else Taken(s.(woken := s.woken - {t}))
    case WakesUnasked(t) => s.(waiting := s.waiting - {t}, woken := s.woken + {t})
    case Flush => Emptied(s)
    case Unblock =>
      if s.unblocked then s
      else s.(unblocked := true, waiting := {}, woken := s.woken + s.waiting)
    case Destroy => Emptied(s).(destroyed := true, unblocked := false)
  }

  /** linked_list_remove takes the oldest message. */
  function Taken(s: State): State
    requires s.list != []
  {
    var n := |s.list| - 1;
    s.(list := s.list[..n], received := s.received + [s.list[n]], fates := s.fates + [Received])
  }

  function Emptied(s: State): State {
    s.(list := [], calls := s.calls + Disposed(s.list), fates := s.fates + AllFlushed(|s.list|))
  }

  function AllFlushed(n: nat): (fates: seq<Fate>)
    ensures |fates| == n && forall i :: 0 <= i < n ==> fates[i] == Flushed
  {
    seq(n, _ => Flushed)
  }

  // ----- what the histories mean

  function Reversed(s: seq<Item>): (r: seq<Item>)
    ensures |r| == |s|
    ensures forall i :: 0 <= i < |s| ==> r[i] == s[|s| - 1 - i]
  {
    seq(|s|, i requires 0 <= i < |s| => s[|s| - 1 - i])
  }

  /** The messages with a given fate, oldest first. */
  function Having(messages: seq<Item>, fates: seq<Fate>, fate: Fate): seq<Item>
    requires |messages| == |fates|
  {
    if fates == [] then []
    else
      var n := |fates| - 1;
      Having(messages[..n], fates[..n], fate) + if fates[n] == fate then [messages[n]] else []
  }

  ghost predicate History(s: State) {
    && |s.fates| + |s.list| == |s.sent|
    && s.sent[|s.fates|..] == Reversed(s.list)
    && s.received == Having(s.sent[..|s.fates|], s.fates, Received)
    && multiset(s.calls) == multiset(Disposed(Having(s.sent[..|s.fates|], s.fates, Flushed)))
  }

  ghost predicate Threads(s: State) {
    && s.waiting !! s.woken
    && (s.unblocked || s.destroyed ==> s.waiting == {})
    && (s.waiting == {} || |s.list| <= |s.woken|)
    && (s.destroyed ==> s.list == [])
  }

  ghost predicate Inv(s: State) {
    History(s) && Threads(s)
  }

  lemma HistorySent(s: State, message: Item)
    requires History(s)
    ensures History(s.(list := [message] + s.list, sent := s.sent + [message]))
  {
    SentBehind(s.sent, |s.fates|, message, s.list);
    hide Having, Disposed, Reversed;
  }

  lemma SentBehind(sent: seq<Item>, n: nat, message: Item, list: seq<Item>)
    requires n <= |sent|
    ensures (sent + [message])[..n] == sent[..n] && (sent + [message])[n..] == sent[n..] + [message]
    ensures Reversed([message] + list) == Reversed(list) + [message]
  {
  }

  lemma HavingNext(a: seq<Item>, f: seq<Fate>, m: Item, last: Fate, fate: Fate)
    requires |a| == |f|
    ensures Having(a + [m], f + [last], fate) == if last == fate then Having(a, f, fate) + [m] else Having(a, f, fate)
  {
    assert (a + [m])[..|a|] == a && (f + [last])[..|f|] == f;
  }

  lemma OldestTaken(s: State)
    requires History(s) && s.list != []
    ensures var k, n := |s.fates|, |s.list| - 1;
      && k < |s.sent| && s.sent[k] == s.list[n]
      && s.sent[..k + 1] == s.sent[..k] + [s.list[n]]
      && s.sent[k + 1..] == Reversed(s.list[..n])
  {
    hide Having, Disposed;
    var k, n := |s.fates|, |s.list| - 1;
    assert s.sent[k] == s.sent[k..][0];
    assert s.sent[k + 1..] == s.sent[k..][1..];
    assert Reversed(s.list[..n]) == Reversed(s.list)[1..];
  }

  lemma HistoryTaken(s: State)
    requires History(s) && s.list != []
    ensures History(Taken(s))
  {
    hide Having, Disposed, Reversed;
    var k, n := |s.fates|, |s.list| - 1;
    OldestTaken(s);
    HavingNext(s.sent[..k], s.fates, s.list[n], Received, Received);
    HavingNext(s.sent[..k], s.fates, s.list[n], Received, Flushed);
  }

  lemma {:induction false} DisposedConcat(a: seq<Item>, b: seq<Item>)
    ensures Disposed(a + b) == Disposed(a) + Disposed(b)
  {
    if b == [] {
      assert a + b == a;
    } else {
      DisposedConcat(a, b[..|b| - 1]);
      assert (a + b)[..|a + b| - 1] == a + b[..|b| - 1];
    }
  }

  lemma SwapConcat<T>(a: seq<T>, b: seq<T>, c: seq<T>)
    requires multiset(a) == multiset(b)
    ensures multiset(c + a) == multiset(b + c)
  {
  }

  lemma LastFirst(a: seq<Item>)
    requires a != []
    ensures var n := |a| - 1; Reversed(a) == [a[n]] + Reversed(a[..n]) && a == a[..n] + [a[n]]
  {
  }

  lemma {:induction false} DisposedReversed(a: seq<Item>)
    ensures multiset(Disposed(Reversed(a))) == multiset(Disposed(a))
  {
    if a != [] {
      var n := |a| - 1;
      LastFirst(a);
      hide Disposed, Reversed;
      DisposedReversed(a[..n]);
      DisposedConcat([a[n]], Reversed(a[..n]));
      DisposedConcat(a[..n], [a[n]]);
      SwapConcat(Disposed(Reversed(a[..n])), Disposed(a[..n]), Disposed([a[n]]));
    }
  }

  lemma {:induction false} HavingConcat(a: seq<Item>, f: seq<Fate>, b: seq<Item>, g: seq<Fate>, fate: Fate)
    requires |a| == |f| && |b| == |g|
    ensures Having(a + b, f + g, fate) == Having(a, f, fate) + Having(b, g, fate)
  {
    if b == [] {
      assert a + b == a && f + g == f;
    } else {
      var n := |b| - 1;
      HavingConcat(a, f, b[..n], g[..n], fate);
      assert (a + b)[..|a + b| - 1] == a + b[..n] && (f + g)[..|f + g| - 1] == f + g[..n];
    }
  }

  lemma {:induction false} HavingFlushed(a: seq<Item>, f: seq<Fate>)
    requires |a| == |f| && forall i :: 0 <= i < |f| ==> f[i] == Flushed
    ensures Having(a, f, Flushed) == a && Having(a, f, Received) == []
  {
    if a != [] {
      var n := |a| - 1;
      HavingFlushed(a[..n], f[..n]);
      assert a == a[..n] + [a[n]];
    }
  }

  /** What a flush adds to the messages of either fate. */
  lemma HavingEmptied(sent: seq<Item>, fates: seq<Fate>, n: nat)
    requires |fates| + n == |sent|
    ensures Having(sent, fates + AllFlushed(n), Received) == Having(sent[..|fates|], fates, Received)
    ensures Having(sent, fates + AllFlushed(n), Flushed) == Having(sent[..|fates|], fates, Flushed) + sent[|fates|..]
  {
    var gone, young := sent[..|fates|], sent[|fates|..];
    assert sent == gone + young;
    HavingFlushed(young, AllFlushed(n));
    hide Having;
    HavingConcat(gone, fates, young, AllFlushed(n), Received);
    HavingConcat(gone, fates, young, AllFlushed(n), Flushed);
  }

  lemma HistoryEmptied(s: State)
    requires History(s)
    ensures History(Emptied(s))
  {
    var young := s.sent[|s.fates|..];
    assert s.sent[..|s.sent|] == s.sent;
    assert s.sent[|s.sent|..] == Reversed([]);
    hide Having, Disposed, Reversed, AllFlushed;
    HavingEmptied(s.sent, s.fates, |s.list|);
    DisposedConcat(Having(s.sent[..|s.fates|], s.fates, Flushed), young);
    DisposedReversed(s.list);
    var s' := Emptied(s);
    assert |s'.fates| == |s.sent| && s'.sent == s.sent && s'.list == [] && s'.received == s.received;
    assert s'.received == Having(s'.sent[..|s'.fates|], s'.fates, Received);
    assert multiset(s'.calls) == multiset(s.calls) + multiset(Disposed(s.list));
  }

  lemma HistoryStep(s: State, step: Step)
    requires Inv(s) && Enabled(s, step)
    ensures History(Next(s, step))
  {
    var s' := Next(s, step);
    if step.Send? && step.message.data != 0 && !s.unblocked && step.memory {
      HistorySent(s, step.message);
    } else if (step.Receive? || step.Resume?) && s.list != [] {
      HistoryTaken(s);
      hide Having, Disposed, Reversed;
    } else if step.Flush? || step.Destroy? {
      HistoryEmptied(s);
      hide Having, Disposed, Reversed;
    } else {
      hide Having, Disposed, Reversed;
    }
  }

  lemma ThreadsStep(s: State, step: Step)
    requires Threads(s) && Enabled(s, step)
    ensures Threads(Next(s, step))
  {
    hide Disposed;
  }

  function Occurrences(a: seq<Item>): multiset<Item> {
    multiset(a)
  }

  lemma OccurrencesConcat(a: seq<Item>, b: seq<Item>)
    ensures Occurrences(a + b) == Occurrences(a) + Occurrences(b)
  {
  }

  lemma OccurrencesParts(a: seq<Item>, n: nat)
    requires n <= |a|
    ensures Occurrences(a) == Occurrences(a[..n]) + Occurrences(a[n..])
  {
    assert a == a[..n] + a[n..];
  }

  lemma OccurrencesLast(a: seq<Item>)
    requires a != []
    ensures Occurrences(a) == Occurrences(a[..|a| - 1]) + multiset{a[|a| - 1]}
  {
    assert a == a[..|a| - 1] + [a[|a| - 1]];
  }

  /** What the last message that left adds to those with a given fate. */
  lemma HavingLast(a: seq<Item>, f: seq<Fate>, fate: Fate)
    requires |a| == |f| > 0
    ensures var n := |a| - 1;
      Occurrences(Having(a, f, fate)) ==
        Occurrences(Having(a[..n], f[..n], fate)) + if f[n] == fate then multiset{a[n]} else multiset{}
  {
    var n := |a| - 1;
    OccurrencesConcat(Having(a[..n], f[..n], fate), if f[n] == fate then [a[n]] else []);
  }

  /** Every message that left was received or flushed, and only one of these. */
  lemma {:induction false} HavingSplit(a: seq<Item>, f: seq<Fate>)
    requires |a| == |f|
    ensures Occurrences(a) == Occurrences(Having(a, f, Received)) + Occurrences(Having(a, f, Flushed))
  {
    if a != [] {
      var n := |a| - 1;
      hide Having, Occurrences;
      HavingSplit(a[..n], f[..n]);
      HavingLast(a, f, Received);
      HavingLast(a, f, Flushed);
      OccurrencesLast(a);
    }
  }

  // ----- whole runs

  ghost predicate Legal(s: State, steps: seq<Step>)
    decreases |steps|
  {
    steps == [] || (Enabled(s, steps[0]) && Legal(Next(s, steps[0]), steps[1..]))
  }

  ghost function After(s: State, steps: seq<Step>): State
    requires Legal(s, steps)
    decreases |steps|
  {
    if steps == [] then s else After(Next(s, steps[0]), steps[1..])
  }

  lemma {:induction false} InvAfter(s: State, steps: seq<Step>)
    requires Inv(s) && Legal(s, steps)
    ensures Inv(After(s, steps))
    decreases |steps|
  {
    hide History, Threads, Next, Enabled;
    if steps != [] {
      HistoryStep(s, steps[0]);
      ThreadsStep(s, steps[0]);
      InvAfter(Next(s, steps[0]), steps[1..]);
    }
  }

  /** Every message whose sending succeeded has been received, has been flushed or is still queued, and
      is so once.  Messages leave in the order in which they were sent, the received ones are received
      in that order, and of the flushed ones exactly those with a dealloc function were given to it. */
  lemma MessagesInOrder(steps: seq<Step>)
    requires Legal(Start, steps)
    ensures var s := After(Start, steps);
      && |s.sent| == |s.fates| + |s.list|
      && s.sent[|s.fates|..] == Reversed(s.list)
      && s.received == Having(s.sent[..|s.fates|], s.fates, Received)
      && multiset(s.calls) == multiset(Disposed(Having(s.sent[..|s.fates|], s.fates, Flushed)))
  {
    InvAfter(Start, steps);
  }

  /** Counted: what was sent was received, was flushed or is still queued. */
  lemma MessagesConserved(steps: seq<Step>)
    requires Legal(Start, steps)
    ensures var s := After(Start, steps);
      && |s.fates| <= |s.sent|
      && Occurrences(s.sent) == Occurrences(s.received) + Occurrences(s.list)
           + Occurrences(Having(s.sent[..|s.fates|], s.fates, Flushed))
  {
    InvAfter(Start, steps);
    var s := After(Start, steps);
    hide Legal, After, Having, Disposed, Occurrences;
    HavingSplit(s.sent[..|s.fates|], s.fates);
    ReversedPermutes(s.list);
    OccurrencesParts(s.sent, |s.fates|);
  }

  lemma {:induction false} ReversedPermutes(a: seq<Item>)
    ensures Occurrences(Reversed(a)) == Occurrences(a)
  {
    if a != [] {
      var n := |a| - 1;
      LastFirst(a);
      hide Reversed, Occurrences;
      ReversedPermutes(a[..n]);
      OccurrencesConcat([a[n]], Reversed(a[..n]));
      OccurrencesConcat(a[..n], [a[n]]);
    } else {
      assert Reversed(a) == a;
    }
  }

  /** A destroyed queue holds nothing: its messages have been flushed. */
  lemma DestroyedIsEmpty(steps: seq<Step>)
    requires Legal(Start, steps) && After(Start, steps).destroyed
    ensures var s := After(Start, steps); s.list == [] && |s.fates| == |s.sent|
  {
    InvAfter(Start, steps);
  }

  /** While a receiver sleeps, there is for every queued message another one already woken; nobody
      sleeps once the queue is unblocked. */
  lemma NoReceiverForgotten(steps: seq<Step>)
    requires Legal(Start, steps)
    ensures var s := After(Start, steps);
      && (s.waiting != {} ==> |s.list| <= |s.woken| && !s.unblocked)
      && (s.waiting != {} && s.woken == {} ==> s.list == [])
  {
    InvAfter(Start, steps);
  }

  /** An unblocked queue takes no more messages and puts nobody to sleep. */
  lemma {:induction false} UnblockedStays(s: State, steps: seq<Step>)
    requires s.unblocked && s.waiting == {} && Legal(s, steps)
    ensures After(s, steps).sent == s.sent && After(s, steps).waiting == {}
    ensures After(s, steps).unblocked || After(s, steps).destroyed
    decreases |steps|
  {
    if steps != [] {
      var n := Next(s, steps[0]);
      if n.destroyed {
        assert steps[1..] == [];
      } else {
        UnblockedStays(n, steps[1..]);
      }
    }
  }
}
