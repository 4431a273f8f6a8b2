/** The Looper's message queue as a sequence: insertion by time, removal, and what both keep. */
module MessageQueue {
  import opened Options

  const LLONG_MAX := 0x7fff_ffff_ffff_ffff

  /** nsecs_t. */
  type Nanos = t: int | -LLONG_MAX - 1 <= t <= LLONG_MAX

  /** A queued message.  The arrival number, which the program does not store, tells messages apart. */
  datatype Envelope = Envelope(uptime: Nanos, handler: nat, what: int, arrival: nat)

  /** Earlier uptime first, and first come first served. */
  predicate Before(a: Envelope, b: Envelope) {
    a.uptime < b.uptime || (a.uptime == b.uptime && a.arrival < b.arrival)
  }

  ghost predicate Timed(q: seq<Envelope>) {
    forall i, j :: 0 <= i < j < |q| ==> Before(q[i], q[j])
  }

  lemma HeadFirst(q: seq<Envelope>)
    requires Timed(q) && q != []
    ensures forall other :: other in q && other != q[0] ==> Before(q[0], other)
  {
    forall other | other in q && other != q[0] ensures Before(q[0], other) {
      var i :| 0 <= i < |q| && q[i] == other;
    }
  }

  /** The place sendMessageAtTime looks for. */
  function InsertionIndex(q: seq<Envelope>, uptime: Nanos): (i: nat)
    ensures i <= |q|
    ensures forall k :: 0 <= k < i ==> q[k].uptime <= uptime
    ensures i < |q| ==> uptime < q[i].uptime
  {
    if q == [] || uptime < q[0].uptime then 0 else 1 + InsertionIndex(q[1..], uptime)
  }

  function Inserted(q: seq<Envelope>, e: Envelope): seq<Envelope> {
    var i := InsertionIndex(q, e.uptime);
    q[..i] + [e] + q[i..]
  }

  lemma InsertedTimed(q: seq<Envelope>, e: Envelope)
    requires Timed(q) && forall k :: 0 <= k < |q| ==> q[k].arrival < e.arrival
    ensures Timed(Inserted(q, e))
    ensures multiset(Inserted(q, e)) == multiset(q) + multiset{e}
    ensures Inserted(q, e)[0] == e <==> (q == [] || e.uptime < q[0].uptime)
  {
    var i := InsertionIndex(q, e.uptime);
    forall j, k | 0 <= j < k < |q| + 1 ensures Before(Inserted(q, e)[j], Inserted(q, e)[k]) {
      InsertedBetween(q, e, i, j, k);
    }
    hide Timed, InsertionIndex;
    assert q == q[..i] + q[i..];
    if i > 0 { assert q[0].arrival < e.arrival; }
  }

  lemma InsertedBetween(q: seq<Envelope>, e: Envelope, i: nat, j: nat, k: nat)
    requires Timed(q) && forall n :: 0 <= n < |q| ==> q[n].arrival < e.arrival
    requires i == InsertionIndex(q, e.uptime) && j < k < |q| + 1
    ensures Before((q[..i] + [e] + q[i..])[j], (q[..i] + [e] + q[i..])[k])
  {
    hide InsertionIndex;
    if k > i == j {
      assert Before(e, q[i]);
      if k - 1 > i { assert Before(q[i], q[k - 1]); }
    } else if k == i {
      assert q[j].uptime <= e.uptime;
    }
  }

  lemma InsertedArrivals(q: seq<Envelope>, e: Envelope)
    requires forall k :: 0 <= k < |q| ==> q[k].arrival < e.arrival
    ensures forall k :: 0 <= k < |Inserted(q, e)| ==> Inserted(q, e)[k].arrival <= e.arrival
  {
  }

  /** The messages of a handler, or those with one what. */
  predicate Matches(e: Envelope, handler: nat, what: Option<int>) {
    e.handler == handler && (what.Some? ==> e.what == what.value)
  }

  function Kept(q: seq<Envelope>, handler: nat, what: Option<int>): seq<Envelope> {
    if q == [] then []
    else if Matches(q[|q| - 1], handler, what) then Kept(q[..|q| - 1], handler, what)
    else Kept(q[..|q| - 1], handler, what) + [q[|q| - 1]]
  }

  function Matching(q: seq<Envelope>, handler: nat, what: Option<int>): seq<Envelope> {
    if q == [] then []
    else if Matches(q[|q| - 1], handler, what) then Matching(q[..|q| - 1], handler, what) + [q[|q| - 1]]
    else Matching(q[..|q| - 1], handler, what)
  }

  lemma {:induction false} KeptMember(q: seq<Envelope>, handler: nat, what: Option<int>, e: Envelope)
    ensures e in Kept(q, handler, what) <==>
      e in q && (e.handler != handler || (what.Some? && e.what != what.value))
    ensures e in Matching(q, handler, what) <==>
      e in q && e.handler == handler && (what.None? || e.what == what.value)
  {
    if q != [] {
      KeptMember(q[..|q| - 1], handler, what, e);
      assert q == q[..|q| - 1] + [q[|q| - 1]];
    }
  }

  lemma {:induction false} KeptTimed(q: seq<Envelope>, handler: nat, what: Option<int>)
    requires Timed(q)
    ensures Timed(Kept(q, handler, what))
  {
    if q != [] {
      var front, last := q[..|q| - 1], q[|q| - 1];
      KeptTimed(front, handler, what);
      var k := Kept(front, handler, what);
      forall i | 0 <= i < |k| ensures Before(k[i], last) {
        KeptMember(front, handler, what, k[i]);
      }
    }
  }

  lemma {:induction false} KeptMultiset(q: seq<Envelope>, handler: nat, what: Option<int>)
    ensures multiset(q) == multiset(Kept(q, handler, what)) + multiset(Matching(q, handler, what))
  {
    if q != [] {
      KeptMultiset(q[..|q| - 1], handler, what);
      assert q == q[..|q| - 1] + [q[|q| - 1]];
    }
  }

  /** Removal never brings the next deadline forward. */
  lemma KeptHead(q: seq<Envelope>, handler: nat, what: Option<int>)
    requires Timed(q) && Kept(q, handler, what) != []
    ensures q != [] && q[0].uptime <= Kept(q, handler, what)[0].uptime
  {
    var h := Kept(q, handler, what)[0];
    KeptMember(q, handler, what, h);
    assert h in q;
    var i :| 0 <= i < |q| && q[i] == h;
    if i > 0 { assert Before(q[0], q[i]); }
  }
}
