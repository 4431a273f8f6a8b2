/** SensorEventQueue: a ring buffer that one thread fills outside the lock. */
module SensorEventQueues {
  import opened Options

  /** The fields of a queue.  The readable events start at index start and wrap around. */
  datatype Ring<E> = Ring(data: seq<E>, start: nat, size: nat) {

    predicate Valid() {
      size <= |data| && (start < |data| || start == |data| == 0)
    }

    function Slot(k: nat): (i: nat)
      requires Valid() && |data| > 0 && k <= |data|
      ensures i < |data|
    {
      if start + k < |data| then start + k else start + k - |data|
    }

    function Contents(): (c: seq<E>)
      requires Valid()
      ensures |c| == size
    {
      seq(size, k requires 0 <= k < size => data[Slot(k)])
    }

    predicate Readable(i: nat)
      requires Valid()
    {
      exists k :: 0 <= k < size && Slot(k) == i
    }

    /** Slots [first, first + length) are the next to become readable, and lie within the array. */
    predicate Held(first: nat, length: nat) {
      && Valid() && length > 0
      && size + length <= |data| && first + length <= |data|
      && first == Slot(size)
    }

    /** A writer stores an event into a slot. */
    function Stored(i: nat, e: E): Ring<E>
      requires i < |data|
    {
      this.(data := data[i := e])
    }

    function Dequeued(): Ring<E>
      requires Valid() && size > 0
    {
      this.(size := size - 1, start := Slot(1))
    }

    function Marked(count: nat): Ring<E> {
      this.(size := size + count)
    }
  }

  /** The modulo arithmetic of the program, for the indices it is used on. */
  lemma SlotIsModulo<E>(r: Ring<E>, k: nat)
    requires r.Valid() && |r.data| > 0 && k <= |r.data|
    ensures (r.start + k) % |r.data| == r.Slot(k)
  {
    if r.start + k >= |r.data| { ModuloOnce(r.start + k, |r.data|); }
  }

  lemma ModuloOnce(x: nat, n: nat)
    requires 0 < n <= x < 2 * n
    ensures x % n == x - n
  {
    assert x == n + (x - n);
    assert (n + (x - n)) / n == 1;
  }

  // ----- the unlocked writer

  /** Held slots are not readable: the writer and the readers never touch the same slot. */
  lemma HeldUnreadable<E>(r: Ring<E>, first: nat, length: nat, i: nat)
    requires r.Held(first, length) && first <= i < first + length
    ensures !r.Readable(i)
  {
    assert forall k :: 0 <= k < r.size ==> r.Slot(k) != i;
  }

  /** Any number of dequeues leave the writer's region alone. */
  lemma HeldAfterDequeue<E>(r: Ring<E>, first: nat, length: nat)
    requires r.Held(first, length) && r.size > 0
    ensures r.Dequeued().Held(first, length)
    ensures r.Contents() == [r.data[r.start]] + r.Dequeued().Contents()
  {
    DequeuedContents(r);
  }

  lemma DequeuedContents<E>(r: Ring<E>)
    requires r.Valid() && r.size > 0
    ensures r.Dequeued().Valid()
    ensures r.Contents() == [r.data[r.start]] + r.Dequeued().Contents()
  {
    forall k | 0 <= k < r.size - 1 ensures r.Contents()[k + 1] == r.Dequeued().Contents()[k] {
      assert r.Slot(k + 1) == r.Dequeued().Slot(k);
    }
  }

  /** Writing into the region changes nothing that can be read. */
  lemma StoredUnread<E>(r: Ring<E>, first: nat, length: nat, i: nat, e: E)
    requires r.Held(first, length) && first <= i < first + length
    ensures r.Stored(i, e).Held(first, length)
    ensures r.Stored(i, e).Contents() == r.Contents()
  {
    forall k | 0 <= k < r.size ensures r.Stored(i, e).Contents()[k] == r.Contents()[k] {
      assert r.Slot(k) != i;
    }
  }

  /** What becomes readable is what was written, behind what was readable before. */
  lemma MarkedContents<E>(r: Ring<E>, first: nat, length: nat, count: nat)
    requires r.Held(first, length) && count <= length
    ensures r.Marked(count).Valid()
    ensures r.Marked(count).Contents() == r.Contents() + r.data[first..first + count]
  {
    var m := r.Marked(count);
    forall k | 0 <= k < r.size + count
      ensures m.Contents()[k] == (r.Contents() + r.data[first..first + count])[k]
    {
      if k >= r.size { assert r.Slot(k) == first + (k - r.size); }
    }
  }

  class SensorEventQueue<E(0)> {
    const mCapacity: nat
    const mData: array<E>
    var mStart: nat
    var mSize: nat

    ghost function View(): Ring<E>
      reads this, mData
    {
      Ring(mData[..], mStart, mSize)
    }

    ghost predicate Valid()
      reads this, mData
    {
      mData.Length == mCapacity && View().Valid()
    }

    constructor (capacity: nat)
      ensures Valid() && mCapacity == capacity && fresh(mData)
      ensures View().Contents() == []
    {
      mCapacity := capacity;
      mStart, mSize := 0, 0;
      mData := new E[capacity];
    }

    /** getWritableRegion: the slots from first on, where None is the null pointer.  There is a region
        if there is room, as long as the request, the end of the array and the readable slots allow. */
    method GetWritableRegion(requestedLength: int) returns (first: Option<nat>, length: nat)
      requires Valid()
      ensures first.None? <==> mSize == mCapacity || requestedLength <= 0
      ensures first.None? ==> length == 0
      ensures first.Some? ==>
        && View().Held(first.value, length) && length <= requestedLength
        && (length == requestedLength || first.value + length == mCapacity || View().Readable(first.value + length))
    {
      if mSize == mCapacity || requestedLength <= 0 {
        return None, 0;
      }
      SlotIsModulo(View(), mSize);
      var firstWritable := (mStart + mSize) % mCapacity;
      var lastWritable := firstWritable + requestedLength - 1;
      if lastWritable > mCapacity - 1 {
        lastWritable := mCapacity - 1;
      }
      if firstWritable < mStart && lastWritable >= mStart {
        lastWritable := mStart - 1;
        assert View().Slot(0) == mStart;
      }
      return Some(firstWritable), lastWritable - firstWritable + 1;
    }

    /** markAsWritten, of events that fit. */
    method MarkAsWritten(count: nat)
      requires Valid() && mSize + count <= mCapacity
      modifies this`mSize
      ensures Valid() && View() == old(View()).Marked(count)
    {
      mSize := mSize + count;
    }

    method GetSize() returns (size: nat)
      requires Valid()
      ensures size == |View().Contents()|
    {
      size := mSize;
    }

    method Peek() returns (event: Option<E>)
      requires Valid()
      ensures event == if View().Contents() == [] then None else Some(View().Contents()[0])
    {
      if mSize == 0 {
        return None;
      }
      event := Some(mData[mStart]);
    }

    /** dequeue; the result says whether it signals that there is space. */
    method Dequeue() returns (signal: bool)
      requires Valid()
      modifies this`mStart, this`mSize
      ensures Valid()
      ensures View() == if old(mSize) == 0 then old(View()) else old(View()).Dequeued()
      ensures signal <==> old(mSize) == mCapacity > 0
    {
      if mSize == 0 {
        return false;
      }
      signal := mSize == mCapacity;
      SlotIsModulo(View(), 1);
      mSize := mSize - 1;
      mStart := (mStart + 1) % mCapacity;
    }
  }
}
