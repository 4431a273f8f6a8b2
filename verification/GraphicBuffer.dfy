/** GraphicBuffer: flattening into words and file descriptors, and back. */
module GraphicBuffers {
  import opened Options
  import opened Sequences

  /** 'GBFR' */
  const MAGIC := 0x47424652

  const SIZEOF_INT: nat := 4

  /** unflatten takes fewer fds than this, and fewer ints than this less 10. */
  const MAX_NUMBER: nat := 4096

  datatype NativeHandle = NativeHandle(fds: seq<int>, ints: seq<int>)

  datatype Fields = Fields(width: int, height: int, stride: int, format: int, usage: int, handle: Option<NativeHandle>)

  const Zero := Fields(0, 0, 0, 0, 0, None)

  datatype Owner = OwnNone | OwnHandle | OwnData

  datatype Status = NoError | NoMemory | BadType | BadValue | Rejected(err: int)

  /** How a handle that is no longer needed was given back: unregistered, closed and deleted, or freed
      by the allocator. */
  datatype Release = Closed(handle: NativeHandle) | Freed(handle: NativeHandle)

  /** A handle, and whose it was: OwnHandle for one that unflatten created, OwnData for one that the
      allocator gave out. */
  datatype Ownership = Ownership(owner: Owner, handle: NativeHandle)

  /** The handles that a release is the right one for. */
  function RightFor(r: Release): Ownership {
    match r
    case Closed(handle) => Ownership(OwnHandle, handle)
    case Freed(handle) => Ownership(OwnData, handle)
  }

  function HandleFds(f: Fields): seq<int> {
    if f.handle.Some? then f.handle.value.fds else []
  }

  function HandleInts(f: Fields): seq<int> {
    if f.handle.Some? then f.handle.value.ints else []
  }

  function Words(f: Fields): (w: seq<int>)
    ensures |w| == 8 + |HandleInts(f)|
  {
    [MAGIC, f.width, f.height, f.stride, f.format, f.usage, |HandleFds(f)|, |HandleInts(f)|] + HandleInts(f)
  }

  /** The counts in a flattened buffer; as size_t, a negative count is far above the limit. */
  predicate CountsAccepted(words: seq<int>)
    requires |words| >= 8
  {
    0 <= words[6] < MAX_NUMBER && 0 <= words[7] < MAX_NUMBER - 10
  }

  /** What a flattened buffer is read as. */
  function Read(words: seq<int>, fds: seq<int>): Fields
    requires |words| >= 8 && CountsAccepted(words)
    requires words[6] <= |fds| && 8 + words[7] <= |words|
  {
    if words[6] == 0 && words[7] == 0 then Zero
    else Fields(words[1], words[2], words[3], words[4], words[5],
                Some(NativeHandle(fds[..words[6]], words[8..8 + words[7]])))
  }

  /** unflatten finds everything it needs. */
  predicate Fits(words: seq<int>, size: nat, count: nat)
    requires size <= |words| * SIZEOF_INT
  {
    && size >= 8 * SIZEOF_INT && words[0] == MAGIC && CountsAccepted(words)
    && size >= (8 + words[7]) * SIZEOF_INT && count >= words[6]
  }

  /** unflatten gives up before it touches the buffer object. */
  predicate Rejects(words: seq<int>, size: nat, count: nat)
    requires size <= |words| * SIZEOF_INT
  {
    !Fits(words, size, count) && (size >= 8 * SIZEOF_INT && words[0] == MAGIC ==> CountsAccepted(words))
  }

  function UnflattenStatus(words: seq<int>, size: nat, count: nat, memory: bool, err: int): Status
    requires size <= |words| * SIZEOF_INT
  {
    if size < 8 * SIZEOF_INT then NoMemory
    else if words[0] != MAGIC then BadType
    else if !CountsAccepted(words) then BadValue
    else if !Fits(words, size, count) then NoMemory
    else if words[6] + words[7] == 0 then NoError
    else if !memory then NoMemory
    else if err != 0 then Rejected(err)
    else NoError
  }

  /** The status, from the words and sizes themselves. */
  lemma StatusExactly(words: seq<int>, size: nat, count: nat, memory: bool, err: int)
    requires size <= |words| * SIZEOF_INT
    ensures var status := UnflattenStatus(words, size, count, memory, err);
      if size < 32 then status == NoMemory
      else if words[0] != 0x47424652 then status == BadType
      else if words[6] < 0 || words[6] >= 4096 || words[7] < 0 || words[7] >= 4086 then status == BadValue
      else if size < 32 + 4 * words[7] || count < words[6] then status == NoMemory
      else if words[6] == 0 && words[7] == 0 then status == NoError
      else if !memory then status == NoMemory
      else status == if err == 0 then NoError else Rejected(err)
    ensures Fits(words, size, count) <==>
      && size >= 32 && words[0] == 0x47424652 && 0 <= words[6] < 4096 && 0 <= words[7] < 4086
      && size >= 32 + 4 * words[7] && count >= words[6]
    ensures Rejects(words, size, count) <==>
      size < 32 || words[0] != 0x47424652
      || (0 <= words[6] < 4096 && 0 <= words[7] < 4086 && (size < 32 + 4 * words[7] || count < words[6]))
  {
  }

  /** Where everything is in a flattened buffer, for the writer and for the reader. */
  lemma Layout(f: Fields, words: seq<int>, fds: seq<int>)
    ensures Words(f)[..6] == [0x47424652, f.width, f.height, f.stride, f.format, f.usage]
    ensures match f.handle
      case None => Words(f)[6..] == [0, 0]
      case Some(h) => Words(f)[6] == |h.fds| && Words(f)[7] == |h.ints| && Words(f)[8..] == h.ints && HandleFds(f) == h.fds
    ensures |words| >= 8 && CountsAccepted(words) && words[6] <= |fds| && 8 + words[7] <= |words| ==>
      var r := Read(words, fds);
      if words[6] == 0 && words[7] == 0 then r == Fields(0, 0, 0, 0, 0, None)
      else
        && r.handle == Some(NativeHandle(fds[..words[6]], words[8..8 + words[7]]))
        && [r.width, r.height, r.stride, r.format, r.usage] == words[1..6]
  {
  }

  /** unflatten's limits. */
  predicate SmallEnough(f: Fields) {
    |HandleFds(f)| < MAX_NUMBER && |HandleInts(f)| < MAX_NUMBER - 10
  }

  /** There is a handle with something in it, or nothing at all. */
  predicate Restorable(f: Fields) {
    f == Zero || (f.handle.Some? && (f.handle.value.fds != [] || f.handle.value.ints != []))
  }

  /** What flatten writes is accepted exactly when the handle is small enough, and is read as the same
      buffer exactly when that is restorable. */
  lemma RoundTrip(f: Fields, moreWords: seq<int>, moreFds: seq<int>)
    ensures var words := Words(f) + moreWords;
      && (CountsAccepted(words) <==> SmallEnough(f))
      && (CountsAccepted(words) ==> (Read(words, HandleFds(f) + moreFds) == f <==> Restorable(f)))
      && (CountsAccepted(words) && f.handle.None? ==> Read(words, HandleFds(f) + moreFds) == Zero)
  {
    var words := Words(f) + moreWords;
    assert words[8..8 + |HandleInts(f)|] == HandleInts(f);
    assert (HandleFds(f) + moreFds)[..|HandleFds(f)|] == HandleFds(f);
  }

  /** Without a handle the geometry is lost. */
  lemma GeometryLost()
    ensures var f := Fields(640, 480, 640, 1, 0, None);
      CountsAccepted(Words(f)) && Read(Words(f), []) == Zero != f
  {
    var f := Fields(640, 480, 640, 1, 0, None);
    RoundTrip(f, [], []);
    ConcatEmpty(Words(f));
  }

  /** The words, written in two parts over a buffer. */
  lemma HeaderAndInts(f: Fields, words: seq<int>)
    requires |Words(f)| <= |words|
    ensures var header := Words(f)[..8] + words[8..];
      && header[..8] + HandleInts(f) + header[8 + |HandleInts(f)|..] == Words(f) + words[|Words(f)|..]
      && (f.handle.None? ==> header == Words(f) + words[|Words(f)|..])
  {
  }

  lemma NothingBefore(fds: seq<int>, room: seq<int>)
    requires |fds| <= |room|
    ensures room[..0] + fds + room[0 + |fds|..] == fds + room[|fds|..]
  {
  }

  /** A flattened buffer is long enough for itself. */
  lemma FlattenedFits(f: Fields, moreWords: seq<int>, count: nat)
    requires |HandleFds(f)| <= count
    ensures var words := Words(f) + moreWords;
      && (UnflattenStatus(words, |words| * SIZEOF_INT, count, true, 0) == NoError <==> CountsAccepted(words))
      && words[6] == |HandleFds(f)| && words[7] == |HandleInts(f)|
  {
  }

  class GraphicBuffer {
    var width: int
    var height: int
    var stride: int
    var format: int
    var usage: int
    var handle: Option<NativeHandle>
    var mOwner: Owner
    ghost var released: seq<Release>
    ghost var lost: seq<Ownership>   // owned and forgotten without being given back
    ghost var taken: seq<Ownership>  // every handle whose ownership was taken over

    function View(): Fields
      reads this
    {
      Fields(width, height, stride, format, usage, handle)
    }

    /** Every handle ever owned is still owned, or was given back once, or was lost. */
    ghost predicate Accounted()
      reads this
    {
      Account(taken, released, lost, Owned(mOwner, handle))
    }

    constructor ()
      ensures View() == Zero && mOwner == OwnData && released == [] && lost == [] && Accounted()
    {
      width, height, stride, format, usage := 0, 0, 0, 0, 0;
      handle, mOwner := None, OwnData;
      released, lost, taken := [], [], [];
    }

    function GetFlattenedSize(): nat
      reads this
    {
      (8 + (if handle.Some? then |handle.value.ints| else 0)) * SIZEOF_INT
    }

    function GetFdCount(): nat
      reads this
    {
      if handle.Some? then |handle.value.fds| else 0
    }

    /** free_handle. */
    method FreeHandle()
      requires handle.Some?
      modifies this`released
      ensures released == old(released) + Releases(mOwner, handle)
      ensures mOwner == OwnHandle ==> released == old(released) + [Closed(handle.value)]
      ensures mOwner == OwnData ==> released == old(released) + [Freed(handle.value)]
      ensures mOwner == OwnNone ==> released == old(released)
      ensures old(Accounted()) ==> Account(taken, released, lost, [])
    {
      hide Account;
      if Accounted() { GivenBack(taken, released, lost, mOwner, handle); }
      if mOwner == OwnHandle {
        released := released + [Closed(handle.value)];
      } else if mOwner == OwnData {
        released := released + [Freed(handle.value)];
      }
    }

    /** The first eight words of a flattened buffer. */
    method WriteHeader(buffer: array<int>)
      requires buffer.Length >= 8
      modifies buffer
      ensures buffer[..] == Words(View())[..8] + old(buffer[..])[8..]
    {
      buffer[0], buffer[1], buffer[2], buffer[3] := MAGIC, width, height, stride;
      buffer[4], buffer[5], buffer[6], buffer[7] := format, usage, 0, 0;
      if handle.Some? {
        buffer[6] := |handle.value.fds|;
        buffer[7] := |handle.value.ints|;
      }
      assert buffer[8..] == old(buffer[..])[8..];
      assert buffer[..8] == Words(View())[..8];
      assert buffer[..] == buffer[..8] + buffer[8..];
    }

    /** What flatten writes. */
    method WriteAll(buffer: array<int>, fds: array<int>)
      requires |Words(View())| <= buffer.Length && |HandleFds(View())| <= fds.Length && buffer != fds
      modifies buffer, fds
      ensures buffer[..] == Words(View()) + old(buffer[..])[|Words(View())|..]
      ensures fds[..] == HandleFds(View()) + old(fds[..])[|HandleFds(View())|..]
    {
      ghost var header := Words(View())[..8] + buffer[..][8..];
      ghost var room := fds[..];
      HeaderAndInts(View(), buffer[..]);
      WriteHeader(buffer);
      if handle.Some? {
        NothingBefore(handle.value.fds, room);
        hide Words;
        CopyInts(fds, 0, handle.value.fds);
        CopyInts(buffer, 8, handle.value.ints);
      } else {
        assert [] + room == room;
      }
    }

    /** flatten, into a buffer of `size` bytes and room for `count` descriptors.  The results are the
        bytes and descriptors left over. */
    method Flatten(buffer: array<int>, size: nat, fds: array<int>, count: nat)
      returns (status: Status, size': nat, count': nat)
      requires size <= buffer.Length * SIZEOF_INT && count <= fds.Length && buffer != fds
      modifies buffer, fds
      ensures status == if size < |Words(View())| * SIZEOF_INT || count < |HandleFds(View())| then NoMemory else NoError
      ensures status == NoMemory ==>
        size' == size && count' == count && buffer[..] == old(buffer[..]) && fds[..] == old(fds[..])
      ensures status == NoError ==>
        && size' == size - |Words(View())| * SIZEOF_INT && count' == count - |HandleFds(View())|
        && |Words(View())| <= buffer.Length && |HandleFds(View())| <= fds.Length
        && buffer[..] == Words(View()) + old(buffer[..])[|Words(View())|..]
        && fds[..] == HandleFds(View()) + old(fds[..])[|HandleFds(View())|..]
    {
      size', count' := size, count;
      var sizeNeeded := GetFlattenedSize();
      if size < sizeNeeded {
        return NoMemory, size', count';
      }
      var fdCountNeeded := GetFdCount();
      if count < fdCountNeeded {
        return NoMemory, size', count';
      }
      hide Words;
      WriteAll(buffer, fds);
      size' := size - sizeNeeded;
      if handle.Some? {
        count' := count - |handle.value.fds|;
      }
      status := NoError;
    }

    /** unflatten, from a buffer of `size` bytes and `count` descriptors.  memory says whether a native
        handle can be created, and err is what registering it returns, 0 for success. */
    method Unflatten(buffer: array<int>, size: nat, fds: array<int>, count: nat, memory: bool, err: int)
      returns (status: Status, size': nat, count': nat)
      requires size <= buffer.Length * SIZEOF_INT && count <= fds.Length
      modifies this
      ensures status == UnflattenStatus(buffer[..], size, count, memory, err)
      ensures status == NoError ==>
        && View() == Read(buffer[..], fds[..]) && mOwner == OwnHandle
        && size' == size - (8 + buffer[7]) * SIZEOF_INT && count' == count - buffer[6]
      ensures status != NoError ==> size' == size && count' == count
      ensures status != NoError ==> View() == if Rejects(buffer[..], size, count) then old(View()) else Zero
      ensures released == old(released) +
        if Fits(buffer[..], size, count) then Releases(old(mOwner), old(handle)) else []
      ensures Fits(buffer[..], size, count) && old(handle).Some? ==>
        && (old(mOwner) == OwnHandle ==> released == old(released) + [Closed(old(handle).value)])
        && (old(mOwner) == OwnData ==> released == old(released) + [Freed(old(handle).value)])
      ensures lost == old(lost) +
        if status == BadValue then Owned(old(mOwner), old(handle))
        else if status.Rejected? then [Ownership(OwnHandle, Read(buffer[..], fds[..]).handle.value)] else []
      ensures old(Accounted()) ==> Accounted()
      ensures mOwner == if status == NoError || status.Rejected? then OwnHandle else old(mOwner)
    {
      hide Account;
      size', count' := size, count;
      if size < 8 * SIZEOF_INT {
        return NoMemory, size', count';
      }
      if buffer[0] != MAGIC {
        return BadType, size', count';
      }
      var numFds, numInts := buffer[6], buffer[7];
      if numFds < 0 || numFds >= MAX_NUMBER || numInts < 0 || numInts >= MAX_NUMBER - 10 {
        if Accounted() { Forgotten(taken, released, lost, Owned(mOwner, handle)); }
        lost := lost + Owned(mOwner, handle);
        Clear();
        return BadValue, size', count';
      }
      var sizeNeeded := (8 + numInts) * SIZEOF_INT;
      if size < sizeNeeded || count < numFds {
        return NoMemory, size', count';
      }
      status := Adopt(buffer, fds, numFds, numInts, memory, err);
      if status == NoError {
        size', count' := size - sizeNeeded, count - numFds;
      }
    }

    /** The part of unflatten behind its checks. */
    method Adopt(buffer: array<int>, fds: array<int>, numFds: nat, numInts: nat, memory: bool, err: int)
      returns (status: Status)
      requires 8 + numInts <= buffer.Length && numFds <= fds.Length
      requires buffer[6] == numFds && buffer[7] == numInts && CountsAccepted(buffer[..])
      modifies this
      ensures status ==
        if numFds + numInts == 0 then NoError else if !memory then NoMemory else if err != 0 then Rejected(err) else NoError
      ensures View() == if status == NoError then Read(buffer[..], fds[..]) else Zero
      ensures mOwner == if status == NoError || status.Rejected? then OwnHandle else old(mOwner)
      ensures released == old(released) + Releases(old(mOwner), old(handle))
      ensures lost == old(lost) + if status.Rejected? then [Ownership(OwnHandle, Read(buffer[..], fds[..]).handle.value)] else []
      ensures old(Accounted()) ==> Accounted()
    {
      hide Account;
      if handle.Some? {
        FreeHandle();
      }
      hide Releases;
      status := NoMemory;
      if (numFds == 0 && numInts == 0) || memory {
        ReadFields(buffer, fds, numFds, numInts);
        if handle.Some? {
          if Account(taken, released, lost, []) { TakenOver(taken, released, lost, handle.value); }
          taken := taken + [Ownership(OwnHandle, handle.value)];
        }
        status := Register(err);
      } else {
        Clear();
      }
    }

    /** The fields that unflatten reads, and the handle that it creates. */
    method ReadFields(buffer: array<int>, fds: array<int>, numFds: nat, numInts: nat)
      requires 8 + numInts <= buffer.Length && numFds <= fds.Length
      requires buffer[6] == numFds && buffer[7] == numInts && CountsAccepted(buffer[..])
      modifies this`width, this`height, this`stride, this`format, this`usage, this`handle
      ensures View() == Read(buffer[..], fds[..]) && (handle.Some? <==> numFds != 0 || numInts != 0)
    {
      if numFds != 0 || numInts != 0 {
        width, height, stride, format, usage := buffer[1], buffer[2], buffer[3], buffer[4], buffer[5];
        assert buffer[..][8..8 + numInts] == buffer[8..8 + numInts];
        handle := Some(NativeHandle(fds[..numFds], buffer[8..8 + numInts]));
      } else {
        Clear();
      }
    }

    /** The end of unflatten: the handle is owned and registered.  One that does not register is
        forgotten. */
    method Register(err: int) returns (status: Status)
      modifies this
      ensures status == if old(handle).Some? && err != 0 then Rejected(err) else NoError
      ensures View() == if status == NoError then old(View()) else Zero
      ensures mOwner == OwnHandle && released == old(released)
      ensures lost == old(lost) + if status.Rejected? then [Ownership(OwnHandle, old(handle).value)] else []
      ensures old(Account(taken, released, lost, Owned(OwnHandle, handle))) ==> Accounted()
    {
      hide Account;
      mOwner := OwnHandle;
      if handle.Some? && err != 0 {
        if Accounted() { Forgotten(taken, released, lost, Owned(mOwner, handle)); }
        lost := lost + [Ownership(OwnHandle, handle.value)];
        Clear();
        return Rejected(err);
      }
      return NoError;
    }

    method Clear()
      modifies this`width, this`height, this`stride, this`format, this`usage, this`handle
      ensures View() == Zero
    {
      width, height, stride, format, usage := 0, 0, 0, 0, 0;
      handle := None;
    }
  }

  /** The handle that an owner must give back. */
  function Owned(owner: Owner, handle: Option<NativeHandle>): seq<Ownership> {
    if handle.None? || owner == OwnNone then [] else [Ownership(owner, handle.value)]
  }

  /** Every handle taken over is given back, lost or held, and only one of these. */
  ghost predicate Account(taken: seq<Ownership>, released: seq<Release>, lost: seq<Ownership>, held: seq<Ownership>) {
    multiset(taken) == multiset(Handles(released)) + multiset(lost) + multiset(held)
  }

  lemma GivenBack(taken: seq<Ownership>, released: seq<Release>, lost: seq<Ownership>, owner: Owner, handle: Option<NativeHandle>)
    requires Account(taken, released, lost, Owned(owner, handle))
    ensures Account(taken, released + Releases(owner, handle), lost, [])
  {
    assert Handles(released + Releases(owner, handle)) == Handles(released) + Owned(owner, handle);
  }

  lemma TakenOver(taken: seq<Ownership>, released: seq<Release>, lost: seq<Ownership>, h: NativeHandle)
    requires Account(taken, released, lost, [])
    ensures Account(taken + [Ownership(OwnHandle, h)], released, lost, Owned(OwnHandle, Some(h)))
  {
  }

  lemma Forgotten(taken: seq<Ownership>, released: seq<Release>, lost: seq<Ownership>, held: seq<Ownership>)
    requires Account(taken, released, lost, held)
    ensures Account(taken, released, lost + held, [])
  {
  }

  /** The handles given back, each in the way that is right for it. */
  function Handles(released: seq<Release>): (handles: seq<Ownership>)
    ensures |handles| == |released|
  {
    seq(|released|, i requires 0 <= i < |released| => RightFor(released[i]))
  }

  /** What free_handle gives back. */
  function Releases(owner: Owner, handle: Option<NativeHandle>): seq<Release> {
    if handle.None? || owner == OwnNone then []
    else if owner == OwnHandle then [Closed(handle.value)]
    else [Freed(handle.value)]
  }

  /** memcpy of whole ints. */
  method CopyInts(dest: array<int>, at: nat, from: seq<int>)
    requires at + |from| <= dest.Length
    modifies dest
    ensures dest[..] == old(dest[..])[..at] + from + old(dest[..])[at + |from|..]
  {
    var i := 0;
    while i < |from|
      invariant 0 <= i <= |from|
      invariant forall k :: 0 <= k < i ==> dest[at + k] == from[k]
      invariant forall k :: 0 <= k < dest.Length && !(at <= k < at + i) ==> dest[k] == old(dest[k])
    {
      dest[at + i] := from[i];
      i := i + 1;
    }
  }

  /** A buffer sent through flatten and unflatten; left and left' are the bytes and descriptors that
      either of them leaves over. */
  method Transfer(source: GraphicBuffer, target: GraphicBuffer, buffer: array<int>, fds: array<int>)
    returns (sent: Status, got: Status, left: (nat, nat), left': (nat, nat))
    requires source != target && buffer != fds
    modifies target, buffer, fds
    ensures sent == NoError <==>
      |Words(source.View())| <= buffer.Length && |HandleFds(source.View())| <= fds.Length
    ensures sent == NoError ==>
      && (got == NoError <==> SmallEnough(source.View()))
      && (got == NoError ==> left == left')
      && (got == NoError ==> (target.View() == source.View() <==> Restorable(source.View())))
      && (got == NoError ==> target.mOwner == OwnHandle)
      && (got == NoError && source.handle.None? ==> target.View() == Zero)
  {
    var size, count := buffer.Length * SIZEOF_INT, fds.Length;
    ghost var more, moreFds;
    var s, c, s', c';
    sent, s, c := source.Flatten(buffer, size, fds, count);
    left, got, left' := (s, c), NoMemory, (0, 0);
    if sent == NoError {
      more := buffer[..][|Words(source.View())|..];
      moreFds := fds[..][|HandleFds(source.View())|..];
      assert buffer[..] == Words(source.View()) + more && fds[..] == HandleFds(source.View()) + moreFds;
      RoundTrip(source.View(), more, moreFds);
      FlattenedFits(source.View(), more, count);
      hide UnflattenStatus, CountsAccepted, Read, Fits, Rejects, Account, Releases, Words, HandleFds, HandleInts,
        SmallEnough, Restorable;
      assert buffer[6] == buffer[..][6] && buffer[7] == buffer[..][7];
      got, s', c' := target.Unflatten(buffer, size, fds, count, true, 0);
      left' := (s', c');
    }
  }
}
