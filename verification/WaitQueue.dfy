/** The wait queue of the Win32 lock: a circular array that grows. */
module WaitQueue {
  import opened Options

  /** A handle returned by CreateEvent. */
  type Event = nat

  /** Where the i-th queued event sits in an array of the given size. */
  function Slot(offset: nat, i: nat, alloc: nat): (r: nat)
    requires i < alloc && offset < alloc
    ensures r < alloc
  {
    if offset + i >= alloc then offset + i - alloc else offset + i
  }

  /** The count events that start at offset, in order. */
  ghost function Window(a: seq<Event>, offset: nat, count: nat): (r: seq<Event>)
    requires count <= |a| && (count > 0 ==> offset < |a|)
  {
    seq(count, i requires 0 <= i < count => a[Slot(offset, i, |a|)])
  }

  class Queue {
    var handles: array<Event>
    var count: nat
    var alloc: nat
    var offset: nat

    ghost predicate Valid()
      reads this
    {
      && alloc == handles.Length && count <= alloc
      && (alloc == 0 ==> offset == 0)
      && (alloc > 0 ==> offset < alloc)
    }

    /** The queue, its head first. */
    ghost function Contents(): seq<Event>
      reads this, handles
      requires Valid()
    {
      Window(handles[..], offset, count)
    }

    constructor ()
      ensures Valid() && Contents() == [] && fresh(handles)
    {
      handles := new Event[0];
      count, alloc, offset := 0, 0, 0;
    }

    /** gl_waitqueue_add.  room: whether realloc would succeed; event: what
        CreateEvent would return.  None is INVALID_HANDLE_VALUE. */
    method Add(room: bool, event: Option<Event>) returns (r: Option<Event>)
      requires Valid()
      modifies this, handles
      ensures Valid() && (handles == old(handles) || fresh(handles))
      ensures r == (if old(count == alloc) && !room then None else event)
      ensures Contents() == old(Contents()) + (if r.Some? then [r.value] else [])
    {
      ghost var was := Contents();
      if count == alloc {
        if !room { return None; }
        Grow();
      }
      if event.None? { return None; }
      var index := offset + count;
      if index >= alloc { index := index - alloc; }
      assert index == Slot(offset, count, alloc);
      ghost var before := handles[..];
      handles[index] := event.value;
      count := count + 1;
      WindowAppend(before, offset, count - 1, event.value);
      assert handles[..] == before[index := event.value];
      return event;
    }

    method Grow()
      requires Valid() && count == alloc
      modifies this
      ensures Valid() && fresh(handles) && count < alloc
      ensures alloc == 2 * old(alloc) + 1 && offset == 0
      ensures Contents() == old(Contents())
    {
      ghost var was := handles[..];
      var newAlloc := 2 * alloc + 1;
      var newArray := Realloc(handles, newAlloc);
      if offset > 0 {
        Rotate(newArray, count, alloc, offset, was);
      } else {
        assert newArray[..count] == Window(was, offset, count);
      }
      assert newArray[..count] == Window(was, 0 + offset, count);
      offset := 0;
      handles := newArray;
      alloc := newAlloc;
      assert handles[..][..count] == handles[..count];
      WindowAtStart(handles[..], count);
    }

    /** gl_waitqueue_notify_first: the event that gets set. */
    method NotifyFirst() returns (event: Event)
      requires Valid() && count > 0
      modifies this
      ensures Valid() && handles == old(handles)
      ensures event == old(Contents())[0] && Contents() == old(Contents())[1..]
    {
      event := handles[offset + 0];
      WindowTail(handles[..], offset, count);
      offset := offset + 1;
      count := count - 1;
      if count == 0 || offset == alloc { offset := 0; }
    }

    /** gl_waitqueue_notify_all: the events that get set, in this order. */
    method NotifyAll() returns (events: seq<Event>)
      requires Valid()
      modifies this
      ensures Valid() && handles == old(handles)
      ensures events == old(Contents()) && Contents() == []
    {
      events := [];
      var i := 0;
      while i < count
        invariant i <= count
        invariant count == old(count) && offset == old(offset) && alloc == old(alloc) && handles == old(handles)
        invariant events == Contents()[..i]
      {
        var index := offset + i;
        if index >= alloc { index := index - alloc; }
        assert handles[index] == Contents()[i];
        events := events + [handles[index]];
        i := i + 1;
      }
      count := 0;
      offset := 0;
    }
  }

  /** realloc to a larger size. */
  method Realloc(a: array<Event>, n: nat) returns (b: array<Event>)
    requires a.Length <= n
    ensures fresh(b) && b.Length == n && b[..a.Length] == a[..]
  {
    b := new Event[n];
    var i := 0;
    while i < a.Length
      invariant i <= a.Length
      invariant b[..i] == a[..i]
    {
      b[i] := a[i];
      i := i + 1;
    }
  }

  /** The two copying loops of a growing queue whose head was not at the start. */
  method Rotate(a: array<Event>, oldCount: nat, oldAlloc: nat, oldOffset: nat, ghost was: seq<Event>)
    requires oldOffset < oldAlloc == |was| && oldCount == oldAlloc && a.Length == 2 * oldAlloc + 1
    requires a[..oldAlloc] == was
    modifies a
    ensures a[..oldCount] == Window(was, oldOffset, oldCount)
  {
    if oldOffset + oldCount > oldAlloc { CopyWrapped(a, oldAlloc, oldOffset + oldCount - oldAlloc, was); }
    assert forall k :: 0 <= k < oldCount ==> a[oldOffset + k] == Window(was, oldOffset, oldCount)[k];
    var i := 0;
    while i < oldCount
      invariant i <= oldCount
      invariant forall k :: 0 <= k < i ==> a[k] == Window(was, oldOffset, oldCount)[k]
      invariant forall k :: i <= k < oldCount ==> a[oldOffset + k] == Window(was, oldOffset, oldCount)[k]
    {
      a[i] := a[oldOffset + i];
      i := i + 1;
    }
  }

  /** What had wrapped round to the start is copied behind the old end. */
  method CopyWrapped(a: array<Event>, oldAlloc: nat, limit: nat, ghost was: seq<Event>)
    requires limit <= oldAlloc == |was| && oldAlloc + limit <= a.Length
    requires a[..oldAlloc] == was
    modifies a
    ensures forall k :: 0 <= k < oldAlloc ==> a[k] == was[k]
    ensures forall k :: oldAlloc <= k < oldAlloc + limit ==> a[k] == was[k - oldAlloc]
  {
    assert forall k :: 0 <= k < oldAlloc ==> a[k] == was[k];
    var i := 0;
    while i < limit
      invariant i <= limit
      invariant forall k :: 0 <= k < oldAlloc ==> a[k] == was[k]
      invariant forall k :: oldAlloc <= k < oldAlloc + i ==> a[k] == was[k - oldAlloc]
    {
      a[oldAlloc + i] := a[i];
      i := i + 1;
    }
  }

  lemma WindowAppend(a: seq<Event>, offset: nat, count: nat, e: Event)
    requires count < |a| && offset < |a|
    ensures Window(a[Slot(offset, count, |a|) := e], offset, count + 1) == Window(a, offset, count) + [e]
  {
  }

  lemma WindowAtStart(a: seq<Event>, count: nat)
    requires count < |a|
    ensures Window(a, 0, count) == a[..count]
  {
  }

  lemma WindowTail(a: seq<Event>, offset: nat, count: nat)
    requires 0 < count <= |a| && offset < |a|
    ensures Window(a, offset, count)[0] == a[offset]
    ensures Window(a, offset, count)[1..]
         == Window(a, if count == 1 || offset + 1 == |a| then 0 else offset + 1, count - 1)
  {
  }
}
