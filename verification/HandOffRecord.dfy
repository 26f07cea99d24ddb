/** The read-write lock built from a critical section and two wait queues. */
module HandOffRecord {
  import opened Options
  import opened Int32
  import opened WaitQueue

  /** The lock record: its counter and what its queues hold, heads first. */
  datatype Lock = Lock(runcount: int, readers: seq<Event>, writers: seq<Event>)

  predicate MayRead(l: Lock) { Plus1(l.runcount) > 0 }

  predicate MayWrite(l: Lock) { l.runcount == 0 }

  function ReadEntry(l: Lock): Lock
    requires MayRead(l)
  {
    l.(runcount := l.runcount + 1)
  }

  function WriteEntry(l: Lock): Lock
    requires MayWrite(l)
  {
    l.(runcount := -1)
  }

  /** What unlock does: the new record and the events it sets, or EPERM, or abort. */
  datatype Release = Released(l: Lock, granted: seq<Event>) | NotHeld | Corrupt

  function Unlocked(l: Lock): Release {
    if l.runcount < 0 && l.runcount != -1 then Corrupt
    else if l.runcount == 0 then NotHeld
    else
      var left := if l.runcount < 0 then 0 else l.runcount - 1;
      if left != 0 then Released(l.(runcount := left), [])
      else if l.writers != [] then Released(Lock(-1, l.readers, l.writers[1..]), [l.writers[0]])
      else Released(Lock(Signed(|l.readers|), [], l.writers), l.readers)
  }

  /** When unlock reports EPERM, when it aborts, and that it goes on otherwise. */
  lemma RefusedIff(l: Lock)
    ensures Unlocked(l).NotHeld? <==> l.runcount == 0
    ensures Unlocked(l).Corrupt? <==> l.runcount < -1
  {
  }

  datatype Entry = Entered | Queued | NoMemory

  /** The lock object.  Each method is one stretch of code inside the critical
      section. */
  class RwLock {
    var runcount: int
    const waitingReaders: Queue
    const waitingWriters: Queue

    ghost predicate Valid()
      reads this, waitingReaders, waitingWriters
    {
      && waitingReaders != waitingWriters && waitingReaders.handles != waitingWriters.handles
      && waitingReaders.Valid() && waitingWriters.Valid()
    }

    ghost function Rec(): Lock
      reads this, waitingReaders, waitingWriters, waitingReaders.handles, waitingWriters.handles
      requires Valid()
    {
      Lock(runcount, waitingReaders.Contents(), waitingWriters.Contents())
    }

    constructor ()
      ensures Valid() && Rec() == Lock(0, [], [])
    {
      waitingReaders := new Queue();
      waitingWriters := new Queue();
      runcount := 0;
    }

    /** rdlock, up to waiting for the event. */
    method ReadEnter(room: bool, event: Option<Event>) returns (e: Entry)
      requires Valid()
      modifies this, waitingReaders, waitingReaders.handles
      ensures Valid()
      ensures e == Entered <==> MayRead(old(Rec()))
      ensures !MayRead(old(Rec())) && room ==> e == if event.Some? then Queued else NoMemory
      ensures e == Entered ==> Rec() == ReadEntry(old(Rec()))
      ensures e == Queued ==> event.Some? && Rec() == old(Rec()).(readers := old(Rec()).readers + [event.value])
      ensures e == NoMemory ==> Rec() == old(Rec())
    {
      if !(Plus1(runcount) > 0) {
        var queued := waitingReaders.Add(room, event);
        return if queued.Some? then Queued else NoMemory;
      }
      runcount := runcount + 1;
      return Entered;
    }

    /** wrlock, up to waiting for the event. */
    method WriteEnter(room: bool, event: Option<Event>) returns (e: Entry)
      requires Valid()
      modifies this, waitingWriters, waitingWriters.handles
      ensures Valid()
      ensures e == Entered <==> MayWrite(old(Rec()))
      ensures !MayWrite(old(Rec())) && room ==> e == if event.Some? then Queued else NoMemory
      ensures e == Entered ==> Rec() == WriteEntry(old(Rec()))
      ensures e == Queued ==> event.Some? && Rec() == old(Rec()).(writers := old(Rec()).writers + [event.value])
      ensures e == NoMemory ==> Rec() == old(Rec())
    {
      if !(runcount == 0) {
        var queued := waitingWriters.Add(room, event);
        return if queued.Some? then Queued else NoMemory;
      }
      runcount := runcount - 1;
      return Entered;
    }

    /** unlock: the events it sets. */
    method Unlock() returns (result: Option<seq<Event>>, aborted: bool)
      requires Valid()
      modifies this, waitingReaders, waitingWriters
      ensures Valid()
      ensures aborted <==> Unlocked(old(Rec())).Corrupt?
      ensures !aborted ==> match Unlocked(old(Rec()))
                           case Released(l, granted) => Rec() == l && result == Some(granted)
                           case _ => Rec() == old(Rec()) && result == None
    {
      aborted := false;
      if runcount < 0 {
        if !(runcount == -1) { return None, true; }
        runcount := 0;
      } else {
        if !(runcount > 0) { return None, false; }
        runcount := runcount - 1;
      }
      var granted := [];
      if runcount == 0 {
        if waitingWriters.count > 0 {
          runcount := runcount - 1;
          var event := waitingWriters.NotifyFirst();
          granted := [event];
        } else {
          runcount := Signed(runcount + waitingReaders.count);
          granted := waitingReaders.NotifyAll();
        }
      }
      result := Some(granted);
    }
  }
}
