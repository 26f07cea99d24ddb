/** The read-write lock built from a mutex and two condition variables. */
module PosixRecord {
  import opened Options
  import opened Int32

  /** The two plain fields of the lock record. */
  datatype Record = Record(runcount: int, waitingWriters: nat)

  predicate MayRead(l: Record) { Plus1(l.runcount) > 0 && l.waitingWriters == 0 }

  predicate MayWrite(l: Record) { l.runcount == 0 }

  /** What unlock asks of the condition variables. */
  datatype Wake = Nobody | OneWriter | AllReaders

  function ReadEntry(l: Record): Record
    requires MayRead(l)
  {
    l.(runcount := l.runcount + 1)
  }

  function WriteEntry(l: Record): Record
    requires MayWrite(l)
  {
    l.(runcount := l.runcount - 1)
  }

  function QueuedWriter(l: Record): Record { l.(waitingWriters := l.waitingWriters + 1) }

  function DequeuedWriter(l: Record): Record
    requires l.waitingWriters > 0
  {
    l.(waitingWriters := l.waitingWriters - 1)
  }

  /** unlock; None means EINVAL. */
  function Unlocked(l: Record): Option<(Record, Wake)> {
    if l.runcount < 0 && l.runcount != -1 then None
    else if l.runcount == 0 then None
    else
      var r := l.(runcount := if l.runcount < 0 then 0 else l.runcount - 1);
      if r.runcount != 0 then Some((r, Nobody))
      else if r.waitingWriters > 0 then Some((r, OneWriter))
      else Some((r, AllReaders))
  }

  /** When unlock reports EINVAL. */
  lemma RefusedIff(l: Record)
    ensures Unlocked(l).None? <==> l.runcount == 0 || l.runcount < -1
  {
  }

  /** The lock object.  Each method is one stretch of code between taking the
      mutex and giving it up, either for good or inside pthread_cond_wait. */
  class RwLock {
    var runcount: int
    var waitingWritersCount: nat

    constructor ()
      ensures Rec() == Record(0, 0)
    {
      waitingWritersCount := 0;
      runcount := 0;
    }

    function Rec(): Record
      reads this
    {
      Record(runcount, waitingWritersCount)
    }

    /** rdlock, from the mutex or from a wakeup up to the next wait. */
    method ReadAttempt() returns (entered: bool)
      modifies this
      ensures entered == MayRead(old(Rec()))
      ensures Rec() == if entered then ReadEntry(old(Rec())) else old(Rec())
    {
      entered := Plus1(runcount) > 0 && waitingWritersCount == 0;
      if entered { runcount := runcount + 1; }
    }

    /** wrlock, from the mutex up to the first wait. */
    method WriteAttempt() returns (entered: bool)
      modifies this
      ensures entered == MayWrite(old(Rec()))
      ensures Rec() == if entered then WriteEntry(old(Rec())) else QueuedWriter(old(Rec()))
    {
      entered := runcount == 0;
      if entered { runcount := runcount - 1; } else { waitingWritersCount := waitingWritersCount + 1; }
    }

    /** wrlock, from a wakeup up to the next wait. */
    method WriteRetry() returns (entered: bool)
      requires waitingWritersCount > 0
      modifies this
      ensures entered == MayWrite(old(Rec()))
      ensures Rec() == if entered then WriteEntry(DequeuedWriter(old(Rec()))) else old(Rec())
    {
      waitingWritersCount := waitingWritersCount - 1;
      entered := runcount == 0;
      if entered { runcount := runcount - 1; } else { waitingWritersCount := waitingWritersCount + 1; }
    }

    method Unlock() returns (ok: bool, wake: Wake)
      modifies this
      ensures ok == Unlocked(old(Rec())).Some?
      ensures if ok then (Rec(), wake) == Unlocked(old(Rec())).value else Rec() == old(Rec())
    {
      ok, wake := true, Nobody;
      if runcount < 0 {
        if runcount != -1 { return false, Nobody; }
        runcount := 0;
      } else {
        if !(runcount > 0) { return false, Nobody; }
        runcount := runcount - 1;
      }
      if runcount == 0 {
        wake := if waitingWritersCount > 0 then OneWriter else AllReaders;
      }
    }
  }
}
