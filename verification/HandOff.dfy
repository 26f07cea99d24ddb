/** Any number of threads using one such lock.  A step is one stretch of code
    inside the critical section, or a wakeup by an event that has been set.  A
    thread stands for the event it waits on. */
module HandOff {
  import opened Threads
  import opened Int32
  import opened HandOffRecord

  datatype Doing =
    | Idle
    | ReaderQueued | ReaderGranted | ReaderRetrying | Reading   // waiting; event set; no memory; holding
    | WriterQueued | WriterGranted | WriterRetrying | Writing
    | Aborted

  /** asked: the writers that were queued, in order; served: those that were handed the lock. */
  datatype State = State(l: Lock, pc: map<Tid, Doing>, asked: seq<Tid>, served: seq<Tid>)

  datatype Action = Read(t: Tid) | Write(t: Tid) | Unlock(t: Tid) | Wake(t: Tid)

  ghost predicate Init(s: State) {
    s.l == Lock(0, [], []) && s.asked == s.served == [] && forall t :: t in s.pc ==> s.pc[t] == Idle
  }

  /** The same step by a thread: its new record and state. */
  ghost predicate Goes(s: State, s': State, t: Tid, l: Lock, d: Doing) {
    s' == State(l, s.pc[t := d], s.asked, s.served)
  }

  ghost predicate ReadStep(s: State, s': State, t: Tid)
    requires t in s.pc
  {
    match s.pc[t]
    case Idle =>
      if MayRead(s.l) then Goes(s, s', t, ReadEntry(s.l), Reading)
      else || Goes(s, s', t, s.l.(readers := s.l.readers + [t]), ReaderQueued)
           || Goes(s, s', t, s.l, ReaderRetrying)
    case ReaderRetrying =>
      if MayRead(s.l) then Goes(s, s', t, ReadEntry(s.l), Reading) else s' == s
    case _ => false
  }

  ghost predicate WriteStep(s: State, s': State, t: Tid)
    requires t in s.pc
  {
    match s.pc[t]
    case Idle =>
      if MayWrite(s.l) then Goes(s, s', t, WriteEntry(s.l), Writing)
      else || s' == State(s.l.(writers := s.l.writers + [t]), s.pc[t := WriterQueued], s.asked + [t], s.served)
           || Goes(s, s', t, s.l, WriterRetrying)
    case WriterRetrying =>
      if MayWrite(s.l) then Goes(s, s', t, WriteEntry(s.l), Writing) else s' == s
    case _ => false
  }

  /** A granted thread looks at runcount, outside the critical section. */
  ghost predicate WakeStep(s: State, s': State, t: Tid)
    requires t in s.pc
  {
    match s.pc[t]
    case ReaderGranted => Goes(s, s', t, s.l, if s.l.runcount > 0 then Reading else Aborted)
    case WriterGranted => Goes(s, s', t, s.l, if s.l.runcount == -1 then Writing else Aborted)
    case _ => false
  }

  ghost function Granted(pc: map<Tid, Doing>, granted: seq<Tid>): map<Tid, Doing> {
    map t | t in pc :: if t !in granted then pc[t] else if pc[t] == WriterQueued then WriterGranted else ReaderGranted
  }

  /** unlock called by a holder. */
  ghost predicate UnlockStep(s: State, s': State, t: Tid)
    requires t in s.pc
  {
    && s.pc[t] in {Reading, Writing}
    && match Unlocked(s.l)
       case Released(l, granted) =>
         s' == State(l, Granted(s.pc[t := Idle], granted), s.asked, s.served + if s.l.writers != [] then granted else [])
       case NotHeld => s' == s
       case Corrupt => Goes(s, s', t, s.l, Aborted)
  }

  ghost predicate Step(s: State, s': State, a: Action) {
    && a.t in s.pc
    && match a
       case Read(t) => ReadStep(s, s', t)
       case Write(t) => WriteStep(s, s', t)
       case Unlock(t) => UnlockStep(s, s', t)
       case Wake(t) => WakeStep(s, s', t)
  }

  ghost predicate Next(s: State, s': State) { exists a :: Step(s, s', a) }

  ghost predicate Run(states: seq<State>) {
    && states != [] && Init(states[0])
    && forall i :: 0 < i < |states| ==> Next(states[i - 1], states[i])
  }

  // ---- what every step keeps ---------------------------------------------------

  const MOST := INT_MAX + 1

  ghost predicate Distinct(q: seq<Tid>) {
    forall i, j :: 0 <= i < j < |q| ==> q[i] != q[j]
  }

  /** A queue lists the threads that wait in it. */
  ghost predicate Lists(q: seq<Tid>, pc: map<Tid, Doing>, d: Doing) {
    Distinct(q) && forall t :: t in q <==> t in pc && pc[t] == d
  }

  /** runcount counts the holders, granted threads included. */
  ghost predicate Owned(s: State) {
    && -1 <= s.l.runcount <= INT_MAX
    && Count(s.pc, {Reading, ReaderGranted}) == (if s.l.runcount < 0 then 0 else s.l.runcount)
    && Count(s.pc, {Writing, WriterGranted}) == (if s.l.runcount < 0 then 1 else 0)
  }

  ghost predicate QueuesWait(s: State) {
    && Lists(s.l.readers, s.pc, ReaderQueued) && Lists(s.l.writers, s.pc, WriterQueued)
    && (s.l.readers != [] || s.l.writers != [] ==> s.l.runcount != 0)
  }

  ghost predicate NoneAborted(pc: map<Tid, Doing>) {
    forall t :: t in pc ==> pc[t] != Aborted
  }

  ghost predicate Inv(s: State) {
    && |s.pc| <= MOST
    && Owned(s) && QueuesWait(s) && NoneAborted(s.pc)
    && s.asked == s.served + s.l.writers
  }

  lemma InitInv(s: State)
    requires Init(s) && |s.pc| <= MOST
    ensures Inv(s)
  {
    CountNone(s.pc, {Reading, ReaderGranted});
    CountNone(s.pc, {Writing, WriterGranted});
  }

  lemma Moved(pc: map<Tid, Doing>, t: Tid, d: Doing)
    requires t in pc
    ensures pc[t := d].Keys == pc.Keys && |pc[t := d]| == |pc|
    ensures Count(pc[t := d], {Reading, ReaderGranted})
         == Count(pc, {Reading, ReaderGranted}) - One(pc[t] in {Reading, ReaderGranted}) + One(d in {Reading, ReaderGranted})
    ensures Count(pc[t := d], {Writing, WriterGranted})
         == Count(pc, {Writing, WriterGranted}) - One(pc[t] in {Writing, WriterGranted}) + One(d in {Writing, WriterGranted})
  {
    Move(pc, t, d, {Reading, ReaderGranted});
    Move(pc, t, d, {Writing, WriterGranted});
    assert pc[t := d].Keys == pc.Keys;
    assert |pc.Keys| == |pc| && |pc[t := d].Keys| == |pc[t := d]|;
  }

  lemma ListsOther(q: seq<Tid>, pc: map<Tid, Doing>, t: Tid, d: Doing, kind: Doing)
    requires t in pc && Lists(q, pc, kind) && d != kind && pc[t] != kind
    ensures Lists(q, pc[t := d], kind)
  {
  }

  lemma ListsAppend(q: seq<Tid>, pc: map<Tid, Doing>, t: Tid, kind: Doing)
    requires t in pc && Lists(q, pc, kind) && pc[t] != kind
    ensures Lists(q + [t], pc[t := kind], kind)
  {
    assert t !in q;
  }

  lemma ReadKeepsInv(s: State, s': State, t: Tid)
    requires Inv(s) && t in s.pc && ReadStep(s, s', t)
    ensures Inv(s')
  {
    var d := s'.pc[t];
    Moved(s.pc, t, d);
    if s'.pc[t] == Reading { CountLess(s.pc, {Reading, ReaderGranted}, t); }
    if s' != s {
      if d == ReaderQueued { ListsAppend(s.l.readers, s.pc, t, d); } else { ListsOther(s.l.readers, s.pc, t, d, ReaderQueued); }
      ListsOther(s.l.writers, s.pc, t, d, WriterQueued);
    }
  }

  lemma WriteKeepsInv(s: State, s': State, t: Tid)
    requires Inv(s) && t in s.pc && WriteStep(s, s', t)
    ensures Inv(s')
  {
    var d := s'.pc[t];
    Moved(s.pc, t, d);
    if s' != s {
      if d == WriterQueued { ListsAppend(s.l.writers, s.pc, t, d); } else { ListsOther(s.l.writers, s.pc, t, d, WriterQueued); }
      ListsOther(s.l.readers, s.pc, t, d, ReaderQueued);
    }
  }

  /** A granted thread is already counted when it wakes. */
  lemma WakeKeepsInv(s: State, s': State, t: Tid)
    requires Inv(s) && t in s.pc && WakeStep(s, s', t)
    ensures Inv(s') && s'.pc[t] in {Reading, Writing}
  {
    if s.pc[t] == ReaderGranted {
      CountSome(s.pc, {Reading, ReaderGranted}, t);
    } else {
      CountSome(s.pc, {Writing, WriterGranted}, t);
    }
    Moved(s.pc, t, s'.pc[t]);
    ListsOther(s.l.readers, s.pc, t, s'.pc[t], ReaderQueued);
    ListsOther(s.l.writers, s.pc, t, s'.pc[t], WriterQueued);
  }

  // ---- unlock ------------------------------------------------------------------

  ghost function Elements(q: seq<Tid>): set<Tid> { set t | t in q }

  lemma {:induction false} DistinctSize(q: seq<Tid>)
    requires Distinct(q)
    ensures |Elements(q)| == |q|
  {
    if q != [] {
      var rest := q[1..];
      DistinctSize(rest);
      assert q == [q[0]] + rest;
      assert q[0] !in Elements(rest);
      assert Elements(q) == {q[0]} + Elements(rest);
    }
  }

  /** Granting the lock to a whole queue of readers. */
  lemma GrantReaders(pc: map<Tid, Doing>, q: seq<Tid>)
    requires Lists(q, pc, ReaderQueued)
    ensures Count(Granted(pc, q), {Reading, ReaderGranted}) == Count(pc, {Reading, ReaderGranted}) + |q|
    ensures Count(Granted(pc, q), {Writing, WriterGranted}) == Count(pc, {Writing, WriterGranted})
    ensures Lists([], Granted(pc, q), ReaderQueued)
  {
    GrantedHold(pc, q);
    DistinctSize(q);
    SameKinds(pc, Granted(pc, q), {Writing, WriterGranted});
  }

  lemma GrantedHold(pc: map<Tid, Doing>, q: seq<Tid>)
    requires Lists(q, pc, ReaderQueued)
    ensures In(Granted(pc, q), {Reading, ReaderGranted}) == In(pc, {Reading, ReaderGranted}) + Elements(q)
    ensures In(pc, {Reading, ReaderGranted}) !! Elements(q)
  {
  }

  lemma GrantOther(pc: map<Tid, Doing>, q: seq<Tid>, other: seq<Tid>)
    requires Lists(q, pc, ReaderQueued) && Lists(other, pc, WriterQueued)
    ensures Lists(other, Granted(pc, q), WriterQueued)
  {
  }

  /** Handing the lock to the writer at the head of the queue. */
  lemma GrantWriter(pc: map<Tid, Doing>, q: seq<Tid>, readers: seq<Tid>)
    requires q != [] && Lists(q, pc, WriterQueued) && Lists(readers, pc, ReaderQueued)
    ensures Granted(pc, [q[0]]) == pc[q[0] := WriterGranted]
    ensures Lists(q[1..], pc[q[0] := WriterGranted], WriterQueued)
    ensures Lists(readers, pc[q[0] := WriterGranted], ReaderQueued)
  {
    assert q == [q[0]] + q[1..];
    assert q[0] in q && q[0] !in q[1..];
  }

  lemma GrantNobody(pc: map<Tid, Doing>)
    ensures Granted(pc, []) == pc
  {
  }

  /** A holder's unlock neither aborts nor reports EPERM, and readers waiting for
      it are few enough to be counted. */
  lemma HolderUnlocks(s: State, t: Tid)
    requires Inv(s) && t in s.pc && s.pc[t] in {Reading, Writing}
    ensures Unlocked(s.l).Released? && s.l.runcount != 0
    ensures |s.l.readers| <= INT_MAX && Signed(|s.l.readers|) == |s.l.readers|
  {
    if s.pc[t] == Reading {
      CountSome(s.pc, {Reading, ReaderGranted}, t);
    } else {
      CountSome(s.pc, {Writing, WriterGranted}, t);
    }
    DistinctSize(s.l.readers);
    assert In(s.pc, {ReaderQueued}) == Elements(s.l.readers);
    CountLess(s.pc, {ReaderQueued}, t);
  }

  /** The state after the holder is taken off. */
  ghost predicate TakenOff(s: State, pc: map<Tid, Doing>, t: Tid) {
    && t in s.pc && s.pc[t] in {Reading, Writing} && pc == s.pc[t := Idle]
  }

  lemma TakeOff(s: State, pc: map<Tid, Doing>, t: Tid)
    requires Inv(s) && TakenOff(s, pc, t)
    ensures |pc| == |s.pc| && NoneAborted(pc)
    ensures Lists(s.l.readers, pc, ReaderQueued) && Lists(s.l.writers, pc, WriterQueued)
    ensures Count(pc, {Reading, ReaderGranted}) == (if s.l.runcount < 0 then 0 else s.l.runcount - 1)
    ensures Count(pc, {Writing, WriterGranted}) == 0
  {
    HolderUnlocks(s, t);
    if s.pc[t] == Reading {
      CountSome(s.pc, {Reading, ReaderGranted}, t);
    } else {
      CountSome(s.pc, {Writing, WriterGranted}, t);
    }
    Moved(s.pc, t, Idle);
    ListsOther(s.l.readers, s.pc, t, Idle, ReaderQueued);
    ListsOther(s.l.writers, s.pc, t, Idle, WriterQueued);
  }

  lemma GrantedSize(pc: map<Tid, Doing>, q: seq<Tid>)
    requires NoneAborted(pc)
    ensures Granted(pc, q).Keys == pc.Keys && |Granted(pc, q)| == |pc| && NoneAborted(Granted(pc, q))
  {
    assert Granted(pc, q).Keys == pc.Keys;
    assert |pc.Keys| == |pc| && |Granted(pc, q).Keys| == |Granted(pc, q)|;
  }

  lemma UnlockKeepsInv(s: State, s': State, t: Tid)
    requires Inv(s) && t in s.pc && UnlockStep(s, s', t)
    ensures Inv(s')
  {
    HolderUnlocks(s, t);
    var pc := s.pc[t := Idle];
    TakeOff(s, pc, t);
    GrantedSize(pc, Unlocked(s.l).granted);
    if s.l.runcount > 1 {
      GrantNobody(pc);
    } else if s.l.writers != [] {
      ToWriter(s, s', pc);
    } else {
      ToReaders(s, s', pc);
    }
  }

  lemma ToWriter(s: State, s': State, pc: map<Tid, Doing>)
    requires Inv(s) && |pc| <= MOST && s.l.writers != [] && NoneAborted(Granted(pc, [s.l.writers[0]]))
    requires Lists(s.l.readers, pc, ReaderQueued) && Lists(s.l.writers, pc, WriterQueued)
    requires Count(pc, {Reading, ReaderGranted}) == Count(pc, {Writing, WriterGranted}) == 0
    requires s' == State(Lock(-1, s.l.readers, s.l.writers[1..]), Granted(pc, [s.l.writers[0]]), s.asked, s.served + [s.l.writers[0]])
    ensures Inv(s')
  {
    GrantWriter(pc, s.l.writers, s.l.readers);
    Moved(pc, s.l.writers[0], WriterGranted);
    HeadServed(s.served, s.l.writers);
  }

  lemma HeadServed(served: seq<Tid>, q: seq<Tid>)
    requires q != []
    ensures served + q == (served + [q[0]]) + q[1..]
  {
  }

  lemma ToReaders(s: State, s': State, pc: map<Tid, Doing>)
    requires Inv(s) && |Granted(pc, s.l.readers)| <= MOST && NoneAborted(Granted(pc, s.l.readers)) && s.l.writers == []
    requires |s.l.readers| <= INT_MAX
    requires Lists(s.l.readers, pc, ReaderQueued) && Lists(s.l.writers, pc, WriterQueued)
    requires Count(pc, {Reading, ReaderGranted}) == Count(pc, {Writing, WriterGranted}) == 0
    requires s' == State(Lock(|s.l.readers|, [], []), Granted(pc, s.l.readers), s.asked, s.served)
    ensures Inv(s')
  {
    GrantReaders(pc, s.l.readers);
    GrantOther(pc, s.l.readers, s.l.writers);
  }

  lemma StepKeepsInv(s: State, s': State, a: Action)
    requires Inv(s) && Step(s, s', a)
    ensures Inv(s')
  {
    match a
    case Read(t) => ReadKeepsInv(s, s', t);
    case Write(t) => WriteKeepsInv(s, s', t);
    case Unlock(t) => UnlockKeepsInv(s, s', t);
    case Wake(t) => WakeKeepsInv(s, s', t);
  }

  /** With at most 2^31 threads the invariant holds in every state of every run;
      in particular no thread has aborted. */
  lemma {:induction false} AlwaysInv(states: seq<State>, i: nat)
    requires Run(states) && |states[0].pc| <= MOST && i < |states|
    ensures Inv(states[i])
  {
    if i == 0 {
      InitInv(states[0]);
    } else {
      AlwaysInv(states, i - 1);
      assert Next(states[i - 1], states[i]);
      var a :| Step(states[i - 1], states[i], a);
      StepKeepsInv(states[i - 1], states[i], a);
    }
  }

  /** A thread with the write lock is the only one with the lock, granted
      threads included. */
  lemma Exclusion(states: seq<State>, i: nat, t: Tid, u: Tid)
    requires Run(states) && |states[0].pc| <= MOST && i < |states|
    requires t in states[i].pc && u in states[i].pc
    requires states[i].pc[t] in {Writing, WriterGranted}
    requires states[i].pc[u] in {Reading, ReaderGranted, Writing, WriterGranted}
    ensures t == u
  {
    AlwaysInv(states, i);
    var pc := states[i].pc;
    CountSome(pc, {Writing, WriterGranted}, t);
    if pc[u] in {Reading, ReaderGranted} {
      CountSome(pc, {Reading, ReaderGranted}, u);
    } else {
      CountOne(pc, {Writing, WriterGranted}, t, u);
    }
  }

  /** Readers share the lock: a reader gets in at once exactly when no writer has the
      lock and the readers can be counted. */
  lemma ReaderEnters(states: seq<State>, i: nat, s: State, s': State, t: Tid)
    requires Run(states) && |states[0].pc| <= MOST && i < |states| && s == states[i]
    requires Step(s, s', Read(t))
    ensures t in s'.pc
    ensures s'.pc[t] == Reading <==>
              (forall u :: u in s.pc ==> s.pc[u] !in {Writing, WriterGranted}) && Count(s.pc, {Reading, ReaderGranted}) < INT_MAX
  {
    AlwaysInv(states, i);
    ReadGoes(s, s', t);
  }

  lemma ReadGoes(s: State, s': State, t: Tid)
    requires Inv(s) && t in s.pc && ReadStep(s, s', t)
    ensures t in s'.pc
    ensures s'.pc[t] == Reading <==>
              (forall u :: u in s.pc ==> s.pc[u] !in {Writing, WriterGranted}) && Count(s.pc, {Reading, ReaderGranted}) < INT_MAX
  {
    NoneIffZero(s.pc, {Writing, WriterGranted});
  }

  /** A writer gets in at once exactly when nobody has the lock. */
  lemma WriterEnters(states: seq<State>, i: nat, s: State, s': State, t: Tid)
    requires Run(states) && |states[0].pc| <= MOST && i < |states| && s == states[i]
    requires Step(s, s', Write(t))
    ensures t in s'.pc
    ensures s'.pc[t] == Writing <==>
              forall u :: u in s.pc ==> s.pc[u] !in {Reading, ReaderGranted, Writing, WriterGranted}
  {
    AlwaysInv(states, i);
    WriteGoes(s, s', t);
  }

  lemma WriteGoes(s: State, s': State, t: Tid)
    requires Inv(s) && t in s.pc && WriteStep(s, s', t)
    ensures t in s'.pc
    ensures s'.pc[t] == Writing <==> forall u :: u in s.pc ==> s.pc[u] !in {Reading, ReaderGranted, Writing, WriterGranted}
  {
    NoneIffZero(s.pc, {Reading, ReaderGranted});
    NoneIffZero(s.pc, {Writing, WriterGranted});
  }

  /** Queued writers get the lock in the order in which they were queued. */
  lemma ServedInOrder(states: seq<State>, i: nat)
    requires Run(states) && |states[0].pc| <= MOST && i < |states|
    ensures states[i].served <= states[i].asked
    ensures states[i].asked[|states[i].served|..] == states[i].l.writers
  {
    AlwaysInv(states, i);
  }

  /** The last holder hands over to the first queued writer alone or, if no writer is
      queued, to every queued reader. */
  lemma HandsOver(s: State, s': State, t: Tid)
    requires Inv(s) && t in s.pc && UnlockStep(s, s', t) && (s.l.runcount == -1 || s.l.runcount == 1)
    ensures s.l.writers != [] ==> s'.pc == s.pc[t := Idle][s.l.writers[0] := WriterGranted] && s'.l.readers == s.l.readers
    ensures s.l.writers == [] ==> s'.l.readers == [] && forall u :: u in s.pc ==>
              s'.pc[u] == if u == t then Idle else if s.pc[u] == ReaderQueued then ReaderGranted else s.pc[u]
  {
    HolderUnlocks(s, t);
    var pc := s.pc[t := Idle];
    TakeOff(s, pc, t);
    if s.l.writers != [] { GrantWriter(pc, s.l.writers, s.l.readers); }
  }

  /** With fewer threads than INT_MAX + 1 the counter cannot fill up, so waiting
      readers always wait for a writer. */
  ghost predicate ReadersWaitForWriter(s: State) { s.l.readers != [] ==> s.l.runcount == -1 }

  lemma {:induction false} AlwaysForWriter(states: seq<State>, i: nat)
    requires Run(states) && |states[0].pc| <= INT_MAX && i < |states|
    ensures Inv(states[i]) && |states[i].pc| <= INT_MAX && ReadersWaitForWriter(states[i])
  {
    AlwaysInv(states, i);
    if i > 0 {
      AlwaysForWriter(states, i - 1);
      var s, s' := states[i - 1], states[i];
      assert Next(s, s');
      var a :| Step(s, s', a);
      StepForWriter(s, s', a);
    }
  }

  lemma StepForWriter(s: State, s': State, a: Action)
    requires Inv(s) && |s.pc| <= INT_MAX && ReadersWaitForWriter(s) && Step(s, s', a)
    ensures |s'.pc| <= INT_MAX && ReadersWaitForWriter(s')
  {
    if a.Unlock? {
      HolderUnlocks(s, a.t);
      TakeOff(s, s.pc[a.t := Idle], a.t);
      GrantedSize(s.pc[a.t := Idle], Unlocked(s.l).granted);
    } else {
      Moved(s.pc, a.t, s'.pc[a.t]);
      if s.pc[a.t] == Idle { CountLess(s.pc, {Reading, ReaderGranted}, a.t); }
    }
  }
}
