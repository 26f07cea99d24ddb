/** Any number of threads using one such lock.  A step is one stretch of code
    under the mutex, or a wakeup that nobody asked for. */
module PosixRwLock {
  import opened Threads
  import opened Int32
  import opened PosixRecord

  datatype Doing =
    | Idle
    | ReaderBlocked | ReaderWoken | Reading    // waiting on waiting_readers; signalled; holding
    | WriterBlocked | WriterWoken | Writing

  datatype State = State(l: Record, pc: map<Tid, Doing>)

  datatype Action = Read(t: Tid) | Write(t: Tid) | Unlock(t: Tid) | Spurious(t: Tid)

  ghost predicate Init(s: State) {
    s.l == Record(0, 0) && forall t :: t in s.pc ==> s.pc[t] == Idle
  }

  /** rdlock entered, or continued after a wakeup. */
  ghost predicate ReadStep(s: State, s': State, t: Tid)
    requires t in s.pc
  {
    && s.pc[t] in {Idle, ReaderWoken}
    && s' == if MayRead(s.l) then State(ReadEntry(s.l), s.pc[t := Reading])
             else State(s.l, s.pc[t := ReaderBlocked])
  }

  /** wrlock entered. */
  ghost predicate WriteStep(s: State, s': State, t: Tid)
    requires t in s.pc
  {
    && s.pc[t] == Idle
    && s' == if MayWrite(s.l) then State(WriteEntry(s.l), s.pc[t := Writing])
             else State(QueuedWriter(s.l), s.pc[t := WriterBlocked])
  }

  /** wrlock continued after a wakeup. */
  ghost predicate RetryStep(s: State, s': State, t: Tid)
    requires t in s.pc
  {
    && s.pc[t] == WriterWoken && s.l.waitingWriters > 0
    && s' == if MayWrite(s.l) then State(WriteEntry(DequeuedWriter(s.l)), s.pc[t := Writing])
             else State(s.l, s.pc[t := WriterBlocked])
  }

  /** pthread_cond_signal wakes at least one blocked writer if there is one. */
  ghost predicate Signalled(pc: map<Tid, Doing>, pc': map<Tid, Doing>) {
    && pc'.Keys == pc.Keys
    && (forall t :: t in pc ==> pc'[t] == pc[t] || (pc[t] == WriterBlocked && pc'[t] == WriterWoken))
    && (Someone(pc, {WriterBlocked}) ==> Someone(pc', {WriterWoken}))
  }

  ghost predicate Broadcast(pc: map<Tid, Doing>, pc': map<Tid, Doing>) {
    && pc'.Keys == pc.Keys
    && (forall t :: t in pc ==> pc'[t] == if pc[t] == ReaderBlocked then ReaderWoken else pc[t])
  }

  ghost predicate Woken(wake: Wake, pc: map<Tid, Doing>, pc': map<Tid, Doing>) {
    match wake
    case Nobody => pc' == pc
    case OneWriter => Signalled(pc, pc')
    case AllReaders => Broadcast(pc, pc')
  }

  /** unlock called by a holder. */
  ghost predicate UnlockStep(s: State, s': State, t: Tid)
    requires t in s.pc
  {
    && s.pc[t] in {Reading, Writing}
    && match Unlocked(s.l)
       case None => s' == s
       case Some((l, wake)) => s'.l == l && Woken(wake, s.pc[t := Idle], s'.pc)
  }

  ghost predicate SpuriousStep(s: State, s': State, t: Tid)
    requires t in s.pc
  {
    || (s.pc[t] == ReaderBlocked && s' == State(s.l, s.pc[t := ReaderWoken]))
    || (s.pc[t] == WriterBlocked && s' == State(s.l, s.pc[t := WriterWoken]))
  }

  ghost predicate Step(s: State, s': State, a: Action) {
    && a.t in s.pc
    && match a
       case Read(t) => ReadStep(s, s', t)
       case Write(t) => WriteStep(s, s', t) || RetryStep(s, s', t)
       case Unlock(t) => UnlockStep(s, s', t)
       case Spurious(t) => SpuriousStep(s, s', t)
  }

  ghost predicate Next(s: State, s': State) { exists a :: Step(s, s', a) }

  ghost predicate Run(states: seq<State>) {
    && states != [] && Init(states[0])
    && forall i :: 0 < i < |states| ==> Next(states[i - 1], states[i])
  }

  // ---- what every step keeps ---------------------------------------------------

  /** runcount says who holds the lock. */
  ghost predicate Owned(s: State) {
    && -1 <= s.l.runcount <= INT_MAX
    && Count(s.pc, {Reading}) == (if s.l.runcount < 0 then 0 else s.l.runcount)
    && Count(s.pc, {Writing}) == (if s.l.runcount < 0 then 1 else 0)
  }

  ghost predicate Someone(pc: map<Tid, Doing>, kinds: set<Doing>) { Count(pc, kinds) > 0 }

  ghost predicate WritersCounted(s: State) {
    s.l.waitingWriters == Count(s.pc, {WriterBlocked}) + Count(s.pc, {WriterWoken})
  }

  /** No wakeup is lost: with the lock free, a blocked thread implies that some
      writer has been woken. */
  ghost predicate NoLostWakeup(s: State) {
    (s.l.runcount == 0 && (Someone(s.pc, {ReaderBlocked}) || Someone(s.pc, {WriterBlocked}))) ==>
      Someone(s.pc, {WriterWoken})
  }

  ghost predicate Inv(s: State) { Owned(s) && WritersCounted(s) && NoLostWakeup(s) }

  lemma InitInv(s: State)
    requires Init(s)
    ensures Inv(s)
  {
    CountNone(s.pc, {Reading});
    CountNone(s.pc, {Writing});
    CountNone(s.pc, {ReaderBlocked});
    CountNone(s.pc, {WriterBlocked});
    CountNone(s.pc, {WriterWoken});
  }

  /** One thread moves; every count follows. */
  lemma Moved(pc: map<Tid, Doing>, t: Tid, d: Doing)
    requires t in pc
    ensures Count(pc[t := d], {Reading}) == Count(pc, {Reading}) - One(pc[t] == Reading) + One(d == Reading)
    ensures Count(pc[t := d], {Writing}) == Count(pc, {Writing}) - One(pc[t] == Writing) + One(d == Writing)
    ensures Count(pc[t := d], {ReaderBlocked})
         == Count(pc, {ReaderBlocked}) - One(pc[t] == ReaderBlocked) + One(d == ReaderBlocked)
    ensures Count(pc[t := d], {WriterBlocked})
         == Count(pc, {WriterBlocked}) - One(pc[t] == WriterBlocked) + One(d == WriterBlocked)
    ensures Count(pc[t := d], {WriterWoken})
         == Count(pc, {WriterWoken}) - One(pc[t] == WriterWoken) + One(d == WriterWoken)
  {
    Move(pc, t, d, {Reading});
    Move(pc, t, d, {Writing});
    Move(pc, t, d, {ReaderBlocked});
    Move(pc, t, d, {WriterBlocked});
    Move(pc, t, d, {WriterWoken});
  }

  lemma ReadKeepsInv(s: State, s': State, t: Tid)
    requires Inv(s) && t in s.pc && ReadStep(s, s', t)
    ensures Inv(s')
  {
    Moved(s.pc, t, s'.pc[t]);
  }

  lemma WriteKeepsInv(s: State, s': State, t: Tid)
    requires Inv(s) && t in s.pc && (WriteStep(s, s', t) || RetryStep(s, s', t))
    ensures Inv(s')
  {
    Moved(s.pc, t, s'.pc[t]);
  }

  lemma SpuriousKeepsInv(s: State, s': State, t: Tid)
    requires Inv(s) && t in s.pc && SpuriousStep(s, s', t)
    ensures Inv(s')
  {
    Moved(s.pc, t, s'.pc[t]);
  }

  lemma WakeKeepsCounts(wake: Wake, pc: map<Tid, Doing>, pc': map<Tid, Doing>)
    requires Woken(wake, pc, pc')
    ensures Count(pc', {Reading}) == Count(pc, {Reading}) && Count(pc', {Writing}) == Count(pc, {Writing})
    ensures Count(pc', {WriterBlocked}) + Count(pc', {WriterWoken}) == Count(pc, {WriterBlocked}) + Count(pc, {WriterWoken})
    ensures wake.AllReaders? ==> Count(pc', {ReaderBlocked}) == 0
    ensures wake.OneWriter? && Count(pc, {WriterBlocked}) + Count(pc, {WriterWoken}) > 0 ==> Count(pc', {WriterWoken}) > 0
  {
    if wake.OneWriter? && Count(pc, {WriterBlocked}) == 0 { NoneToWake(pc, pc'); }
    SameKinds(pc, pc', {Reading});
    SameKinds(pc, pc', {Writing});
    SameKinds(pc, pc', {WriterBlocked, WriterWoken});
    Union(pc, WriterBlocked, WriterWoken);
    Union(pc', WriterBlocked, WriterWoken);
    if wake.AllReaders? { CountNone(pc', {ReaderBlocked}); }
  }

  lemma NoneToWake(pc: map<Tid, Doing>, pc': map<Tid, Doing>)
    requires Signalled(pc, pc') && Count(pc, {WriterBlocked}) == 0
    ensures pc' == pc
  {
    forall t | t in pc ensures pc'[t] == pc[t] { CountZero(pc, {WriterBlocked}, t); }
  }

  lemma Union(pc: map<Tid, Doing>, a: Doing, b: Doing)
    requires a != b
    ensures Count(pc, {a, b}) == Count(pc, {a}) + Count(pc, {b})
  {
    assert In(pc, {a, b}) == In(pc, {a}) + In(pc, {b});
    assert In(pc, {a}) !! In(pc, {b});
  }

  /** A holder's unlock never reports EINVAL. */
  lemma HolderUnlocks(s: State, t: Tid)
    requires Inv(s) && t in s.pc && s.pc[t] in {Reading, Writing}
    ensures Unlocked(s.l).Some?
  {
    CountSome(s.pc, {s.pc[t]}, t);
  }

  lemma UnlockKeepsInv(s: State, s': State, t: Tid)
    requires Inv(s) && t in s.pc && UnlockStep(s, s', t)
    ensures Inv(s')
  {
    HolderUnlocks(s, t);
    CountSome(s.pc, {s.pc[t]}, t);
    var pc := s.pc[t := Idle];
    Moved(s.pc, t, Idle);
    WakeKeepsCounts(Unlocked(s.l).value.1, pc, s'.pc);
  }

  lemma StepKeepsInv(s: State, s': State, a: Action)
    requires Inv(s) && Step(s, s', a)
    ensures Inv(s')
  {
    match a
    case Read(t) => ReadKeepsInv(s, s', t);
    case Write(t) => WriteKeepsInv(s, s', t);
    case Unlock(t) => UnlockKeepsInv(s, s', t);
    case Spurious(t) => SpuriousKeepsInv(s, s', t);
  }

  /** The invariant holds in every state of every run. */
  lemma {:induction false} AlwaysInv(states: seq<State>, i: nat)
    requires Run(states) && i < |states|
    ensures Inv(states[i])
  {
    if i == 0 {
      InitInv(states[0]);
    } else {
      AlwaysInv(states, i - 1);
      assert Next(states[i - 1], states[i]);
      var a :| Step(states[i - 1], states[i], a);
      StepKeepsInv(states[i - 1], states[i], a);
    }
  }

  /** A writer holds the lock alone. */
  lemma Exclusion(states: seq<State>, i: nat, t: Tid, u: Tid)
    requires Run(states) && i < |states| && t in states[i].pc && u in states[i].pc
    requires states[i].pc[t] == Writing && states[i].pc[u] in {Reading, Writing}
    ensures t == u
  {
    AlwaysInv(states, i);
    var pc := states[i].pc;
    CountSome(pc, {pc[t]}, t);
    CountSome(pc, {pc[u]}, u);
    CountOne(pc, {Writing}, t, u);
  }

  /** A reader that gets in leaves no writer waiting, woken or not. */
  lemma WritersFirst(states: seq<State>, i: nat, t: Tid, u: Tid)
    requires Run(states) && 0 < i < |states| && t in states[i].pc && u in states[i - 1].pc
    requires Step(states[i - 1], states[i], Read(t)) && states[i].pc[t] == Reading
    ensures states[i - 1].pc[u] !in {WriterBlocked, WriterWoken, Writing}
  {
    ReaderEnters(states, i, t);
  }

  /** Readers share the lock: a reader gets in exactly when no writer waits or holds
      the lock and the readers can be counted. */
  lemma ReaderEnters(states: seq<State>, i: nat, t: Tid)
    requires Run(states) && 0 < i < |states|
    requires Step(states[i - 1], states[i], Read(t))
    ensures var pc := states[i - 1].pc;
            t in pc && t in states[i].pc
            && (states[i].pc[t] == Reading <==>
                  (forall u :: u in pc ==> pc[u] !in {WriterBlocked, WriterWoken, Writing}) && Count(pc, {Reading}) < INT_MAX)
  {
    AlwaysInv(states, i - 1);
    var pc := states[i - 1].pc;
    NoneIffZero(pc, {WriterBlocked});
    NoneIffZero(pc, {WriterWoken});
    NoneIffZero(pc, {Writing});
  }

  /** A writer gets in exactly when nobody holds the lock. */
  lemma WriterEnters(states: seq<State>, i: nat, t: Tid)
    requires Run(states) && 0 < i < |states|
    requires Step(states[i - 1], states[i], Write(t))
    ensures var pc := states[i - 1].pc;
            t in pc && t in states[i].pc
            && (states[i].pc[t] == Writing <==> forall u :: u in pc ==> pc[u] !in {Reading, Writing})
  {
    AlwaysInv(states, i - 1);
    NoneIffZero(states[i - 1].pc, {Reading});
    NoneIffZero(states[i - 1].pc, {Writing});
  }

  /** The last holder wakes some waiting writer if there is one and otherwise all
      waiting readers; any other holder wakes nobody. */
  lemma PassesOn(states: seq<State>, i: nat, t: Tid)
    requires Run(states) && 0 < i < |states|
    requires Step(states[i - 1], states[i], Unlock(t))
    ensures var pc, pc' := states[i - 1].pc, states[i].pc;
            t in pc && pc'.Keys == pc.Keys && pc'[t] == Idle
    ensures var pc, pc' := states[i - 1].pc, states[i].pc;
            if exists u :: u in pc && u != t && pc[u] in {Reading, Writing} then
              pc' == pc[t := Idle]
            else if exists u :: u in pc && pc[u] in {WriterBlocked, WriterWoken} then
              && (exists u :: u in pc' && pc'[u] == WriterWoken)
              && (forall u :: u in pc && u != t ==> pc'[u] == pc[u] || (pc[u] == WriterBlocked && pc'[u] == WriterWoken))
            else
              forall u :: u in pc && u != t ==> pc'[u] == if pc[u] == ReaderBlocked then ReaderWoken else pc[u]
  {
    AlwaysInv(states, i - 1);
    UnlockWakes(states[i - 1], states[i], t);
  }

  lemma UnlockWakes(s: State, s': State, t: Tid)
    requires Inv(s) && t in s.pc && UnlockStep(s, s', t)
    ensures s'.pc.Keys == s.pc.Keys && s'.pc[t] == Idle
    ensures (exists u :: u in s.pc && u != t && s.pc[u] in {Reading, Writing}) ==> s'.pc == s.pc[t := Idle]
    ensures (forall u :: u in s.pc && u != t ==> s.pc[u] !in {Reading, Writing}) ==>
              if exists u :: u in s.pc && s.pc[u] in {WriterBlocked, WriterWoken} then
                Signalled(s.pc[t := Idle], s'.pc) && exists u :: u in s'.pc && s'.pc[u] == WriterWoken
              else Broadcast(s.pc[t := Idle], s'.pc)
  {
    var pc := s.pc[t := Idle];
    HolderUnlocks(s, t);
    CountSome(s.pc, {s.pc[t]}, t);
    Moved(s.pc, t, Idle);
    NoneIffZero(pc, {Reading});
    NoneIffZero(pc, {Writing});
    NoneIffZero(pc, {WriterBlocked});
    NoneIffZero(pc, {WriterWoken});
    WakeKeepsCounts(Unlocked(s.l).value.1, pc, s'.pc);
    NoneIffZero(s'.pc, {WriterWoken});
  }

  // ---- nobody waits for ever ---------------------------------------------------

  /** The steps that need no new caller: woken threads go on, holders unlock. */
  ghost predicate Draining(s: State, s': State) {
    exists a :: Drains(s, s', a)
  }

  ghost predicate Drains(s: State, s': State, a: Action) {
    && Step(s, s', a) && !a.Spurious? && s.pc[a.t] != Idle
  }

  const BUSY := {ReaderBlocked, ReaderWoken, Reading, WriterBlocked, WriterWoken, Writing}
  const WOKEN := {ReaderWoken, WriterWoken}

  /** Each such step either frees a thread or uses up a wakeup. */
  lemma DrainShrinks(s: State, s': State, a: Action)
    requires Inv(s) && Drains(s, s', a)
    ensures Count(s'.pc, BUSY) <= Count(s.pc, BUSY)
    ensures Count(s'.pc, BUSY) == Count(s.pc, BUSY) ==> Count(s'.pc, WOKEN) < Count(s.pc, WOKEN)
  {
    if a.Unlock? {
      HolderUnlocks(s, a.t);
      Move(s.pc, a.t, Idle, BUSY);
      SameKinds(s.pc[a.t := Idle], s'.pc, BUSY);
    } else {
      Move(s.pc, a.t, s'.pc[a.t], BUSY);
      Move(s.pc, a.t, s'.pc[a.t], WOKEN);
    }
  }

  /** Some such step is possible as long as anybody waits or holds the lock. */
  lemma CanDrain(s: State) returns (a: Action, s': State)
    requires Inv(s) && Count(s.pc, BUSY) > 0
    ensures Drains(s, s', a)
  {
    var t: Tid;
    if Count(s.pc, {Reading}) > 0 {
      t := CountPositive(s.pc, {Reading});
      a, s' := UnlockBy(s, t);
    } else if Count(s.pc, {Writing}) > 0 {
      t := CountPositive(s.pc, {Writing});
      a, s' := UnlockBy(s, t);
    } else if Count(s.pc, {WriterWoken}) > 0 {
      t := CountPositive(s.pc, {WriterWoken});
      a, s' := Write(t), State(WriteEntry(DequeuedWriter(s.l)), s.pc[t := Writing]);
    } else {
      t := CountPositive(s.pc, BUSY);
      OnlyReadersWoken(s, t);
      a, s' := Read(t), State(ReadEntry(s.l), s.pc[t := Reading]);
    }
  }

  lemma OnlyReadersWoken(s: State, t: Tid)
    requires Inv(s) && t in s.pc && s.pc[t] in BUSY
    requires Count(s.pc, {Reading}) == Count(s.pc, {Writing}) == Count(s.pc, {WriterWoken}) == 0
    ensures s.pc[t] == ReaderWoken && MayRead(s.l)
  {
    CountZero(s.pc, {Reading}, t);
    CountZero(s.pc, {Writing}, t);
    CountZero(s.pc, {WriterWoken}, t);
    CountZero(s.pc, {WriterBlocked}, t);
    CountZero(s.pc, {ReaderBlocked}, t);
  }

  lemma UnlockBy(s: State, t: Tid) returns (a: Action, s': State)
    requires Inv(s) && t in s.pc && s.pc[t] in {Reading, Writing}
    ensures a == Unlock(t) && Step(s, s', a)
  {
    HolderUnlocks(s, t);
    var (l, wake) := Unlocked(s.l).value;
    var pc := s.pc[t := Idle];
    a := Unlock(t);
    match wake
    case Nobody => s' := State(l, pc);
    case AllReaders =>
      s' := State(l, map u | u in pc :: if pc[u] == ReaderBlocked then ReaderWoken else pc[u]);
    case OneWriter =>
      s' := State(l, map u | u in pc :: if pc[u] == WriterBlocked then WriterWoken else pc[u]);
      if Someone(pc, {WriterBlocked}) {
        var u := CountPositive(pc, {WriterBlocked});
        CountSome(s'.pc, {WriterWoken}, u);
      }
  }

  /** So from every reachable state the lock can be run empty, every waiter
      having had its turn, by steps none of which asks for anything new ... */
  lemma {:induction false} RunsEmpty(s: State) returns (states: seq<State>)
    requires Inv(s)
    ensures states != [] && states[0] == s
    ensures forall i :: 0 < i < |states| ==> Draining(states[i - 1], states[i])
    ensures Count(states[|states| - 1].pc, BUSY) == 0
    decreases Count(s.pc, BUSY), Count(s.pc, WOKEN)
  {
    if Count(s.pc, BUSY) == 0 {
      states := [s];
    } else {
      var a, s' := CanDrain(s);
      DrainShrinks(s, s', a);
      StepKeepsInv(s, s', a);
      var rest := RunsEmpty(s');
      states := [s] + rest;
      assert Draining(states[0], states[1]);
      forall i | 1 < i < |states| ensures Draining(states[i - 1], states[i]) {
        assert states[i - 1] == rest[i - 2] && states[i] == rest[i - 1];
      }
    }
  }

  /** ... and any such sequence of steps, however chosen, comes to an end within a
      bound that its first state fixes. */
  lemma {:induction false} DrainIsBounded(states: seq<State>, n: nat)
    requires n < |states| && Inv(states[0])
    requires forall i :: 0 < i < |states| ==> Draining(states[i - 1], states[i])
    ensures Inv(states[n]) && states[n].pc.Keys == states[0].pc.Keys
    ensures n + Measure(states[n].pc, BUSY, WOKEN) <= Measure(states[0].pc, BUSY, WOKEN)
  {
    if n > 0 {
      DrainIsBounded(states, n - 1);
      var s, s' := states[n - 1], states[n];
      var a :| Drains(s, s', a);
      StepKeepsInv(s, s', a);
      DrainShrinks(s, s', a);
      SameThreads(s, s', a);
      MeasureShrinks(s.pc, s'.pc, BUSY, WOKEN);
    }
  }

  lemma SameThreads(s: State, s': State, a: Action)
    requires Inv(s) && Step(s, s', a)
    ensures s'.pc.Keys == s.pc.Keys && |s'.pc| == |s.pc|
  {
    if a.Unlock? { HolderUnlocks(s, a.t); }
    assert s'.pc.Keys == s.pc.Keys;
    assert |s.pc| == |s.pc.Keys| && |s'.pc| == |s'.pc.Keys|;
  }
}
