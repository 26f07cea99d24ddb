/** Nobody waits for ever for want of a wakeup. */
module HandOffProgress {
  import opened Threads
  import opened HandOffRecord
  import opened HandOff

  const BUSY := {ReaderQueued, ReaderGranted, ReaderRetrying, Reading, WriterQueued, WriterGranted, WriterRetrying, Writing}
  const WAITING := BUSY - {Reading, Writing}

  /** A step that needs no new caller and is not an idle turn of a retry loop. */
  ghost predicate Drains(s: State, s': State, a: Action) {
    && Step(s, s', a) && s' != s && s.pc[a.t] != Idle
  }

  ghost predicate Draining(s: State, s': State) { exists a :: Drains(s, s', a) }

  lemma DrainShrinks(s: State, s': State, a: Action)
    requires Inv(s) && Drains(s, s', a)
    ensures Count(s'.pc, BUSY) <= Count(s.pc, BUSY)
    ensures Count(s'.pc, BUSY) == Count(s.pc, BUSY) ==> Count(s'.pc, WAITING) < Count(s.pc, WAITING)
  {
    if a.Unlock? {
      UnlockShrinks(s, s', a.t);
    } else {
      if a.Wake? { WakeKeepsInv(s, s', a.t); }
      Move(s.pc, a.t, s'.pc[a.t], BUSY);
      Move(s.pc, a.t, s'.pc[a.t], WAITING);
    }
  }

  lemma UnlockShrinks(s: State, s': State, t: Tid)
    requires Inv(s) && t in s.pc && UnlockStep(s, s', t)
    ensures Count(s'.pc, BUSY) < Count(s.pc, BUSY)
  {
    HolderUnlocks(s, t);
    Move(s.pc, t, Idle, BUSY);
    var pc := s.pc[t := Idle];
    TakeOff(s, pc, t);
    GrantedStayBusy(pc, s, Unlocked(s.l).granted);
  }

  lemma GrantedStayBusy(pc: map<Tid, Doing>, s: State, granted: seq<Tid>)
    requires Lists(s.l.readers, pc, ReaderQueued) && Lists(s.l.writers, pc, WriterQueued)
    requires forall t :: t in granted ==> t in s.l.readers || t in s.l.writers
    ensures Count(Granted(pc, granted), BUSY) == Count(pc, BUSY)
  {
    SameKinds(pc, Granted(pc, granted), BUSY);
  }

  /** Such a step is possible as long as anybody waits or holds the lock. */
  lemma CanDrain(s: State) returns (a: Action, s': State)
    requires Inv(s) && Count(s.pc, BUSY) > 0
    ensures Drains(s, s', a)
  {
    if Count(s.pc, {Reading, ReaderGranted}) > 0 {
      var t := CountPositive(s.pc, {Reading, ReaderGranted});
      a, s' := HolderMoves(s, t);
    } else if Count(s.pc, {Writing, WriterGranted}) > 0 {
      var t := CountPositive(s.pc, {Writing, WriterGranted});
      a, s' := HolderMoves(s, t);
    } else {
      var t := CountPositive(s.pc, BUSY);
      OnlyRetrying(s, t);
      if s.pc[t] == ReaderRetrying {
        a, s' := Read(t), State(ReadEntry(s.l), s.pc[t := Reading], s.asked, s.served);
      } else {
        a, s' := Write(t), State(WriteEntry(s.l), s.pc[t := Writing], s.asked, s.served);
      }
    }
  }

  lemma OnlyRetrying(s: State, t: Tid)
    requires Inv(s) && t in s.pc && s.pc[t] in BUSY
    requires Count(s.pc, {Reading, ReaderGranted}) == Count(s.pc, {Writing, WriterGranted}) == 0
    ensures s.l.runcount == 0 && s.pc[t] in {ReaderRetrying, WriterRetrying}
  {
    CountZero(s.pc, {Reading, ReaderGranted}, t);
    CountZero(s.pc, {Writing, WriterGranted}, t);
    assert t !in s.l.readers && t !in s.l.writers;
  }

  lemma HolderMoves(s: State, t: Tid) returns (a: Action, s': State)
    requires Inv(s) && t in s.pc && s.pc[t] in {Reading, ReaderGranted, Writing, WriterGranted}
    ensures Drains(s, s', a)
  {
    if s.pc[t] in {Reading, Writing} {
      HolderUnlocks(s, t);
      var u := Unlocked(s.l);
      a := Unlock(t);
      s' := State(u.l, Granted(s.pc[t := Idle], u.granted), s.asked, s.served + if s.l.writers != [] then u.granted else []);
      TakeOff(s, s.pc[t := Idle], t);
      assert s'.pc[t] == Idle;
    } else {
      a := Wake(t);
      s' := State(s.l, s.pc[t := if s.pc[t] == ReaderGranted then Reading else Writing], s.asked, s.served);
      if s.pc[t] == ReaderGranted {
        CountSome(s.pc, {Reading, ReaderGranted}, t);
      } else {
        CountSome(s.pc, {Writing, WriterGranted}, t);
      }
      assert s'.pc[t] != s.pc[t];
    }
  }

  /** From every reachable state the lock can be run empty by steps that ask for
      nothing new: every thread that waits gets its turn. */
  lemma {:induction false} RunsEmpty(s: State) returns (states: seq<State>)
    requires Inv(s)
    ensures states != [] && states[0] == s
    ensures forall i :: 0 < i < |states| ==> Draining(states[i - 1], states[i])
    ensures Count(states[|states| - 1].pc, BUSY) == 0
    decreases Count(s.pc, BUSY), Count(s.pc, WAITING)
  {
    if Count(s.pc, BUSY) == 0 {
      states := [s];
    } else {
      var a, s' := CanDrain(s);
      DrainShrinks(s, s', a);
      StepKeepsInv(s, s', a);
      var rest := RunsEmpty(s');
      states := [s] + rest;
      Prepend(s, rest, states);
    }
  }

  lemma Prepend(s: State, rest: seq<State>, states: seq<State>)
    requires rest != [] && states == [s] + rest && Draining(s, rest[0])
    requires forall i :: 0 < i < |rest| ==> Draining(rest[i - 1], rest[i])
    ensures forall i :: 0 < i < |states| ==> Draining(states[i - 1], states[i])
  {
    forall i | 0 < i < |states| ensures Draining(states[i - 1], states[i]) {
      if i > 1 { assert states[i - 1] == rest[i - 2] && states[i] == rest[i - 1]; }
    }
  }

  /** And every run of such steps, however chosen, comes to an end within a bound that
      its first state fixes. */
  lemma {:induction false} DrainIsBounded(states: seq<State>, n: nat)
    requires n < |states| && Inv(states[0])
    requires forall i :: 0 < i < |states| ==> Draining(states[i - 1], states[i])
    ensures Inv(states[n]) && states[n].pc.Keys == states[0].pc.Keys
    ensures n + Measure(states[n].pc, BUSY, WAITING) <= Measure(states[0].pc, BUSY, WAITING)
  {
    if n > 0 {
      DrainIsBounded(states, n - 1);
      DrainStep(states[n - 1], states[n]);
    }
  }

  lemma DrainStep(s: State, s': State)
    requires Inv(s) && Draining(s, s')
    ensures Inv(s') && s'.pc.Keys == s.pc.Keys
    ensures Measure(s'.pc, BUSY, WAITING) < Measure(s.pc, BUSY, WAITING)
  {
    var a :| Drains(s, s', a);
    StepKeepsInv(s, s', a);
    DrainShrinks(s, s', a);
    SameThreads(s, s', a);
    MeasureShrinks(s.pc, s'.pc, BUSY, WAITING);
  }

  lemma SameThreads(s: State, s': State, a: Action)
    requires Inv(s) && Step(s, s', a)
    ensures s'.pc.Keys == s.pc.Keys && |s'.pc| == |s.pc|
  {
    if a.Unlock? { HolderUnlocks(s, a.t); }
    assert s'.pc.Keys == s.pc.Keys;
    assert |s.pc| == |s.pc.Keys| && |s'.pc| == |s'.pc.Keys|;
  }
}
