/** The run-once object: a spin on two counters, then a critical section. */
module Once {
  import opened FiniteSets
  import opened Threads
  import opened Options

  const WORD: nat := 0x1_0000_0000

  /** Where a thread is; each name says what it does next. */
  datatype Doing =
    | Idle                                  // about to read inited; not in a call
    | Increment                             // inited was <= 0
    | Create | Enter | Open | Call | Run | Close | Leave    // the increment gave 0
    | Decrement | Spin | Check | Lock | Unlock | Verify      // it gave something else
    | Returned
    | Aborted                               // by the call at line 1049
    | Faulted                               // entered a critical section never initialised

  /** started is kept as its 32 bits; created, called and finished count calls of
      InitializeCriticalSection and starts and ends of the init function; first
      is the first thread whose increment gave 0. */
  datatype State = State(inited: int, started: nat, owner: Option<Tid>, pc: map<Tid, Doing>,
                         created: nat, called: nat, finished: nat, first: Option<Tid>)

  predicate Init(s: State) {
    && s.inited == -1 && s.started == WORD - 1 && s.owner == None
    && s.created == s.called == s.finished == 0 && s.first == None
    && forall t :: t in s.pc ==> s.pc[t] == Idle
  }

  function Inc(n: nat): nat { if n == WORD - 1 then 0 else n + 1 }

  function Dec(n: nat): nat { if n == 0 then WORD - 1 else n - 1 }

  function At(s: State, t: Tid, d: Doing): State { s.(pc := s.pc[t := d]) }

  /** EnterCriticalSection: blocks while somebody is inside. */
  function Entered(s: State, t: Tid, d: Doing): State {
    if s.created == 0 then At(s, t, Faulted)
    else if s.owner != None then s
    else At(s.(owner := Some(t)), t, d)
  }

  /** Thread t does its next operation on the shared fields. */
  function Advance(s: State, t: Tid): State
    requires t in s.pc
  {
    match s.pc[t]
    case Idle | Returned => At(s, t, if s.inited <= 0 then Increment else Returned)
    case Increment =>
      var n := Inc(s.started);
      if n == 0 then At(s.(started := n, first := if s.first == None then Some(t) else s.first), t, Create)
      else At(s.(started := n), t, Decrement)
    case Create => At(s.(created := s.created + 1, owner := None), t, Enter)
    case Enter => Entered(s, t, Open)
    case Open => At(s.(inited := 0), t, Call)
    case Call => At(s.(called := s.called + 1), t, Run)
    case Run => At(s.(finished := s.finished + 1), t, Close)
    case Close => At(s.(inited := 1), t, Leave)
    case Leave => At(s.(owner := None), t, Returned)
    case Decrement => At(s.(started := Dec(s.started)), t, Spin)
    case Spin => if s.inited < 0 then s else At(s, t, Check)
    case Check => At(s, t, if s.inited <= 0 then Lock else Returned)
    case Lock => Entered(s, t, Unlock)
    case Unlock => At(s.(owner := None), t, Verify)
    case Verify => At(s, t, if s.inited > 0 then Returned else Aborted)
    case Aborted | Faulted => s
  }

  /** The state after the threads have moved in the given order, from an initial
      state s; a thread that s does not know does nothing. */
  function After(s: State, schedule: seq<Tid>): State
    decreases |schedule|
  {
    if schedule == [] then s
    else if schedule[0] in s.pc then After(Advance(s, schedule[0]), schedule[1..])
    else After(s, schedule[1..])
  }

  // ---- what every step keeps ---------------------------------------------------

  /** How far the first thread has got. */
  function Phase(d: Doing): nat {
    match d
    case Create => 1 case Enter => 2 case Open => 3 case Call => 4
    case Run => 5 case Close => 6 case Leave => 7 case Returned => 8
    case _ => 0
  }

  ghost function Progress(s: State): nat {
    if s.first == None || s.first.value !in s.pc then 0 else Phase(s.pc[s.first.value])
  }

  /** The shared fields by how far the first thread has got. */
  ghost predicate Fields(s: State) {
    var p := Progress(s);
    && (s.first != None ==> s.first.value in s.pc && p > 0)
    && s.created == (if p >= 2 then 1 else 0)
    && s.called == (if p >= 5 then 1 else 0)
    && s.finished == (if p >= 6 then 1 else 0)
    && s.inited == (if p <= 3 then -1 else if p <= 6 then 0 else 1)
    && (p <= 2 ==> s.owner == None)
    && (3 <= p <= 7 ==> s.owner == s.first)
    && (p == 8 ==> s.owner != s.first)
  }

  /** started counts those that still have to undo their increment. */
  ghost predicate Counted(s: State) {
    && s.started == (if s.first == None then WORD - 1 else Count(s.pc, {Decrement}))
    && (s.first == None ==> Count(s.pc, {Decrement}) == 0)
    && |s.pc| <= WORD
  }

  /** Where another thread can be. */
  ghost predicate Other(s: State, t: Tid)
    requires t in s.pc
  {
    match s.pc[t]
    case Idle | Increment => true
    case Decrement | Spin => s.first != None
    case Check | Lock => s.inited >= 0
    case Unlock => s.inited == 1 && s.owner == Some(t)
    case Verify | Returned => s.inited == 1
    case _ => false
  }

  ghost predicate Others(s: State) {
    && (forall t :: t in s.pc && Some(t) != s.first ==> Other(s, t))
    && (s.owner != None && s.owner != s.first ==> s.owner.value in s.pc && s.pc[s.owner.value] == Unlock)
  }

  ghost predicate Inv(s: State) { Fields(s) && Counted(s) && Others(s) }

  lemma InitInv(s: State)
    requires Init(s) && |s.pc| <= WORD
    ensures Inv(s)
  {
    CountNone(s.pc, {Decrement});
  }

  lemma SameSize(pc: map<Tid, Doing>, t: Tid, d: Doing)
    requires t in pc
    ensures |pc[t := d]| == |pc| && pc[t := d].Keys == pc.Keys
  {
    assert pc[t := d].Keys == pc.Keys;
    assert |pc.Keys| == |pc| && |pc[t := d].Keys| == |pc[t := d]|;
  }

  /** started stays a count, because a thread that is not counted exists. */
  lemma CountedKept(s: State, t: Tid)
    requires Inv(s) && t in s.pc
    ensures Counted(Advance(s, t))
  {
    MovesOne(s, t);
    var s' := Advance(s, t);
    var d := s'.pc[t];
    SameSize(s.pc, t, d);
    Move(s.pc, t, d, {Decrement});
    if s.first == None {
      assert Other(s, t);
    } else {
      StartedKept(s, t);
    }
  }

  lemma MovesOne(s: State, t: Tid)
    requires t in s.pc
    ensures t in Advance(s, t).pc && Advance(s, t).pc == s.pc[t := Advance(s, t).pc[t]]
  {
    assert s.pc[t := s.pc[t]] == s.pc;
  }

  /** Once somebody is first, started goes up and down with the threads that have
      to undo their increment. */
  lemma StartedKept(s: State, t: Tid)
    requires Inv(s) && t in s.pc && s.first != None
    ensures Advance(s, t).first == s.first
    ensures Advance(s, t).started == s.started + One(Advance(s, t).pc[t] == Decrement) - One(s.pc[t] == Decrement)
  {
    if s.first == Some(t) {
    } else if s.pc[t] == Increment {
      CountTwoLess(s.pc, s.first.value, t);
    } else if s.pc[t] == Decrement {
      CountSome(s.pc, {Decrement}, t);
    }
  }

  lemma CountTwoLess(pc: map<Tid, Doing>, f: Tid, t: Tid)
    requires f in pc && t in pc && f != t && pc[f] != Decrement && pc[t] != Decrement
    ensures Count(pc, {Decrement}) + 2 <= |pc|
  {
    SubsetSize(In(pc, {Decrement}), pc.Keys - {f, t});
  }

  lemma FirstMoves(s: State, t: Tid)
    requires Inv(s) && t in s.pc && s.first == Some(t)
    ensures Fields(Advance(s, t)) && Others(Advance(s, t))
  {
    var s' := Advance(s, t);
    assert s'.first == s.first;
    forall u | u in s'.pc && Some(u) != s'.first ensures Other(s', u) {
      assert Other(s, u);
    }
  }

  lemma OtherMoves(s: State, t: Tid)
    requires Inv(s) && t in s.pc && s.first != None && s.first != Some(t)
    ensures Fields(Advance(s, t)) && Others(Advance(s, t))
  {
    assert Other(s, t);
    CountBelowWord(s, t);
    var s' := Advance(s, t);
    assert s'.first == s.first && Progress(s') == Progress(s);
    OthersStay(s, t, s');
  }

  lemma OthersStay(s: State, t: Tid, s': State)
    requires Inv(s) && t in s.pc && s.first != None && s.first != Some(t) && s' == Advance(s, t)
    requires s.pc[t] == Increment ==> Inc(s.started) != 0
    ensures Others(s')
  {
    assert Other(s, t);
    forall u | u in s'.pc && Some(u) != s'.first ensures Other(s', u) {
      assert Other(s, u);
    }
  }

  lemma CountBelowWord(s: State, t: Tid)
    requires Inv(s) && t in s.pc && s.first != None && s.first != Some(t)
    ensures s.pc[t] == Increment ==> Inc(s.started) != 0
  {
    if s.pc[t] == Increment { CountTwoLess(s.pc, s.first.value, t); }
  }

  /** Before anybody is first. */
  lemma EarlyMoves(s: State, t: Tid)
    requires Inv(s) && t in s.pc && s.first == None
    ensures Fields(Advance(s, t)) && Others(Advance(s, t))
  {
    assert Other(s, t);
    var s' := Advance(s, t);
    forall u | u in s'.pc && Some(u) != s'.first ensures Other(s', u) {
      assert Other(s, u);
    }
  }

  lemma AdvanceKeepsInv(s: State, t: Tid)
    requires Inv(s) && t in s.pc
    ensures Inv(Advance(s, t))
  {
    CountedKept(s, t);
    if s.first == None { EarlyMoves(s, t); }
    else if s.first == Some(t) { FirstMoves(s, t); }
    else { OtherMoves(s, t); }
  }

  lemma {:induction false} AfterKeepsInv(s: State, schedule: seq<Tid>)
    requires Inv(s)
    ensures Inv(After(s, schedule))
    decreases |schedule|
  {
    if schedule != [] {
      if schedule[0] in s.pc {
        AdvanceKeepsInv(s, schedule[0]);
        AfterKeepsInv(Advance(s, schedule[0]), schedule[1..]);
      } else {
        AfterKeepsInv(s, schedule[1..]);
      }
    }
  }

  /** With at most 2^32 threads, whatever the schedule: the init function is never
      called twice, no thread aborts or enters an uninitialised critical section,
      and a call that has returned found the init function finished. */
  lemma RunsOnce(s: State, schedule: seq<Tid>, t: Tid)
    requires Init(s) && |s.pc| <= WORD
    ensures var e := After(s, schedule);
            && e.created <= 1 && e.finished <= e.called <= 1
            && (t in e.pc ==> e.pc[t] !in {Aborted, Faulted})
            && (t in e.pc && e.pc[t] == Returned ==> e.called == e.finished == 1)
  {
    InitInv(s);
    AfterKeepsInv(s, schedule);
    var e := After(s, schedule);
    if t in e.pc && Some(t) != e.first { assert Other(e, t); }
  }

  // ---- every call can return ---------------------------------------------------

  /** How far a thread in a call is from returning, the first thread left aside. */
  function Distance(d: Doing): nat {
    match d
    case Increment => 7 case Decrement => 6 case Spin => 5 case Check => 4
    case Lock => 3 case Unlock => 2 case Verify => 1
    case _ => 0
  }

  /** Whose turn helps t: the first thread, then whoever holds the critical
      section that t wants, then t. */
  ghost function Helper(s: State, t: Tid): Tid {
    if s.first == None || t !in s.pc then t
    else if Progress(s) < 8 then s.first.value
    else if s.pc[t] == Lock && s.owner != None then s.owner.value
    else t
  }

  ghost predicate InCall(s: State, t: Tid) { t in s.pc && s.pc[t] !in {Idle, Returned} }

  ghost function Held(s: State): nat { if s.owner == None then 0 else 1 }

  /** The first thread got on, or t did, or the critical section came free. */
  ghost predicate Nearer(s: State, s': State, t: Tid) {
    && t in s.pc && t in s'.pc
    && ( || Progress(s') > Progress(s)
         || (Progress(s') == Progress(s) == 8 && Distance(s'.pc[t]) < Distance(s.pc[t]))
         || (Progress(s') == Progress(s) == 8 && s'.pc[t] == s.pc[t] && Held(s') < Held(s)))
  }

  lemma HelperHelps(s: State, t: Tid)
    requires Inv(s) && InCall(s, t)
    ensures InCall(s, Helper(s, t)) && Nearer(s, Advance(s, Helper(s, t)), t)
  {
    if s.first == None { assert Other(s, t); }
    else if Progress(s) < 8 { FirstHelps(s, t); }
    else if s.pc[t] == Lock && s.owner != None { HolderHelps(s, t); }
    else { HelpsItself(s, t); }
  }

  lemma FirstHelps(s: State, t: Tid)
    requires Inv(s) && InCall(s, t) && 0 < Progress(s) < 8
    ensures InCall(s, s.first.value) && Nearer(s, Advance(s, s.first.value), t)
  {
  }

  lemma HolderHelps(s: State, t: Tid)
    requires Inv(s) && InCall(s, t) && Progress(s) == 8 && s.pc[t] == Lock && s.owner != None
    ensures InCall(s, s.owner.value) && Nearer(s, Advance(s, s.owner.value), t)
  {
  }

  lemma HelpsItself(s: State, t: Tid)
    requires Inv(s) && InCall(s, t) && Progress(s) == 8 && (s.pc[t] == Lock ==> s.owner == None)
    ensures Nearer(s, Advance(s, t), t)
  {
    assert Other(s, t);
    CountBelowWord(s, t);
  }

  /** From every reachable state any call can be run to its return by threads that
      are themselves in a call. */
  lemma {:induction false} CallReturns(s: State, t: Tid) returns (schedule: seq<Tid>)
    requires Inv(s) && InCall(s, t)
    ensures t in After(s, schedule).pc && After(s, schedule).pc[t] == Returned
    decreases 8 - Progress(s), Distance(s.pc[t]), Held(s)
  {
    var u := Helper(s, t);
    HelperHelps(s, t);
    AdvanceKeepsInv(s, u);
    var s' := Advance(s, u);
    if s'.pc[t] == Returned {
      schedule := [u];
      assert After(s', []) == s';
    } else {
      var rest := CallReturns(s', t);
      schedule := [u] + rest;
      assert schedule[1..] == rest;
    }
  }

  // ---- how many threads it can stand -------------------------------------------

  /** Thread 0 is about to initialise; k others have incremented. */
  ghost function Wave(n: nat, k: nat): State {
    State(-1, k, None, map t | t in First(n) :: if t == 0 then Create else if t <= k then Decrement else Idle, 0, 0, 0, Some(0))
  }

  ghost function Asleep(n: nat): State {
    State(-1, WORD - 1, None, map t | t in First(n) :: Idle, 0, 0, 0, None)
  }

  lemma {:induction false} AfterConcat(s: State, a: seq<Tid>, b: seq<Tid>)
    ensures After(s, a + b) == After(After(s, a), b)
    decreases |a|
  {
    if a == [] {
      assert a + b == b;
    } else {
      assert (a + b)[1..] == a[1..] + b;
      AfterConcat(if a[0] in s.pc then Advance(s, a[0]) else s, a[1..], b);
    }
  }

  lemma Twice(s: State, t: Tid)
    requires t in s.pc
    ensures t in Advance(s, t).pc && After(s, [t, t]) == Advance(Advance(s, t), t)
  {
    assert [t, t][1..] == [t] && [t][1..] == [];
    assert After(Advance(s, t), [t]) == Advance(Advance(s, t), t);
  }

  lemma {:induction false} WaveReachable(n: nat, k: nat) returns (schedule: seq<Tid>)
    requires k < WORD && k < n
    ensures After(Asleep(n), schedule) == Wave(n, k)
  {
    if k == 0 {
      schedule := [0, 0];
      Twice(Asleep(n), 0);
      assert Advance(Advance(Asleep(n), 0), 0).pc == Wave(n, 0).pc;
    } else {
      var before := WaveReachable(n, k - 1);
      schedule := before + [k, k];
      AfterConcat(Asleep(n), before, [k, k]);
      Twice(Wave(n, k - 1), k);
      assert Advance(Advance(Wave(n, k - 1), k), k).pc == Wave(n, k).pc;
    }
  }

  /** Whoever saw its increment give 0 goes on to call the init function. */
  lemma CreatorCalls(s: State, t: Tid)
    requires t in s.pc && s.pc[t] == Create
    ensures After(s, [t, t, t, t]).called == s.called + 1
    ensures After(s, [t, t, t, t]).pc == s.pc[t := Run]
  {
    assert [t, t, t, t] == [t, t] + [t, t];
    AfterConcat(s, [t, t], [t, t]);
    Twice(s, t);
    Twice(After(s, [t, t]), t);
  }

  ghost predicate CallsTwice(s: State, schedule: seq<Tid>) { After(s, schedule).called > 1 }

  ghost predicate TwicePossible(n: nat) {
    exists s, schedule :: Init(s) && s.pc.Keys == First(n) && CallsTwice(s, schedule)
  }

  lemma WrapCallsTwice(n: nat)
    requires n > WORD
    ensures TwicePossible(n)
  {
    var s, w := Asleep(n), Wave(n, WORD - 1);
    var wave := WaveReachable(n, WORD - 1);
    var rest := WaveCallsTwice(n);
    AfterConcat(s, wave, rest);
    assert CallsTwice(s, wave + rest);
  }

  lemma WaveCallsTwice(n: nat) returns (schedule: seq<Tid>)
    requires n > WORD
    ensures After(Wave(n, WORD - 1), schedule).called > 1
  {
    var w := Wave(n, WORD - 1);
    Twice(w, WORD);
    var v := After(w, [WORD, WORD]);
    var both := TwoCreators(v, 0, WORD);
    AfterConcat(w, [WORD, WORD], both);
    schedule := [WORD, WORD] + both;
  }

  /** Two threads that are both about to initialise both call the init function. */
  lemma TwoCreators(v: State, t: Tid, u: Tid) returns (schedule: seq<Tid>)
    requires t != u && t in v.pc && u in v.pc && v.pc[t] == v.pc[u] == Create
    ensures After(v, schedule).called == v.called + 2
  {
    CreatorCalls(v, t);
    CreatorCalls(After(v, [t, t, t, t]), u);
    AfterConcat(v, [t, t, t, t], [u, u, u, u]);
    schedule := [t, t, t, t] + [u, u, u, u];
  }

  /** The init function can be called twice exactly when there are more than 2^32
      threads. */
  lemma TwiceIffTooMany(n: nat)
    ensures TwicePossible(n) <==> n > WORD
  {
    if n > WORD {
      WrapCallsTwice(n);
    } else if TwicePossible(n) {
      var s, schedule :| Init(s) && s.pc.Keys == First(n) && CallsTwice(s, schedule);
      FirstSize(n);
      assert |s.pc.Keys| == |s.pc|;
      RunsOnce(s, schedule, 0);
      assert false;
    }
  }
}
