/** How many threads the hand-off lock can stand. */
module HandOffLimits {
  import opened FiniteSets
  import opened Threads
  import opened Int32
  import opened HandOffRecord
  import opened HandOff

  /** A run by n threads that ends in s. */
  ghost predicate Leads(states: seq<State>, n: nat, s: State) {
    Run(states) && states[0].pc.Keys == First(n) && states[|states| - 1] == s
  }

  ghost predicate Reachable(n: nat, s: State) { exists states :: Leads(states, n, s) }

  ghost predicate AbortPossible(n: nat) {
    exists s :: Reachable(n, s) && !NoneAborted(s.pc)
  }

  lemma OneMore(n: nat, s: State, s': State, a: Action)
    requires Reachable(n, s) && Step(s, s', a)
    ensures Reachable(n, s')
  {
    var states :| Leads(states, n, s);
    var longer := states + [s'];
    forall i | 0 < i < |longer| ensures Next(longer[i - 1], longer[i]) {
      if i < |states| { assert longer[i - 1] == states[i - 1] && longer[i] == states[i]; }
    }
    assert Leads(longer, n, s');
  }

  /** A writer holds the lock and the next k threads wait to read. */
  ghost function Crowd(n: nat, k: nat): State {
    State(Lock(-1, seq(k, i => i + 1), []), CrowdDoes(n, k), [], [])
  }

  ghost function CrowdDoes(n: nat, k: nat): map<Tid, Doing> {
    map t | t in First(n) :: if t == 0 then Writing else if t <= k then ReaderQueued else Idle
  }

  lemma {:induction false} CrowdReachable(n: nat, k: nat)
    requires k < n
    ensures Reachable(n, Crowd(n, k))
  {
    if k == 0 {
      var start := State(Lock(0, [], []), map t | t in First(n) :: Idle, [], []);
      assert Leads([start], n, start);
      assert start.pc[0 := Writing] == CrowdDoes(n, 0);
      OneMore(n, start, Crowd(n, 0), Write(0));
    } else {
      CrowdReachable(n, k - 1);
      CrowdGrows(n, k);
      OneMore(n, Crowd(n, k - 1), Crowd(n, k), Read(k));
    }
  }

  lemma CrowdGrows(n: nat, k: nat)
    requires 0 < k < n
    ensures Step(Crowd(n, k - 1), Crowd(n, k), Read(k))
  {
    assert CrowdDoes(n, k - 1)[k := ReaderQueued] == CrowdDoes(n, k);
    assert seq(k - 1, i => i + 1) + [k] == seq(k, i => i + 1);
  }

  /** The writer's unlock makes runcount negative, and the first reader to wake
      aborts. */
  lemma CrowdAborts(n: nat)
    requires n > MOST
    ensures AbortPossible(n)
  {
    CrowdReachable(n, MOST);
    var s := Crowd(n, MOST);
    var s' := CrowdReleased(n);
    OneMore(n, s, s', Unlock(0));
    var s'' := State(s'.l, s'.pc[1 := Aborted], [], []);
    assert Step(s', s'', Wake(1));
    OneMore(n, s', s'', Wake(1));
    assert s''.pc[1] == Aborted;
  }

  lemma CrowdReleased(n: nat) returns (s': State)
    requires n > MOST
    ensures Step(Crowd(n, MOST), s', Unlock(0)) && s'.l.runcount < 0 && s'.asked == s'.served == []
    ensures 1 in s'.pc && s'.pc[1] == ReaderGranted
  {
    var s := Crowd(n, MOST);
    var granted := Unlocked(s.l).granted;
    s' := State(Lock(Signed(MOST), [], []), Granted(s.pc[0 := Idle], granted), [], []);
    assert granted[0] == 1;
  }

  /** Threads that only unlock what they hold can be driven into abort exactly
      when there are more than 2^31 of them. */
  lemma AbortIffTooMany(n: nat)
    ensures AbortPossible(n) <==> n > MOST
  {
    if n > MOST {
      CrowdAborts(n);
    } else if AbortPossible(n) {
      var s :| Reachable(n, s) && !NoneAborted(s.pc);
      var states: seq<State> :| Leads(states, n, s);
      FirstSize(n);
      assert |states[0].pc.Keys| == |states[0].pc|;
      AlwaysInv(states, |states| - 1);
      assert false;
    }
  }

  // ---- readers that wait for readers -------------------------------------------

  /** The first k threads read. */
  ghost function Readers(n: nat, k: nat): State
    requires k <= INT_MAX
  {
    State(Lock(k, [], []), map t | t in First(n) :: if t < k then Reading else Idle, [], [])
  }

  lemma {:induction false} ReadersReachable(n: nat, k: nat)
    requires k <= n && k <= INT_MAX
    ensures Reachable(n, Readers(n, k))
  {
    if k == 0 {
      assert Leads([Readers(n, 0)], n, Readers(n, 0));
    } else {
      ReadersReachable(n, k - 1);
      assert Readers(n, k - 1).pc[k - 1 := Reading] == Readers(n, k).pc;
      OneMore(n, Readers(n, k - 1), Readers(n, k), Read(k - 1));
    }
  }

  /** Some reader may have to wait although no writer holds the lock. */
  ghost predicate ReaderWaitPossible(n: nat) {
    exists s :: Reachable(n, s) && !ReadersWaitForWriter(s)
  }

  /** One reader more than the counter can count has to wait. */
  lemma OneTooMany(n: nat)
    requires n > INT_MAX
    ensures ReaderWaitPossible(n)
  {
    ReadersReachable(n, INT_MAX);
    var s, t := Readers(n, INT_MAX), INT_MAX;
    var s' := State(Lock(INT_MAX, [t], []), s.pc[t := ReaderQueued], [], []);
    assert !MayRead(s.l) && s.pc[t] == Idle && s.l.readers + [t] == [t];
    OneMore(n, s, s', Read(t));
  }

  /** Waiting readers always wait for a writer exactly when the counter can count all
      the threads. */
  lemma WaitsForReadersIffTooMany(n: nat)
    ensures ReaderWaitPossible(n) <==> n > INT_MAX
  {
    if n > INT_MAX {
      OneTooMany(n);
    } else if ReaderWaitPossible(n) {
      var s :| Reachable(n, s) && !ReadersWaitForWriter(s);
      var states: seq<State> :| Leads(states, n, s);
      FirstSize(n);
      assert |states[0].pc.Keys| == |states[0].pc|;
      AlwaysForWriter(states, |states| - 1);
      assert false;
    }
  }
}
