/** How many threads can read at once. */
module PosixSharing {
  import opened FiniteSets
  import opened Threads
  import opened Int32
  import opened PosixRecord
  import opened PosixRwLock

  /** A run by n threads that ends in s. */
  ghost predicate Leads(states: seq<State>, n: nat, s: State) {
    Run(states) && states[0].pc.Keys == First(n) && states[|states| - 1] == s
  }

  ghost predicate Reachable(n: nat, s: State) { exists states :: Leads(states, n, s) }

  lemma OneMore(n: nat, s: State, s': State, a: Action)
    requires Reachable(n, s) && Step(s, s', a)
    ensures Reachable(n, s')
  {
    var states :| Leads(states, n, s);
    var longer := states + [s'];
    forall i | 0 < i < |longer| ensures Next(longer[i - 1], longer[i]) {
      if i < |states| { assert longer[i - 1] == states[i - 1] && longer[i] == states[i]; }
    }
    assert Leads(longer, n, s');
  }

  /** The first k threads read. */
  ghost function Readers(n: nat, k: nat): State {
    State(Record(k, 0), map t | t in First(n) :: if t < k then Reading else Idle)
  }

  /** Any number of threads up to INT_MAX can read at once. */
  lemma {:induction false} ReadersReachable(n: nat, k: nat)
    requires k <= n && k <= INT_MAX
    ensures Reachable(n, Readers(n, k))
  {
    if k == 0 {
      assert Leads([Readers(n, 0)], n, Readers(n, 0));
    } else {
      ReadersReachable(n, k - 1);
      assert Readers(n, k - 1).pc[k - 1 := Reading] == Readers(n, k).pc;
      OneMore(n, Readers(n, k - 1), Readers(n, k), Read(k - 1));
    }
  }

  ghost predicate SharePossible(n: nat, k: nat) {
    exists s :: Reachable(n, s) && Count(s.pc, {Reading}) == k
  }

  /** k of n threads can read at once exactly when there are so many and the counter
      can count them. */
  lemma ShareIffCountable(n: nat, k: nat)
    ensures SharePossible(n, k) <==> k <= n && k <= INT_MAX
  {
    if k <= n && k <= INT_MAX {
      ReadersReachable(n, k);
      assert In(Readers(n, k).pc, {Reading}) == First(k);
      FirstSize(k);
    } else if SharePossible(n, k) {
      var s :| Reachable(n, s) && Count(s.pc, {Reading}) == k;
      var states :| Leads(states, n, s);
      AlwaysInv(states, |states| - 1);
      SameThreadsAlong(states, |states| - 1);
      FirstSize(n);
      SubsetSize(In(s.pc, {Reading}), s.pc.Keys);
      assert false;
    }
  }

  lemma {:induction false} SameThreadsAlong(states: seq<State>, i: nat)
    requires Run(states) && i < |states|
    ensures states[i].pc.Keys == states[0].pc.Keys
  {
    if i > 0 {
      SameThreadsAlong(states, i - 1);
      AlwaysInv(states, i - 1);
      assert Next(states[i - 1], states[i]);
      var a :| Step(states[i - 1], states[i], a);
      SameThreads(states[i - 1], states[i], a);
    }
  }
}
