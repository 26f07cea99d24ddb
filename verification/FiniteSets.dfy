module FiniteSets {

  lemma {:induction false} SubsetSize<T>(a: set<T>, b: set<T>)
    requires a <= b
    ensures |a| <= |b|
    decreases |a|
  {
    if a != {} {
      var x :| x in a;
      SubsetSize(a - {x}, b - {x});
    }
  }

  ghost predicate Below(t: nat, n: nat) { t < n }

  /** The first n numbers. */
  ghost function First(n: nat): set<nat> { set t: nat | t < n && Below(t, n) }

  lemma {:induction false} FirstSize(n: nat)
    ensures |First(n)| == n
  {
    if n > 0 {
      FirstSize(n - 1);
      assert First(n) == First(n - 1) + {n - 1};
    }
  }
}
