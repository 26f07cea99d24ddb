/** Finite sets of threads by what each of them is doing. */
module Threads {
  import opened FiniteSets

  type Tid = nat

  /** The threads whose state is one of those in kinds. */
  ghost function In<S(!new)>(pc: map<Tid, S>, kinds: set<S>): set<Tid> {
    set t | t in pc && pc[t] in kinds
  }

  ghost function Count<S(!new)>(pc: map<Tid, S>, kinds: set<S>): nat { |In(pc, kinds)| }

  function One(b: bool): nat { if b then 1 else 0 }

  /** One thread changes its state. */
  lemma Move<S(!new)>(pc: map<Tid, S>, t: Tid, s: S, kinds: set<S>)
    requires t in pc
    ensures Count(pc[t := s], kinds)
         == Count(pc, kinds) - One(pc[t] in kinds) + One(s in kinds)
  {
    var a, b := In(pc, kinds), In(pc[t := s], kinds);
    if s in kinds { assert b == a + {t}; } else { assert b == a - {t}; }
  }

  lemma CountBound<S(!new)>(pc: map<Tid, S>, kinds: set<S>)
    ensures Count(pc, kinds) <= |pc|
  {
    SubsetSize(In(pc, kinds), pc.Keys);
  }

  /** Goes down whenever fewer threads are busy, or as many but fewer of them wait. */
  ghost function Measure<S(!new)>(pc: map<Tid, S>, busy: set<S>, waiting: set<S>): nat {
    Count(pc, busy) * (|pc| + 1) + Count(pc, waiting)
  }

  lemma MeasureShrinks<S(!new)>(pc: map<Tid, S>, pc': map<Tid, S>, busy: set<S>, waiting: set<S>)
    requires |pc'| == |pc| && Count(pc', busy) <= Count(pc, busy)
    requires Count(pc', busy) == Count(pc, busy) ==> Count(pc', waiting) < Count(pc, waiting)
    ensures Measure(pc', busy, waiting) < Measure(pc, busy, waiting)
  {
    CountBound(pc', waiting);
    MeasureDrops(|pc|, Count(pc, busy), Count(pc', busy), Count(pc, waiting), Count(pc', waiting));
  }

  lemma MeasureDrops(n: nat, b: nat, b': nat, w: nat, w': nat)
    requires w' <= n && (b' < b || (b' == b && w' < w))
    ensures b' * (n + 1) + w' < b * (n + 1) + w
  {
    if b' < b { assert (b' + 1) * (n + 1) <= b * (n + 1); }
  }

  lemma CountLess<S(!new)>(pc: map<Tid, S>, kinds: set<S>, t: Tid)
    requires t in pc && pc[t] !in kinds
    ensures Count(pc, kinds) < |pc|
  {
    SubsetSize(In(pc, kinds), pc.Keys - {t});
  }

  lemma CountZero<S(!new)>(pc: map<Tid, S>, kinds: set<S>, t: Tid)
    requires Count(pc, kinds) == 0 && t in pc
    ensures pc[t] !in kinds
  {
    assert In(pc, kinds) == {};
    assert t !in In(pc, kinds);
  }

  lemma CountPositive<S(!new)>(pc: map<Tid, S>, kinds: set<S>) returns (t: Tid)
    requires Count(pc, kinds) > 0
    ensures t in pc && pc[t] in kinds
  {
    t :| t in In(pc, kinds);
  }

  lemma NoneIffZero<S(!new)>(pc: map<Tid, S>, kinds: set<S>)
    ensures Count(pc, kinds) == 0 <==> forall u :: u in pc ==> pc[u] !in kinds
  {
    if Count(pc, kinds) == 0 {
      forall u | u in pc ensures pc[u] !in kinds { CountZero(pc, kinds, u); }
    } else {
      var u := CountPositive(pc, kinds);
    }
  }

  lemma CountOne<S(!new)>(pc: map<Tid, S>, kinds: set<S>, t: Tid, u: Tid)
    requires Count(pc, kinds) == 1 && t in pc && u in pc && pc[t] in kinds && pc[u] in kinds
    ensures t == u
  {
    if t != u { SubsetSize({t, u}, In(pc, kinds)); }
  }

  /** Thread by thread the same kinds: the same count. */
  lemma SameKinds<S(!new)>(pc: map<Tid, S>, pc': map<Tid, S>, kinds: set<S>)
    requires pc.Keys == pc'.Keys
    requires forall t :: t in pc ==> (pc[t] in kinds <==> pc'[t] in kinds)
    ensures Count(pc, kinds) == Count(pc', kinds)
  {
    assert In(pc, kinds) == In(pc', kinds);
  }

  lemma CountSome<S(!new)>(pc: map<Tid, S>, kinds: set<S>, t: Tid)
    requires t in pc && pc[t] in kinds
    ensures Count(pc, kinds) > 0
  {
    assert t in In(pc, kinds);
  }

  lemma CountNone<S(!new)>(pc: map<Tid, S>, kinds: set<S>)
    requires forall t :: t in pc ==> pc[t] !in kinds
    ensures Count(pc, kinds) == 0
  {
    assert In(pc, kinds) == {};
  }
}
