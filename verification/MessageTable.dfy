/** The hash table of a message catalog: slot contents are 0 (free) or one plus
    the index of a string. */
module MessageTable {
  import opened Primes
  import opened Probe

  type Table = t: seq<nat> | |t| > 2 witness [0, 0, 0]

  function Seen(tab: Table, hash: nat, k: nat): nat { tab[Slot(hash, |tab|, k)] }

  /** The string numbered v - 1 is found before any free slot. */
  ghost predicate PlacedAt(tab: Table, hash: nat, v: nat, k: nat) {
    Seen(tab, hash, k) == v && forall j :: 0 <= j < k ==> Seen(tab, hash, j) != 0
  }

  ghost predicate Placed(tab: Table, hash: nat, v: nat) {
    exists k: nat :: PlacedAt(tab, hash, v, k)
  }

  /** The probe for this hash comes to a free slot. */
  ghost predicate Stops(tab: Table, hash: nat) { Placed(tab, hash, 0) }

  ghost function Free(tab: Table): set<nat> { set i | 0 <= i < |tab| && tab[i] == 0 }

  lemma {:induction false} FirstFree(tab: Table, hash: nat, k: nat) returns (first: nat)
    requires Seen(tab, hash, k) == 0
    ensures PlacedAt(tab, hash, 0, first) && first <= k
  {
    if j :| 0 <= j < k && Seen(tab, hash, j) == 0 {
      first := FirstFree(tab, hash, j);
    } else {
      first := k;
    }
  }

  /** With a prime size one free slot is enough. */
  lemma PrimeStops(tab: Table, hash: nat)
    requires Prime(|tab|) && Free(tab) != {}
    ensures Stops(tab, hash)
  {
    var slot :| slot in Free(tab);
    VisitsAll(hash, |tab|, slot);
    var k :| 0 <= k < |tab| && Slot(hash, |tab|, k) == slot;
    var first := FirstFree(tab, hash, k);
  }

  ghost predicate AlwaysStops(size: nat) {
    forall tab: Table, hash: nat :: |tab| == size && Free(tab) != {} ==> Stops(tab, hash)
  }

  /** The loops end for every hash and every table with a free slot exactly when
      the size is prime. */
  lemma StopsIffPrime(size: nat)
    requires size > 2
    ensures AlwaysStops(size) <==> Prime(size)
  {
    if Prime(size) {
      forall tab: Table, hash: nat | |tab| == size && Free(tab) != {} ensures Stops(tab, hash) {
        PrimeStops(tab, hash);
      }
    } else {
      var d :| 1 < d < size && Divides(d, size);
      DivisorBound(d, size);
      var tab: Table := [0] + seq(size - 1, _ => 1);
      assert 0 in Free(tab);
      if Stops(tab, d - 1) {
        var k: nat :| PlacedAt(tab, d - 1, 0, k);
        KeepsResidue(d, size, k);
        assert false;
      }
    }
  }

  // ---- insertion ---------------------------------------------------------------

  lemma OnlyFirst(tab: Table, hash: nat, j: nat, k: nat)
    requires PlacedAt(tab, hash, 0, j) && PlacedAt(tab, hash, 0, k)
    ensures j == k
  {
    assert j < k ==> Seen(tab, hash, j) != 0;
    assert k < j ==> Seen(tab, hash, k) != 0;
  }

  ghost function Inserted(tab: Table, hash: nat, v: nat): Table
    requires Stops(tab, hash)
  {
    var k: nat :| PlacedAt(tab, hash, 0, k); tab[Slot(hash, |tab|, k) := v]
  }

  lemma InsertedIs(tab: Table, hash: nat, v: nat, k: nat)
    requires PlacedAt(tab, hash, 0, k)
    ensures Inserted(tab, hash, v) == tab[Slot(hash, |tab|, k) := v]
  {
    var j: nat :| PlacedAt(tab, hash, 0, j) && Inserted(tab, hash, v) == tab[Slot(hash, |tab|, j) := v];
    OnlyFirst(tab, hash, j, k);
  }

  /** Filling a free slot moves nothing that is in its place. */
  lemma StaysPlaced(tab: Table, slot: nat, v: nat, hash: nat, w: nat)
    requires slot < |tab| && tab[slot] == 0 && v > 0 && w > 0 && Placed(tab, hash, w)
    ensures Placed(tab[slot := v], hash, w)
  {
    var k: nat :| PlacedAt(tab, hash, w, k);
    var tab' := tab[slot := v];
    forall j | 0 <= j < k ensures Seen(tab', hash, j) != 0 { assert Seen(tab, hash, j) != 0; }
    assert PlacedAt(tab', hash, w, k);
  }

  lemma NewIsPlaced(tab: Table, hash: nat, v: nat, k: nat)
    requires PlacedAt(tab, hash, 0, k) && v > 0
    ensures Placed(tab[Slot(hash, |tab|, k) := v], hash, v)
  {
    var tab' := tab[Slot(hash, |tab|, k) := v];
    forall j | 0 <= j < k ensures Seen(tab', hash, j) != 0 { assert Seen(tab, hash, j) != 0; }
    assert PlacedAt(tab', hash, v, k);
  }

  lemma OneFewer(tab: Table, slot: nat, v: nat)
    requires slot < |tab| && tab[slot] == 0 && v > 0
    ensures |Free(tab[slot := v])| == |Free(tab)| - 1
  {
    assert Free(tab[slot := v]) == Free(tab) - {slot};
  }

  /** One turn of the insertion loop over the new strings. */
  method Insert(a: array<nat>, hash: nat, v: nat)
    requires a.Length > 2 && Stops(a[..], hash)
    modifies a
    ensures a[..] == Inserted(old(a[..]), hash, v)
  {
    ghost var tab: Table := a[..];
    ghost var last: nat :| PlacedAt(tab, hash, 0, last);
    var idx, incr := hash % a.Length, 1 + hash % (a.Length - 2);
    ghost var k := 0;
    while a[idx] != 0
      invariant 0 <= k <= last && a[..] == tab
      invariant incr == Incr(hash, |tab|) && idx < a.Length && idx == Slot(hash, |tab|, k)
      decreases last - k
    {
      assert Seen(tab, hash, k) != 0;
      if idx >= a.Length - incr { idx := idx - (a.Length - incr); } else { idx := idx + incr; }
      k := k + 1;
    }
    StoppedAtFirst(tab, hash, k, last);
    InsertedIs(tab, hash, v, k);
    a[idx] := v;
    assert a[..] == tab[idx := v];
  }

  lemma StoppedAtFirst(tab: Table, hash: nat, k: nat, last: nat)
    requires PlacedAt(tab, hash, 0, last) && k <= last && Seen(tab, hash, k) == 0
    ensures PlacedAt(tab, hash, 0, k)
  {
    assert k < last ==> Seen(tab, hash, k) != 0;
  }
}
