/** The order in which double hashing visits a table. */
module Probe {
  import opened Arithmetic
  import opened FiniteSets
  import opened Primes

  function Start(hash: nat, size: nat): nat
    requires size > 2
  {
    hash % size
  }

  function Incr(hash: nat, size: nat): (r: nat)
    requires size > 2
    ensures 0 < r < size
  {
    1 + hash % (size - 2)
  }

  /** The step is congruent to the hash plus one, and leaves out one slot. */
  lemma IncrIs(hash: nat, size: nat)
    requires size > 2
    ensures 1 <= Incr(hash, size) <= size - 2 && (hash + 1 - Incr(hash, size)) % (size - 2) == 0
  {
    DivMod(hash / (size - 2), size - 2, 0);
    assert hash + 1 - Incr(hash, size) == hash / (size - 2) * (size - 2);
  }

  /** One turn of the loop: the step that cannot overflow 32 bits. */
  function Next(idx: nat, incr: nat, size: nat): (r: nat)
    requires idx < size && 0 < incr < size
    ensures r < size
  {
    if idx >= size - incr then idx - (size - incr) else idx + incr
  }

  /** The slot looked at after k steps. */
  function Slot(hash: nat, size: nat, k: nat): (r: nat)
    requires size > 2
    ensures r < size
  {
    if k == 0 then Start(hash, size) else Next(Slot(hash, size, k - 1), Incr(hash, size), size)
  }

  lemma {:induction false} SlotTurns(hash: nat, size: nat, k: nat) returns (q: nat)
    requires size > 2
    ensures Slot(hash, size, k) + q * size == Start(hash, size) + k * Incr(hash, size)
  {
    if k == 0 {
      q := 0;
    } else {
      q := SlotTurns(hash, size, k - 1);
      TimesPlusOne(k - 1, Incr(hash, size));
      if Slot(hash, size, k - 1) >= size - Incr(hash, size) {
        TimesPlusOne(q, size);
        q := q + 1;
      }
    }
  }

  lemma TimesPlusOne(q: nat, size: nat)
    ensures (q + 1) * size == q * size + size
  {
  }

  /** Closed form of the loop. */
  lemma {:induction false} SlotIs(hash: nat, size: nat, k: nat)
    requires size > 2
    ensures Slot(hash, size, k) == (hash % size + k * Incr(hash, size)) % size
  {
    var q := SlotTurns(hash, size, k);
    DivMod(q, size, Slot(hash, size, k));
  }

  /** In a table of prime size no slot comes back before all have been seen. */
  lemma {:induction false} NoRepeat(hash: nat, size: nat, j: nat, k: nat)
    requires size > 2 && Prime(size) && j < k < size
    ensures Slot(hash, size, j) != Slot(hash, size, k)
  {
    if Slot(hash, size, j) == Slot(hash, size, k) {
      var q := SlotTurns(hash, size, j);
      var r := SlotTurns(hash, size, k);
      NoReturn(size, j, k, Incr(hash, size), q, r);
    }
  }

  lemma NoReturn(size: nat, j: nat, k: nat, incr: nat, q: nat, r: nat)
    requires Prime(size) && j < k < size && 0 < incr < size
    ensures r * size - q * size != k * incr - j * incr
  {
    if r * size - q * size == k * incr - j * incr {
      var d: nat := k - j;
      var p := Differences(q, r, size, j, k, d, incr);
      SignOfFactor(r - q, size);
      DividesTimes(size, p, r - q);
      NoSmallFactors(size, d, incr);
      assert false;
    }
  }

  lemma Differences(q: nat, r: nat, size: nat, j: nat, k: nat, d: nat, incr: nat) returns (p: nat)
    requires k == j + d && r * size - q * size == k * incr - j * incr
    ensures p == d * incr && (r - q) * size == p
  {
    p := d * incr;
  }

  ghost function Visited(hash: nat, size: nat, k: nat): set<nat>
    requires size > 2
  {
    set i | 0 <= i < k :: Slot(hash, size, i)
  }

  lemma {:induction false} SeenSize(hash: nat, size: nat, k: nat)
    requires size > 2 && Prime(size) && k <= size
    ensures |Visited(hash, size, k)| == k
  {
    if k > 0 {
      SeenSize(hash, size, k - 1);
      forall i | 0 <= i < k - 1 ensures Slot(hash, size, i) != Slot(hash, size, k - 1) { NoRepeat(hash, size, i, k - 1); }
      assert Slot(hash, size, k - 1) !in Visited(hash, size, k - 1);
      assert Visited(hash, size, k) == Visited(hash, size, k - 1) + {Slot(hash, size, k - 1)};
    }
  }

  /** Some step looks at the slot. */
  ghost predicate Visits(hash: nat, size: nat, slot: nat)
    requires size > 2
  {
    exists k :: 0 <= k < size && Slot(hash, size, k) == slot
  }

  lemma VisitsAll(hash: nat, size: nat, slot: nat)
    requires size > 2 && Prime(size) && slot < size
    ensures Visits(hash, size, slot)
  {
    SeenSize(hash, size, size);
    FirstSize(size);
    if slot !in Visited(hash, size, size) {
      assert Visited(hash, size, size) + {slot} <= First(size);
      SubsetSize(Visited(hash, size, size) + {slot}, First(size));
      assert false;
    }
  }

  /** In a table whose size has the divisor d, the hash d - 1 keeps to slots of
      one residue. */
  lemma {:induction false} KeepsResidue(d: nat, size: nat, k: nat)
    requires 1 < d < size - 1 && Divides(d, size)
    ensures Slot(d - 1, size, k) % d == d - 1 && Slot(d - 1, size, k) > 0
  {
    HashOfDivisor(d, size);
    var q := SlotTurns(d - 1, size, k);
    var m := Quotient(d, size);
    Residue(Slot(d - 1, size, k), q, m, d, k);
  }

  lemma HashOfDivisor(d: nat, size: nat)
    requires 1 < d < size - 1
    ensures Incr(d - 1, size) == d && Start(d - 1, size) == d - 1
  {
    SmallMod(d - 1, size);
    SmallMod(d - 1, size - 2);
  }

  lemma Residue(slot: nat, q: nat, m: nat, d: nat, k: nat)
    requires d > 1 && slot + q * (m * d) == d - 1 + k * d
    ensures slot % d == d - 1 && slot > 0
  {
    assert q * (m * d) == (q * m) * d;
    SignOfRest(slot, q * m, k, d);
    assert slot == (k - q * m) * d + (d - 1);
    DivMod(k - q * m, d, d - 1);
  }

  lemma SignOfRest(slot: nat, t: nat, k: nat, d: nat)
    requires d > 1 && slot + t * d == d - 1 + k * d
    ensures t <= k
  {
    if t > k { MulStep(k, t, d); }
  }

  ghost predicate AlwaysVisitsAll(size: nat)
    requires size > 2
  {
    forall hash, slot: nat :: slot < size ==> Visits(hash, size, slot)
  }

  /** Every hash visits every slot exactly when the size is prime: with any other
      size a free slot can be missed for ever. */
  lemma VisitsAllIffPrime(size: nat)
    requires size > 2
    ensures AlwaysVisitsAll(size) <==> Prime(size)
  {
    if Prime(size) {
      forall hash, slot: nat | slot < size ensures Visits(hash, size, slot) { VisitsAll(hash, size, slot); }
    } else {
      var d :| 1 < d < size && Divides(d, size);
      DivisorBound(d, size);
      if Visits(d - 1, size, 0) {
        var k :| 0 <= k < size && Slot(d - 1, size, k) == 0;
        KeepsResidue(d, size, k);
        assert false;
      }
    }
  }

  lemma DivisorBound(d: nat, size: nat)
    requires 1 < d < size && Divides(d, size)
    ensures d < size - 1
  {
    var q := Quotient(d, size);
    if q >= 2 { MulMono(2, q, d); } else { MulMono(q, 1, d); }
  }
}
