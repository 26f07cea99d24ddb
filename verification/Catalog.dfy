/** Looking a message up in a loaded catalog, by hash and by binary search. */
module Catalog {
  import opened Options
  import opened CStrings
  import opened Primes
  import opened Probe
  import opened MessageTable

  /** The strings of a catalog.  orig[i] has the recorded length, without the
      final NUL, and may hold a NUL inside (a plural entry); sysdep[i] was put
      together at load time and counts its NUL. */
  datatype Strings = Strings(orig: seq<string>, sysdep: seq<string>)

  function Size(c: Strings): nat { |c.orig| + |c.sysdep| }

  /** The msgid numbered i. */
  function KeyAt(c: Strings, i: nat): string
    requires i < Size(c)
  {
    Key(if i < |c.orig| then c.orig[i] else c.sysdep[i - |c.orig|])
  }

  /** The comparison made on finding i in the table: length first, then strcmp. */
  predicate Matches(c: Strings, i: nat, msgid: string)
    requires i < Size(c)
  {
    if i < |c.orig|
    then |c.orig[i]| >= |msgid| && Strcmp(msgid, KeyAt(c, i)) == 0
    else |c.sysdep[i - |c.orig|]| > |msgid| && Strcmp(msgid, KeyAt(c, i)) == 0
  }

  /** Strings put together from segments end with a NUL. */
  ghost predicate Terminated(c: Strings) {
    forall i :: 0 <= i < |c.sysdep| ==> NUL in c.sysdep[i]
  }

  lemma MatchesIsKey(c: Strings, i: nat, msgid: string)
    requires i < Size(c) && Terminated(c)
    ensures Matches(c, i, msgid) <==> KeyAt(c, i) == msgid
  {
    StrcmpZero(msgid, KeyAt(c, i));
    if i < |c.orig| {
      KeyIs(c.orig[i]);
    } else {
      KeyIs(c.sysdep[i - |c.orig|]);
    }
  }

  /** The table indexes exactly the strings numbered below n, each in its place. */
  ghost predicate Indexes(tab: Table, c: Strings, n: nat, hashOf: string -> nat)
    requires n <= Size(c)
  {
    && (forall s :: 0 <= s < |tab| ==> tab[s] <= n)
    && forall i :: 0 <= i < n ==> IsPlaced(tab, c, i, hashOf)
  }

  ghost predicate IsPlaced(tab: Table, c: Strings, i: nat, hashOf: string -> nat)
    requires i < Size(c)
  {
    Placed(tab, hashOf(KeyAt(c, i)), i + 1)
  }

  /** What a lookup promises, whichever way it is done. */
  ghost predicate Found(c: Strings, msgid: string, r: Option<nat>) {
    match r
    case Some(i) => i < Size(c) && KeyAt(c, i) == msgid
    case None => forall i :: 0 <= i < Size(c) ==> KeyAt(c, i) != msgid
  }

  method FindByHash(c: Strings, tab: Table, msgid: string, hashOf: string -> nat) returns (r: Option<nat>)
    requires Terminated(c) && Indexes(tab, c, Size(c), hashOf) && Stops(tab, hashOf(msgid))
    ensures Found(c, msgid, r)
  {
    var hash := hashOf(msgid);
    ghost var last: nat :| PlacedAt(tab, hash, 0, last);
    var idx, incr := hash % |tab|, 1 + hash % (|tab| - 2);
    ghost var k := 0;
    while tab[idx] != 0
      invariant 0 <= k <= last && incr == Incr(hash, |tab|)
      invariant idx < |tab| && idx == Slot(hash, |tab|, k)
      invariant forall j :: 0 <= j < k ==> OtherAt(c, tab, msgid, hash, j)
      decreases last - k
    {
      var nstr := tab[idx] - 1;
      MatchesIsKey(c, nstr, msgid);
      if Matches(c, nstr, msgid) { return Some(nstr); }
      assert OtherAt(c, tab, msgid, hash, k);
      assert Seen(tab, hash, k) != 0;
      if idx >= |tab| - incr { idx := idx - (|tab| - incr); } else { idx := idx + incr; }
      k := k + 1;
    }
    NotInTable(c, tab, msgid, hashOf, k);
    return None;
  }

  /** Slot number j holds some other string. */
  ghost predicate OtherAt(c: Strings, tab: Table, msgid: string, hash: nat, j: nat) {
    var v := Seen(tab, hash, j);
    0 < v <= Size(c) && KeyAt(c, v - 1) != msgid
  }

  lemma NotInTable(c: Strings, tab: Table, msgid: string, hashOf: string -> nat, k: nat)
    requires Indexes(tab, c, Size(c), hashOf) && Seen(tab, hashOf(msgid), k) == 0
    requires forall j :: 0 <= j < k ==> OtherAt(c, tab, msgid, hashOf(msgid), j)
    ensures Found(c, msgid, None)
  {
    forall i | 0 <= i < Size(c) ensures KeyAt(c, i) != msgid {
      if KeyAt(c, i) == msgid {
        assert IsPlaced(tab, c, i, hashOf);
        var p: nat :| PlacedAt(tab, hashOf(msgid), i + 1, p);
        OtherKey(c, tab, msgid, hashOf(msgid), k, i, p);
      }
    }
  }

  lemma OtherKey(c: Strings, tab: Table, msgid: string, hash: nat, k: nat, i: nat, p: nat)
    requires i < Size(c) && PlacedAt(tab, hash, i + 1, p) && Seen(tab, hash, k) == 0
    requires forall j :: 0 <= j < k ==> OtherAt(c, tab, msgid, hash, j)
    ensures KeyAt(c, i) != msgid
  {
    assert k < p ==> Seen(tab, hash, k) != 0;
    assert OtherAt(c, tab, msgid, hash, p);
  }

  /** msgfmt sorts the strings of a catalog. */
  ghost predicate Sorted(c: Strings) {
    forall i, j :: 0 <= i < j < |c.orig| ==> Before(KeyAt(c, i), KeyAt(c, j))
  }

  method FindBySearch(c: Strings, msgid: string) returns (r: Option<nat>)
    requires Sorted(c) && c.sysdep == []
    ensures Found(c, msgid, r)
  {
    var bottom, top := 0, |c.orig|;
    while bottom < top
      invariant 0 <= bottom <= top <= |c.orig|
      invariant forall i :: 0 <= i < bottom ==> KeyAt(c, i) != msgid
      invariant forall i :: top <= i < |c.orig| ==> KeyAt(c, i) != msgid
      decreases top - bottom
    {
      var act := (bottom + top) / 2;
      var cmp := Strcmp(msgid, KeyAt(c, act));
      Halves(c, msgid, act);
      if cmp < 0 { top := act; }
      else if cmp > 0 { bottom := act + 1; }
      else { return Some(act); }
    }
    return None;
  }

  lemma Halves(c: Strings, msgid: string, act: nat)
    requires Sorted(c) && c.sysdep == [] && act < |c.orig|
    ensures Strcmp(msgid, KeyAt(c, act)) == 0 ==> KeyAt(c, act) == msgid
    ensures Strcmp(msgid, KeyAt(c, act)) < 0 ==> forall i :: act <= i < |c.orig| ==> KeyAt(c, i) != msgid
    ensures Strcmp(msgid, KeyAt(c, act)) > 0 ==> forall i :: 0 <= i <= act ==> KeyAt(c, i) != msgid
  {
    var key := KeyAt(c, act);
    StrcmpZero(msgid, key);
    StrcmpSwap(msgid, key);
    StrcmpZero(msgid, msgid);
  }

  // ---- the two agree -----------------------------------------------------------

  ghost predicate DistinctKeys(c: Strings) {
    forall i, j :: 0 <= i < j < Size(c) ==> KeyAt(c, i) != KeyAt(c, j)
  }

  lemma FoundOnce(c: Strings, msgid: string, r: Option<nat>, q: Option<nat>)
    requires DistinctKeys(c) && Found(c, msgid, r) && Found(c, msgid, q)
    ensures r == q
  {
  }

  lemma SortedIsDistinct(c: Strings)
    requires Sorted(c) && c.sysdep == []
    ensures DistinctKeys(c)
  {
    forall i, j | 0 <= i < j < Size(c) ensures KeyAt(c, i) != KeyAt(c, j) {
      assert Before(KeyAt(c, i), KeyAt(c, j));
      StrcmpZero(KeyAt(c, i), KeyAt(c, j));
    }
  }

  /** With and without its hash table a sorted catalog gives the same answer. */
  method FindBothWays(c: Strings, tab: Table, msgid: string, hashOf: string -> nat) returns (r: Option<nat>, q: Option<nat>)
    requires Sorted(c) && c.sysdep == []
    requires Indexes(tab, c, Size(c), hashOf) && Prime(|tab|) && Free(tab) != {}
    ensures r == q && Found(c, msgid, r)
  {
    PrimeStops(tab, hashOf(msgid));
    r := FindByHash(c, tab, msgid, hashOf);
    q := FindBySearch(c, msgid);
    SortedIsDistinct(c);
    FoundOnce(c, msgid, r, q);
  }

  // ---- loading -----------------------------------------------------------------

  /** The table of the file, then every string put together at load time. */
  method Augment(tab: Table, c: Strings, hashOf: string -> nat) returns (a: array<nat>)
    requires Indexes(tab, c, |c.orig|, hashOf) && Prime(|tab|) && |c.sysdep| < |Free(tab)|
    ensures a.Length == |tab| && Indexes(a[..], c, Size(c), hashOf)
    ensures |Free(a[..])| == |Free(tab)| - |c.sysdep|
  {
    a := CopyTable(tab);
    var i := 0;
    while i < |c.sysdep|
      invariant 0 <= i <= |c.sysdep| && a.Length == |tab|
      invariant Indexes(a[..], c, |c.orig| + i, hashOf)
      invariant |Free(a[..])| == |Free(tab)| - i
    {
      ghost var before: Table := a[..];
      var hash := hashOf(KeyAt(c, |c.orig| + i));
      assert Free(before) != {};
      PrimeStops(before, hash);
      Insert(a, hash, 1 + |c.orig| + i);
      InsertKeepsIndex(before, a[..], c, |c.orig| + i, hashOf);
      i := i + 1;
    }
  }

  method CopyTable(tab: Table) returns (a: array<nat>)
    ensures fresh(a) && a[..] == tab
  {
    a := new nat[|tab|];
    var i := 0;
    while i < |tab|
      invariant 0 <= i <= |tab| && a[..i] == tab[..i]
    {
      a[i] := tab[i];
      i := i + 1;
    }
  }

  lemma InsertKeepsIndex(tab: Table, tab': Table, c: Strings, n: nat, hashOf: string -> nat)
    requires n < Size(c) && Indexes(tab, c, n, hashOf) && Stops(tab, hashOf(KeyAt(c, n)))
    requires tab' == Inserted(tab, hashOf(KeyAt(c, n)), n + 1)
    ensures Indexes(tab', c, n + 1, hashOf) && |Free(tab')| == |Free(tab)| - 1
  {
    var hash := hashOf(KeyAt(c, n));
    var k: nat :| PlacedAt(tab, hash, 0, k);
    var slot := Slot(hash, |tab|, k);
    InsertedIs(tab, hash, n + 1, k);
    NewIsPlaced(tab, hash, n + 1, k);
    OneFewer(tab, slot, n + 1);
    forall i | 0 <= i < n ensures IsPlaced(tab', c, i, hashOf) {
      assert IsPlaced(tab, c, i, hashOf);
      StaysPlaced(tab, slot, n + 1, hashOf(KeyAt(c, i)), i + 1);
    }
  }
}
