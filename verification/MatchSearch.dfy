/** The match search of the compressor, specified by what it must find. */
module MatchSearch {
  import opened Bytes

  function Min(a: int, b: int): int { if a <= b then a else b }

  const WINDOW := 0x1000
  const MAX_LINK_LEN := 255 + 18

  /** Every byte at a position in [lo, hi) equals the one `offset` before it. */
  ghost predicate Repeats(input: seq<byte>, offset: nat, lo: nat, hi: nat)
    requires offset <= lo && hi <= |input|
  {
    forall i, j :: lo <= j < hi && i == j - offset ==> input[i] == input[j]
  }

  /** Length of the run of equal bytes at pos and at pos - offset, from k on. */
  function MatchLength(input: seq<byte>, pos: nat, offset: nat, k: nat): (r: nat)
    requires 1 <= offset <= pos && pos + k <= |input|
    ensures k <= r <= |input| - pos
    decreases |input| - pos - k
  {
    if pos + k < |input| && input[pos - offset + k] == input[pos + k]
    then MatchLength(input, pos, offset, k + 1)
    else k
  }

  lemma {:induction false} MatchLengthIs(input: seq<byte>, pos: nat, offset: nat, k: nat)
    requires 1 <= offset <= pos && pos + k <= |input|
    ensures var r := MatchLength(input, pos, offset, k);
            && Repeats(input, offset, pos + k, pos + r)
            && (pos + r < |input| ==> input[pos - offset + r] != input[pos + r])
    decreases |input| - pos - k
  {
    if pos + k < |input| && input[pos - offset + k] == input[pos + k] {
      MatchLengthIs(input, pos, offset, k + 1);
    }
  }

  function Match(input: seq<byte>, pos: nat, offset: nat): nat
    requires 1 <= offset <= pos <= |input|
  {
    MatchLength(input, pos, offset, 0)
  }

  lemma MatchIs(input: seq<byte>, pos: nat, offset: nat, r: nat)
    requires 1 <= offset <= pos && pos + r <= |input|
    requires Repeats(input, offset, pos, pos + r)
    ensures Match(input, pos, offset) >= r
    ensures pos + r < |input| && input[pos - offset + r] != input[pos + r] ==> Match(input, pos, offset) == r
  {
    var m := Match(input, pos, offset);
    MatchLengthIs(input, pos, offset, 0);
    assert pos <= pos + r < pos + m ==> input[pos - offset + r] == input[pos + r];
  }

  /** The offsets the compressor may look back by. */
  function Reach(pos: nat): nat { Min(WINDOW, pos) }

  /** A search stops extending a match here. */
  function Cap(input: seq<byte>, pos: nat): nat
    requires pos < |input|
  {
    Min(MAX_LINK_LEN + 1, |input| - pos)
  }

  /** The match lengths at the offsets 1, 2, ..., limit. */
  function Matches(input: seq<byte>, pos: nat, limit: nat): (r: seq<nat>)
    requires limit <= pos <= |input|
    ensures |r| == limit
  {
    if limit == 0 then [] else Matches(input, pos, limit - 1) + [Match(input, pos, limit)]
  }

  lemma {:induction false} MatchesAt(input: seq<byte>, pos: nat, limit: nat, o: nat)
    requires 1 <= o <= limit <= pos <= |input|
    ensures Matches(input, pos, limit)[o - 1] == Match(input, pos, o)
  {
    if o < limit { MatchesAt(input, pos, limit - 1, o); }
  }

  /** Longest match within the window; 0 at the start of the input. */
  function Longest(input: seq<byte>, pos: nat): (r: nat)
    requires pos <= |input|
  {
    MaxOf(Matches(input, pos, Reach(pos)))
  }

  function MaxOf(s: seq<nat>): nat {
    if s == [] then 0 else Max(MaxOf(s[..|s| - 1]), s[|s| - 1])
  }

  function Max(a: nat, b: nat): nat { if a >= b then a else b }

  lemma {:induction false} MaxOfIs(s: seq<nat>)
    ensures forall i :: 0 <= i < |s| ==> s[i] <= MaxOf(s)
    ensures MaxOf(s) > 0 ==> exists i :: 0 <= i < |s| && s[i] == MaxOf(s)
  {
    if s != [] {
      MaxOfIs(s[..|s| - 1]);
      assert s == s[..|s| - 1] + [s[|s| - 1]];
    }
  }

  /** Among the first `limit` offsets (counted from 1), `offset` is the first one
      whose match, cut at the cap, has the greatest length `best`. */
  ghost predicate FirstBest(matches: seq<nat>, limit: nat, cap: nat, best: nat, offset: nat)
    requires limit <= |matches|
  {
    && (forall i :: 0 <= i < limit ==> Min(matches[i], cap) <= best)
    && offset <= limit && (best > 0 ==> 1 <= offset && Min(matches[offset - 1], cap) == best)
    && (forall i :: 0 <= i < offset - 1 ==> Min(matches[i], cap) < best)
  }

  lemma BestIsCappedMax(matches: seq<nat>, cap: nat, best: nat, offset: nat)
    requires FirstBest(matches, |matches|, cap, best, offset)
    ensures best == Min(MaxOf(matches), cap)
  {
    var m := MaxOf(matches);
    MaxOfIs(matches);
    if m > 0 {
      var i :| 0 <= i < |matches| && matches[i] == m;
      assert Min(matches[i], cap) <= best;
    }
  }

  lemma BestStep(matches: seq<nat>, o: nat, cap: nat, best: nat, offset: nat)
    requires 1 <= o <= |matches| && FirstBest(matches, o - 1, cap, best, offset)
    ensures var c := Min(matches[o - 1], cap);
            FirstBest(matches, o, cap, if c > best then c else best, if c > best then o else offset)
  {
  }

  /** Once the cap is reached the remaining offsets cannot do better. */
  lemma BestAtCap(matches: seq<nat>, o: nat, cap: nat)
    requires 1 <= o <= |matches| && FirstBest(matches, o, cap, cap, o)
    ensures FirstBest(matches, |matches|, cap, cap, o)
  {
  }

  /** The loop over the offsets on the list of match lengths: the count and the
      offset it ends with when offset o is next. */
  function Search(matches: seq<nat>, cap: nat, o: nat, count: nat, offset: nat): (nat, nat)
    requires 1 <= o <= |matches| + 1 && cap > 0
    decreases |matches| + 1 - o
  {
    if o > |matches| then (count, offset)
    else
      var c := Min(matches[o - 1], cap);
      if c == cap then (c - 1, o)
      else if c > count then Search(matches, cap, o + 1, c, o)
      else Search(matches, cap, o + 1, count, offset)
  }

  /** The loop finds the longest match up to its cap, and the first offset having it. */
  lemma {:induction false} SearchFinds(matches: seq<nat>, cap: nat, o: nat, count: nat, offset: nat)
    requires 1 <= o <= |matches| + 1 && FirstBest(matches, o - 1, cap, count, offset) && count < cap
    ensures var (c, first) := Search(matches, cap, o, count, offset);
            && c == Min(MaxOf(matches), cap - 1)
            && (c > 0 ==> FirstBest(matches, |matches|, cap, Min(MaxOf(matches), cap), first))
    decreases |matches| + 1 - o
  {
    if o > |matches| {
      BestIsCappedMax(matches, cap, count, offset);
    } else {
      BestStep(matches, o, cap, count, offset);
      var c := Min(matches[o - 1], cap);
      if c == cap {
        BestAtCap(matches, o, cap);
        BestIsCappedMax(matches, cap, c, o);
      } else if c > count {
        SearchFinds(matches, cap, o + 1, c, o);
      } else {
        SearchFinds(matches, cap, o + 1, count, offset);
      }
    }
  }

  /** The length of the link the compressor settles on at pos. */
  function LinkLength(input: seq<byte>, pos: nat): nat
    requires pos < |input|
  {
    Min(Longest(input, pos), Min(MAX_LINK_LEN, |input| - pos - 1))
  }

  /** One inner while loop: count stops at the first difference or at the cap. */
  method ExtendMatch(input: seq<byte>, pos: nat, offset: nat) returns (count: nat, maxReached: bool)
    requires 1 <= offset <= pos < |input|
    ensures count == Min(Match(input, pos, offset), Cap(input, pos))
    ensures maxReached <==> count == Cap(input, pos)
  {
    count := 0;
    maxReached := false;
    while input[pos - offset + count] == input[pos + count]
      invariant count < Cap(input, pos)
      invariant Repeats(input, offset, pos, pos + count)
      decreases |input| - count
    {
      count := count + 1;
      if count > MAX_LINK_LEN || pos + count >= |input| {
        maxReached := true;
        break;
      }
    }
    MatchIs(input, pos, offset, count);
  }

  /** The for loop over the offsets.  link_offset is left unset in the source
      when nothing matched; here it is then 0. */
  method FindLink(input: seq<byte>, pos: nat) returns (count: nat, offset: nat)
    requires pos < |input|
    ensures count == LinkLength(input, pos)
    ensures count > 0 ==>
              FirstBest(Matches(input, pos, Reach(pos)), Reach(pos), Cap(input, pos),
                        Min(Longest(input, pos), Cap(input, pos)), offset)
  {
    count, offset := 0, 0;
    ghost var matches, cap := Matches(input, pos, Reach(pos)), Cap(input, pos);
    SearchFinds(matches, cap, 1, 0, 0);
    var o := 1;
    while o <= WINDOW && o <= pos
      invariant 1 <= o <= Reach(pos) + 1
      invariant Search(matches, cap, o, count, offset) == Search(matches, cap, 1, 0, 0)
    {
      var c, maxReached := ExtendMatch(input, pos, o);
      MatchesAt(input, pos, Reach(pos), o);
      if maxReached { return c - 1, o; }
      if c > count { count, offset := c, o; }
      o := o + 1;
    }
  }
}
