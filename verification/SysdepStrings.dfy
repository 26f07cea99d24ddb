/** Strings of a catalog that are put together when it is loaded: what each is
    made of, and what the two passes over them have to agree on. */
module SysdepStrings {
  import opened Options

  /** sysdepref of the last segment. */
  const SEGMENTS_END: nat := 0xFFFF_FFFF

  /** size bytes of fixed text, then the value number ref. */
  datatype Segment = Segment(size: nat, ref: nat)

  /** The segments end at the first SEGMENTS_END. */
  type Segments = s: seq<Segment> | |s| > 0 && s[|s| - 1].ref == SEGMENTS_END witness [Segment(0, SEGMENTS_END)]

  /** A string: where its fixed text starts in the file, and its segments. */
  datatype Sysdep = Sysdep(offset: nat, segments: Segments)

  /** A msgid and its translation. */
  datatype Pair = Pair(orig: Sysdep, trans: Sysdep)

  /** Values of the system-dependent segments; None for one that this system does
      not define. */
  type Values = seq<Option<string>>

  datatype Need = Bytes(n: nat) | Undefined | Invalid

  function Plus(n: nat, need: Need): Need {
    if need.Bytes? then Bytes(n + need.n) else need
  }

  /** Memory for the segments from number p on. */
  function NeedFrom(segs: Segments, values: Values, p: nat): Need
    requires p < |segs|
    decreases |segs| - p
  {
    var s := segs[p];
    if s.ref == SEGMENTS_END then Bytes(s.size)
    else if s.ref >= |values| then Invalid
    else if values[s.ref].None? then Undefined
    else Plus(s.size + |values[s.ref].value|, NeedFrom(segs, values, p + 1))
  }

  /** A string of fixed text only stays in the file. */
  function NeedOf(segs: Segments, values: Values): Need {
    if segs[0].ref == SEGMENTS_END then Bytes(0) else NeedFrom(segs, values, 0)
  }

  /** The translation is looked at only when the msgid is usable. */
  function PairNeed(pair: Pair, values: Values): Need {
    var orig := NeedOf(pair.orig.segments, values);
    if orig.Bytes? then Plus(orig.n, NeedOf(pair.trans.segments, values)) else orig
  }

  /** Memory for the first i pairs: Invalid if one of them makes the file invalid. */
  function NeedTo(pairs: seq<Pair>, values: Values, i: nat): Need
    requires i <= |pairs|
  {
    if i == 0 then Bytes(0)
    else
      var before, here := NeedTo(pairs, values, i - 1), PairNeed(pairs[i - 1], values);
      if before.Invalid? || here.Invalid? then Invalid
      else if here.Bytes? then Plus(here.n, before)
      else before
  }

  /** The pairs that stay, of the first i. */
  function Kept(pairs: seq<Pair>, values: Values, i: nat): seq<Pair>
    requires i <= |pairs|
  {
    if i == 0 then []
    else Kept(pairs, values, i - 1) + if PairNeed(pairs[i - 1], values).Bytes? then [pairs[i - 1]] else []
  }

  // ---- the text of a string ----------------------------------------------------

  /** All fixed text of the string lies inside the file. */
  ghost predicate InFile(data: string, at: nat, segs: Segments, p: nat)
    requires p < |segs|
    decreases |segs| - p
  {
    && at + segs[p].size <= |data|
    && (segs[p].ref != SEGMENTS_END ==> InFile(data, at + segs[p].size, segs, p + 1))
  }

  /** The text from segment p on, its fixed part starting at the given place. */
  ghost function TextFrom(data: string, at: nat, segs: Segments, values: Values, p: nat): string
    requires p < |segs| && InFile(data, at, segs, p) && NeedFrom(segs, values, p).Bytes?
    decreases |segs| - p
  {
    var s := segs[p];
    var fixed := data[at..at + s.size];
    if s.ref == SEGMENTS_END then fixed
    else fixed + values[s.ref].value + TextFrom(data, at + s.size, segs, values, p + 1)
  }

  ghost predicate Usable(data: string, s: Sysdep, values: Values) {
    InFile(data, s.offset, s.segments, 0) && NeedOf(s.segments, values).Bytes?
  }

  ghost function Text(data: string, s: Sysdep, values: Values): string
    requires Usable(data, s, values)
  {
    TextFrom(data, s.offset, s.segments, values, 0)
  }

  lemma {:induction false} TextSize(data: string, at: nat, segs: Segments, values: Values, p: nat)
    requires p < |segs| && InFile(data, at, segs, p) && NeedFrom(segs, values, p).Bytes?
    ensures |TextFrom(data, at, segs, values, p)| == NeedFrom(segs, values, p).n
    decreases |segs| - p
  {
    if segs[p].ref != SEGMENTS_END { TextSize(data, at + segs[p].size, segs, values, p + 1); }
  }

  /** The last fixed text of the string, which ends it, ends with a NUL. */
  ghost predicate NulEnded(data: string, at: nat, segs: Segments, p: nat)
    requires p < |segs| && InFile(data, at, segs, p)
    decreases |segs| - p
  {
    var s := segs[p];
    if s.ref == SEGMENTS_END then s.size > 0 && data[at + s.size - 1] == '\0'
    else NulEnded(data, at + s.size, segs, p + 1)
  }

  lemma {:induction false} TextHasNul(data: string, at: nat, segs: Segments, values: Values, p: nat)
    requires p < |segs| && InFile(data, at, segs, p) && NeedFrom(segs, values, p).Bytes?
    requires NulEnded(data, at, segs, p)
    ensures '\0' in TextFrom(data, at, segs, values, p)
    decreases |segs| - p
  {
    var s := segs[p];
    if s.ref == SEGMENTS_END {
      assert data[at..at + s.size][s.size - 1] == '\0';
    } else {
      TextHasNul(data, at + s.size, segs, values, p + 1);
    }
  }

  lemma {:induction false} KeptArePairs(pairs: seq<Pair>, values: Values, i: nat, pair: Pair)
    requires i <= |pairs| && pair in Kept(pairs, values, i)
    ensures pair in pairs
  {
    if pair in Kept(pairs, values, i - 1) { KeptArePairs(pairs, values, i - 1, pair); }
  }

  // ---- the measuring pass ------------------------------------------------------

  method MeasureString(segs: Segments, values: Values) returns (r: Need)
    ensures r == NeedOf(segs, values)
  {
    var need: nat := 0;
    if segs[0].ref != SEGMENTS_END {
      var p := 0;
      while true
        invariant 0 <= p < |segs|
        invariant NeedFrom(segs, values, 0) == Plus(need, NeedFrom(segs, values, p))
        decreases |segs| - p
      {
        need := need + segs[p].size;
        var ref := segs[p].ref;
        if ref == SEGMENTS_END { break; }
        if ref >= |values| { return Invalid; }
        if values[ref].None? { return Undefined; }
        need := need + |values[ref].value|;
        p := p + 1;
      }
    }
    return Bytes(need);
  }

  /** How many pairs stay and how much memory their strings take; None if the
      file is invalid. */
  method Measure(pairs: seq<Pair>, values: Values) returns (r: Option<(nat, nat)>)
    ensures r == match NeedTo(pairs, values, |pairs|)
                 case Bytes(n) => Some((|Kept(pairs, values, |pairs|)|, n))
                 case _ => None
  {
    var count: nat, memneed: nat := 0, 0;
    var i := 0;
    while i < |pairs|
      invariant 0 <= i <= |pairs|
      invariant NeedTo(pairs, values, i) == Bytes(memneed)
      invariant count == |Kept(pairs, values, i)|
    {
      var needs0 := MeasureString(pairs[i].orig.segments, values);
      if needs0.Invalid? {
        InvalidStays(pairs, values, i + 1, |pairs|);
        return None;
      }
      if needs0.Bytes? {
        var needs1 := MeasureString(pairs[i].trans.segments, values);
        if needs1.Invalid? {
          InvalidStays(pairs, values, i + 1, |pairs|);
          return None;
        }
        if needs1.Bytes? {
          count := count + 1;
          memneed := memneed + (needs0.n + needs1.n);
        }
      }
      i := i + 1;
    }
    return Some((count, memneed));
  }

  lemma {:induction false} InvalidStays(pairs: seq<Pair>, values: Values, i: nat, j: nat)
    requires i <= j <= |pairs| && NeedTo(pairs, values, i).Invalid?
    ensures NeedTo(pairs, values, j).Invalid?
    decreases j - i
  {
    if i < j { InvalidStays(pairs, values, i, j - 1); }
  }
}
