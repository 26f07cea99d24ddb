/** What the strings put together at load time are, said by their segments: where the
    first one that cannot be used stands, and what each one contributes to the text. */
module SysdepTexts {
  import opened SysdepStrings

  /** The segment goes on with a value that this system defines. */
  ghost predicate Goes(s: Segment, values: Values) {
    s.ref != 0xFFFF_FFFF && s.ref < |values| && values[s.ref].Some?
  }

  ghost predicate AllGo(segs: Segments, values: Values, p: nat, i: nat)
    requires i <= |segs|
  {
    forall j :: p <= j < i ==> Goes(segs[j], values)
  }

  /** Segment i is the first, from p on, that does not go on. */
  ghost predicate Stops(segs: Segments, values: Values, p: nat, i: nat) {
    p <= i < |segs| && !Goes(segs[i], values) && AllGo(segs, values, p, i)
  }

  /** Bytes that segments p to i - 1 take up: fixed text and values. */
  ghost function Taken(segs: Segments, values: Values, p: nat, i: nat): nat
    requires p <= i <= |segs| && AllGo(segs, values, p, i)
  {
    if p == i then 0
    else
      assert Goes(segs[i - 1], values);
      Taken(segs, values, p, i - 1) + segs[i - 1].size + |values[segs[i - 1].ref].value|
  }

  /** Fixed text of segments p to i - 1. */
  ghost function Fixed(segs: Segments, p: nat, i: nat): nat
    requires p <= i <= |segs|
  {
    if p == i then 0 else Fixed(segs, p, i - 1) + segs[i - 1].size
  }

  lemma {:induction false} TakenFirst(segs: Segments, values: Values, p: nat, i: nat)
    requires p < i <= |segs| && AllGo(segs, values, p, i)
    ensures Taken(segs, values, p, i) == segs[p].size + |values[segs[p].ref].value| + Taken(segs, values, p + 1, i)
    ensures Fixed(segs, p, i) == segs[p].size + Fixed(segs, p + 1, i)
    decreases i - p
  {
    if p + 1 < i { TakenFirst(segs, values, p, i - 1); }
  }

  /** The outcome is decided by the first segment that does not go on: the file is
      invalid if that refers to no value, the string is undefined if its value is, and
      otherwise it is the end, and the need is what there is to copy. */
  lemma {:induction false} NeedByFirst(segs: Segments, values: Values, p: nat) returns (i: nat)
    requires p < |segs|
    ensures Stops(segs, values, p, i)
    ensures NeedFrom(segs, values, p)
         == if segs[i].ref == 0xFFFF_FFFF then Bytes(Taken(segs, values, p, i) + segs[i].size)
            else if segs[i].ref >= |values| then Invalid
            else Undefined
    decreases |segs| - p
  {
    if Goes(segs[p], values) {
      i := NeedByFirst(segs, values, p + 1);
      TakenFirst(segs, values, p, i);
    } else {
      i := p;
    }
  }

  lemma StopsOnce(segs: Segments, values: Values, p: nat, i: nat, j: nat)
    requires Stops(segs, values, p, i) && Stops(segs, values, p, j)
    ensures i == j
  {
  }

  // ---- the text ----------------------------------------------------------------

  ghost predicate Stands(text: string, at: nat, value: string) {
    at + |value| <= |text| && text[at..at + |value|] == value
  }

  /** A segment whose fixed text is at file stands in the text at start: the fixed text
      and then the value, or, for the last one, the end of the text. */
  ghost predicate PieceAt(text: string, start: nat, data: string, file: nat, s: Segment, values: Values) {
    && file + s.size <= |data| && Stands(text, start, data[file..file + s.size])
    && if s.ref == 0xFFFF_FFFF then start + s.size == |text|
       else Goes(s, values) && Stands(text, start + s.size, values[s.ref].value)
  }

  /** Segment k stands in the text behind what those before it take up, and its fixed
      text in the file behind theirs. */
  lemma {:induction false} TextPieces(data: string, at: nat, segs: Segments, values: Values, p: nat, k: nat)
    requires p <= k < |segs| && InFile(data, at, segs, p) && NeedFrom(segs, values, p).Bytes?
    requires AllGo(segs, values, p, k)
    ensures PieceAt(TextFrom(data, at, segs, values, p), Taken(segs, values, p, k), data, at + Fixed(segs, p, k), segs[k], values)
    decreases k - p
  {
    if k == p {
      HeadPiece(data, at, segs, values, p);
    } else {
      assert Goes(segs[p], values);
      var at' := at + segs[p].size;
      TextPieces(data, at', segs, values, p + 1, k);
      TailPiece(TextFrom(data, at, segs, values, p), data[at..at'] + values[segs[p].ref].value,
                TextFrom(data, at', segs, values, p + 1), data, at, segs, values, p, k);
    }
  }

  lemma HeadPiece(data: string, at: nat, segs: Segments, values: Values, p: nat)
    requires p < |segs| && InFile(data, at, segs, p) && NeedFrom(segs, values, p).Bytes?
    ensures PieceAt(TextFrom(data, at, segs, values, p), 0, data, at, segs[p], values)
  {
    if segs[p].ref != 0xFFFF_FFFF {
      FirstPiece(data[at..at + segs[p].size], values[segs[p].ref].value, TextFrom(data, at + segs[p].size, segs, values, p + 1),
                 TextFrom(data, at, segs, values, p));
    }
  }

  lemma TailPiece(text: string, front: string, rest: string, data: string, at: nat, segs: Segments, values: Values, p: nat, k: nat)
    requires p < k < |segs| && AllGo(segs, values, p, k)
    requires Goes(segs[p], values) && |front| == segs[p].size + |values[segs[p].ref].value| && text == front + rest
    requires PieceAt(rest, Taken(segs, values, p + 1, k), data, at + segs[p].size + Fixed(segs, p + 1, k), segs[k], values)
    ensures PieceAt(text, Taken(segs, values, p, k), data, at + Fixed(segs, p, k), segs[k], values)
  {
    TakenFirst(segs, values, p, k);
    PieceShifts(front, rest, text, Taken(segs, values, p + 1, k), data, at + segs[p].size + Fixed(segs, p + 1, k), segs[k], values);
  }

  lemma FirstPiece(fixed: string, v: string, rest: string, text: string)
    requires text == fixed + v + rest
    ensures Stands(text, 0, fixed) && Stands(text, |fixed|, v)
  {
  }

  lemma PieceShifts(front: string, rest: string, text: string, start: nat, data: string, file: nat, s: Segment, values: Values)
    requires text == front + rest && PieceAt(rest, start, data, file, s, values)
    ensures PieceAt(text, |front| + start, data, file, s, values)
  {
    Shifts(front, rest, text, start, data[file..file + s.size]);
    if s.ref != 0xFFFF_FFFF { Shifts(front, rest, text, start + s.size, values[s.ref].value); }
  }

  lemma Shifts(front: string, rest: string, text: string, at: nat, value: string)
    requires text == front + rest && Stands(rest, at, value)
    ensures Stands(text, |front| + at, value)
  {
  }

  // ---- the pairs ---------------------------------------------------------------

  /** Looking at the pair makes the file invalid: by its msgid, or, if that is usable, by
      its translation. */
  ghost predicate Spoils(pair: Pair, values: Values) {
    || NeedOf(pair.orig.segments, values).Invalid?
    || (NeedOf(pair.orig.segments, values).Bytes? && NeedOf(pair.trans.segments, values).Invalid?)
  }

  /** A file is invalid exactly if one of its pairs makes it so. */
  lemma {:induction false} InvalidIff(pairs: seq<Pair>, values: Values, i: nat)
    requires i <= |pairs|
    ensures NeedTo(pairs, values, i).Invalid? <==> exists j :: 0 <= j < i && Spoils(pairs[j], values)
  {
    if i > 0 { InvalidIff(pairs, values, i - 1); }
  }

  /** A pair is kept exactly if both its strings can be put together. */
  lemma {:induction false} KeptIff(pairs: seq<Pair>, values: Values, i: nat, pair: Pair)
    requires i <= |pairs|
    ensures pair in Kept(pairs, values, i) <==>
              pair in pairs[..i] && NeedOf(pair.orig.segments, values).Bytes? && NeedOf(pair.trans.segments, values).Bytes?
  {
    if i > 0 {
      KeptIff(pairs, values, i - 1, pair);
      assert pairs[..i] == pairs[..i - 1] + [pairs[i - 1]];
    }
  }
}
