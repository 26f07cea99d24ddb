/** The filling pass over the system-dependent strings. */
module SysdepFill {
  import opened Options
  import opened SysdepStrings

  /** Bytes of a string descriptor and of a table entry. */
  const DESC: nat := 16
  const ENTRY: nat := 4

  /** Where a string starts: in the file, or in the block allocated for the strings. */
  datatype Pointer = File(at: nat) | Block(at: nat)

  datatype Desc = Desc(length: nat, pointer: Pointer)

  ghost predicate Within(d: Desc, data: string, block: seq<char>) {
    match d.pointer
    case File(at) => at + d.length <= |data|
    case Block(at) => at + d.length <= |block|
  }

  /** The text that a descriptor stands for. */
  ghost function TextAt(d: Desc, data: string, block: seq<char>): string
    requires Within(d, data, block)
  {
    match d.pointer
    case File(at) => data[at..at + d.length]
    case Block(at) => block[at..at + d.length]
  }

  ghost predicate Shows(d: Desc, data: string, block: seq<char>, text: string) {
    Within(d, data, block) && TextAt(d, data, block) == text
  }

  /** memcpy into the block. */
  method Copy(block: array<char>, mem: nat, text: string)
    requires mem + |text| <= block.Length
    modifies block
    ensures block[..mem + |text|] == old(block[..mem]) + text
  {
    var i := 0;
    while i < |text|
      invariant 0 <= i <= |text|
      invariant block[..mem + i] == old(block[..mem]) + text[..i]
    {
      block[mem + i] := text[i];
      i := i + 1;
    }
  }

  /** Whether a string is usable, as the filling pass decides it. */
  method IsUsable(segs: Segments, values: Values) returns (valid: bool)
    requires !NeedOf(segs, values).Invalid?
    ensures valid == NeedOf(segs, values).Bytes?
  {
    if segs[0].ref != SEGMENTS_END {
      var p := 0;
      while true
        invariant 0 <= p < |segs| && !NeedFrom(segs, values, p).Invalid?
        invariant NeedFrom(segs, values, 0).Bytes? == NeedFrom(segs, values, p).Bytes?
        decreases |segs| - p
      {
        var ref := segs[p].ref;
        if ref == SEGMENTS_END { break; }
        if values[ref].None? { return false; }
        p := p + 1;
      }
    }
    return true;
  }

  /** Puts one string together at mem: its descriptor and the new cursor. */
  method FillString(block: array<char>, mem: nat, data: string, s: Sysdep, values: Values) returns (d: Desc, mem': nat)
    requires Usable(data, s, values) && mem + NeedOf(s.segments, values).n <= block.Length
    modifies block
    ensures mem' == mem + NeedOf(s.segments, values).n
    ensures block[..mem] == old(block[..mem])
    ensures Shows(d, data, block[..mem'], Text(data, s, values))
  {
    var segs := s.segments;
    if segs[0].ref == SEGMENTS_END {
      return Desc(segs[0].size, File(s.offset)), mem;
    }
    mem' := FillSegments(block, mem, data, s, values);
    d := Desc(mem' - mem, Block(mem));
  }

  /** What is left to write is what the spec still has to say. */
  ghost predicate Going(written: string, data: string, at: nat, s: Sysdep, values: Values, p: nat)
    requires Usable(data, s, values)
  {
    && p < |s.segments| && InFile(data, at, s.segments, p) && NeedFrom(s.segments, values, p).Bytes?
    && written + TextFrom(data, at, s.segments, values, p) == Text(data, s, values)
  }

  lemma GoingOn(written: string, data: string, at: nat, s: Sysdep, values: Values, p: nat)
    requires Usable(data, s, values) && s.segments[0].ref != SEGMENTS_END && Going(written, data, at, s, values, p)
    ensures var (size, ref) := (s.segments[p].size, s.segments[p].ref);
            var fixed := data[at..at + size];
            && |written| + |fixed| <= NeedOf(s.segments, values).n
            && (ref == SEGMENTS_END ==> written + fixed == Text(data, s, values))
            && (ref != SEGMENTS_END ==>
                  && |written| + |fixed| + |values[ref].value| <= NeedOf(s.segments, values).n
                  && Going(written + fixed + values[ref].value, data, at + size, s, values, p + 1))
  {
    TextSize(data, s.offset, s.segments, values, 0);
    var size, ref := s.segments[p].size, s.segments[p].ref;
    if ref != SEGMENTS_END {
      Regroup(written, data[at..at + size], values[ref].value, TextFrom(data, at + size, s.segments, values, p + 1));
    }
  }

  lemma Regroup(a: string, b: string, c: string, d: string)
    ensures a + (b + c + d) == a + b + c + d
  {
  }

  /** Copies a text behind what has been written so far. */
  method Append(block: array<char>, mem: nat, text: string, ghost before: string, ghost written: string) returns (mem': nat)
    requires mem + |text| <= block.Length && mem == |before| + |written| && block[..mem] == before + written
    modifies block
    ensures mem' == mem + |text| && block[..mem'] == before + (written + text)
  {
    Copy(block, mem, text);
    mem' := mem + |text|;
    assert (before + written) + text == before + (written + text);
  }

  /** One turn of the copying loop: segment p. */
  method WriteSegment(block: array<char>, mem: nat, data: string, at: nat, s: Sysdep, values: Values, p: nat,
                      ghost before: string, ghost written: string)
    returns (mem': nat, at': nat, more: bool, ghost written': string)
    requires Usable(data, s, values) && s.segments[0].ref != SEGMENTS_END && Going(written, data, at, s, values, p)
    requires |before| + NeedOf(s.segments, values).n <= block.Length
    requires mem == |before| + |written| && mem <= block.Length && block[..mem] == before + written
    modifies block
    ensures more == (s.segments[p].ref != SEGMENTS_END)
    ensures mem' == |before| + |written'| && mem' <= block.Length && block[..mem'] == before + written'
    ensures if more then Going(written', data, at', s, values, p + 1) else written' == Text(data, s, values)
  {
    GoingOn(written, data, at, s, values, p);
    var size, ref := s.segments[p].size, s.segments[p].ref;
    mem', at' := mem, at;
    ghost var fixed := data[at..at + size];
    if size > 0 {
      mem' := Append(block, mem, data[at..at + size], before, written);
      at' := at + size;
    } else {
      assert written + fixed == written;
    }
    written' := written + fixed;
    more := ref != SEGMENTS_END;
    if more {
      mem' := Append(block, mem', values[ref].value, before, written');
      written' := written' + values[ref].value;
    }
  }

  method FillSegments(block: array<char>, start: nat, data: string, s: Sysdep, values: Values) returns (mem: nat)
    requires Usable(data, s, values) && s.segments[0].ref != SEGMENTS_END
    requires start + NeedOf(s.segments, values).n <= block.Length
    modifies block
    ensures mem == start + NeedOf(s.segments, values).n
    ensures block[..mem] == old(block[..start]) + Text(data, s, values)
  {
    mem := start;
    var at: nat, p: nat, more := s.offset, 0, true;
    ghost var before, written: string := block[..start], [];
    assert [] + Text(data, s, values) == Text(data, s, values);
    assert before + [] == before;
    while more
      invariant more ==> Going(written, data, at, s, values, p)
      invariant !more ==> written == Text(data, s, values)
      invariant mem == |before| + |written| && mem <= block.Length && block[..mem] == before + written
      decreases more, |s.segments| - p
    {
      mem, at, more, written := WriteSegment(block, mem, data, at, s, values, p, before, written);
      p := p + 1;
    }
    TextSize(data, s.offset, s.segments, values, 0);
  }

  // ---- all pairs ---------------------------------------------------------------

  ghost predicate PairInFile(data: string, pair: Pair) {
    InFile(data, pair.orig.offset, pair.orig.segments, 0) && InFile(data, pair.trans.offset, pair.trans.segments, 0)
  }

  ghost predicate AllInFile(data: string, pairs: seq<Pair>) {
    forall i :: 0 <= i < |pairs| ==> PairInFile(data, pairs[i])
  }

  /** The two descriptors stand for the two texts of the pair. */
  ghost predicate PairShown(orig: Desc, trans: Desc, data: string, block: seq<char>, pair: Pair, values: Values) {
    && Usable(data, pair.orig, values) && Usable(data, pair.trans, values)
    && Shows(orig, data, block, Text(data, pair.orig, values))
    && Shows(trans, data, block, Text(data, pair.trans, values))
  }

  ghost predicate Tables(orig: seq<Desc>, trans: seq<Desc>, data: string, block: seq<char>, kept: seq<Pair>, values: Values) {
    && |orig| == |trans| == |kept|
    && forall q :: 0 <= q < |kept| ==> PairShown(orig[q], trans[q], data, block, kept[q], values)
  }

  lemma TablesGrow(orig: seq<Desc>, trans: seq<Desc>, data: string, block: seq<char>, kept: seq<Pair>, values: Values,
                   o: Desc, t: Desc, block': seq<char>, pair: Pair)
    requires Tables(orig, trans, data, block, kept, values) && block <= block'
    requires PairShown(o, t, data, block', pair, values)
    ensures Tables(orig + [o], trans + [t], data, block', kept + [pair], values)
  {
    forall q | 0 <= q < |kept| ensures PairShown(orig[q], trans[q], data, block', kept[q], values) {
      ShownLonger(orig[q], trans[q], data, block, block', kept[q], values);
    }
  }

  lemma ShownLonger(o: Desc, t: Desc, data: string, block: seq<char>, block': seq<char>, pair: Pair, values: Values)
    requires PairShown(o, t, data, block, pair, values) && block <= block'
    ensures PairShown(o, t, data, block', pair, values)
  {
  }

  method FillPair(block: array<char>, mem: nat, data: string, pair: Pair, values: Values) returns (o: Desc, t: Desc, mem': nat)
    requires PairInFile(data, pair) && PairNeed(pair, values).Bytes? && mem + PairNeed(pair, values).n <= block.Length
    modifies block
    ensures mem' == mem + PairNeed(pair, values).n
    ensures old(block[..mem]) <= block[..mem']
    ensures PairShown(o, t, data, block[..mem'], pair, values)
  {
    var middle: nat;
    o, middle := FillString(block, mem, data, pair.orig, values);
    ghost var half := block[..middle];
    t, mem' := FillString(block, middle, data, pair.trans, values);
    assert half <= block[..mem'];
  }

  lemma {:induction false} KeptGrows(pairs: seq<Pair>, values: Values, i: nat, j: nat)
    requires i <= j <= |pairs| && NeedTo(pairs, values, j).Bytes?
    ensures NeedTo(pairs, values, i).Bytes? && NeedTo(pairs, values, i).n <= NeedTo(pairs, values, j).n
    ensures Kept(pairs, values, i) <= Kept(pairs, values, j)
    decreases j - i
  {
    if i < j { KeptGrows(pairs, values, i, j - 1); }
  }

  /** Both passes over the pairs; None for an invalid file.  end is the cursor
      after the last string. */
  method Load(pairs: seq<Pair>, values: Values, data: string, hashSize: nat)
    returns (r: Option<(array<Desc>, array<Desc>, array<char>)>, end: nat)
    requires AllInFile(data, pairs)
    ensures r.None? <==> NeedTo(pairs, values, |pairs|).Invalid?
    ensures r.Some? ==>
              var (orig, trans, block) := r.value;
              && Tables(orig[..], trans[..], data, block[..], Kept(pairs, values, |pairs|), values)
              && end == block.Length
  {
    end := 0;
    NeverUndefined(pairs, values, |pairs|);
    var measured := Measure(pairs, values);
    if measured.None? { return None, 0; }
    var (n, need) := measured.value;
    var memneed := hashSize * ENTRY + need + 2 * n * DESC;
    var block := new char[memneed];
    var orig, trans := new Desc[n], new Desc[n];
    var mem := n * DESC + n * DESC + hashSize * ENTRY;
    end := FillAll(block, orig, trans, mem, pairs, values, data);
    assert orig[..] == orig[..n] && trans[..] == trans[..n] && block[..] == block[..end];
    r := Some((orig, trans, block));
  }

  lemma {:induction false} NeverUndefined(pairs: seq<Pair>, values: Values, i: nat)
    requires i <= |pairs|
    ensures !NeedTo(pairs, values, i).Undefined?
  {
    if i > 0 { NeverUndefined(pairs, values, i - 1); }
  }

  method StorePair(block: array<char>, orig: array<Desc>, trans: array<Desc>, k: nat, mem: nat,
                   data: string, pair: Pair, values: Values, ghost kept: seq<Pair>) returns (mem': nat)
    requires PairInFile(data, pair) && PairNeed(pair, values).Bytes? && mem + PairNeed(pair, values).n <= block.Length
    requires k < orig.Length == trans.Length && orig != trans
    requires Tables(orig[..k], trans[..k], data, block[..mem], kept, values)
    modifies block, orig, trans
    ensures mem' == mem + PairNeed(pair, values).n
    ensures Tables(orig[..k + 1], trans[..k + 1], data, block[..mem'], kept + [pair], values)
  {
    ghost var before, o0, t0 := block[..mem], orig[..k], trans[..k];
    var o, t: Desc;
    o, t, mem' := FillPair(block, mem, data, pair, values);
    orig[k], trans[k] := o, t;
    TablesGrow(o0, t0, data, before, kept, values, o, t, block[..mem'], pair);
    assert orig[..k + 1] == o0 + [o] && trans[..k + 1] == t0 + [t];
  }

  method FillAll(block: array<char>, orig: array<Desc>, trans: array<Desc>, start: nat,
                 pairs: seq<Pair>, values: Values, data: string) returns (mem: nat)
    requires AllInFile(data, pairs) && NeedTo(pairs, values, |pairs|).Bytes?
    requires orig.Length == trans.Length == |Kept(pairs, values, |pairs|)| && orig != trans
    requires block.Length == start + NeedTo(pairs, values, |pairs|).n
    modifies block, orig, trans
    ensures mem == block.Length
    ensures Tables(orig[..], trans[..], data, block[..], Kept(pairs, values, |pairs|), values)
  {
    mem := start;
    var k, i := 0, 0;
    while i < |pairs|
      invariant 0 <= i <= |pairs| && NeedTo(pairs, values, i).Bytes?
      invariant k == |Kept(pairs, values, i)| && k <= orig.Length
      invariant mem == start + NeedTo(pairs, values, i).n && mem <= block.Length
      invariant Tables(orig[..k], trans[..k], data, block[..mem], Kept(pairs, values, i), values)
    {
      KeptGrows(pairs, values, i + 1, |pairs|);
      assert PairInFile(data, pairs[i]);
      var valid := IsUsable(pairs[i].orig.segments, values);
      if valid { valid := IsUsable(pairs[i].trans.segments, values); }
      if valid {
        mem := StorePair(block, orig, trans, k, mem, data, pairs[i], values, Kept(pairs, values, i));
        k := k + 1;
      }
      i := i + 1;
    }
    assert k == orig.Length;
    assert orig[..] == orig[..k] && trans[..] == trans[..k] && block[..] == block[..mem];
  }
}
