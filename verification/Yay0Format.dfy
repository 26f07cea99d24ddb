/** The compressed file, byte by byte: its mark, its header fields, and what a token
    looks like in the three streams; and how greedy the compressor is. */
module Yay0Format {
  import opened Bytes
  import opened Masks
  import opened MatchSearch
  import opened Yay0Tokens
  import opened Yay0Decoder
  import opened Yay0RoundTrip

  /** "Yay0", the size, and where the links and the chunks start: behind as many bytes
      of masks as the tokens need, and behind as many links.  Each is cut to 32 bits. */
  lemma HeaderBytes(input: seq<byte>, c: seq<byte>, ts: seq<Token>, m: nat)
    requires c == Compressed(input) && ts == Tokens(input, 0) && m == (|ts| + 7) / 8
    ensures |c| >= 16 && c[..4] == [0x59, 0x61, 0x79, 0x30]
    ensures ReadBe32(c, 4) == |input| % U32
    ensures ReadBe32(c, 8) == (16 + m) % U32 && ReadBe32(c, 12) == (16 + m + |Links(ts)|) % U32
  {
    HeaderOf(|input|, ts, PackBits(Bits(ts)), c, m);
  }

  lemma HeaderOf(n: nat, ts: seq<Token>, masks: seq<word>, c: seq<byte>, m: nat)
    requires masks == PackBits(Bits(ts)) && c == Container(n, masks, Links(ts), Chunks(ts)) && m == (|ts| + 7) / 8
    ensures |c| >= 16 && c[..4] == [0x59, 0x61, 0x79, 0x30]
    ensures ReadBe32(c, 4) == n % U32 && ReadBe32(c, 8) == (16 + m) % U32 && ReadBe32(c, 12) == (16 + m + |Links(ts)|) % U32
  {
    PackBitsPacks(Bits(ts));
    assert |masks| == m;
    ContainerMark(n, masks, Links(ts), Chunks(ts), c);
    ContainerHeader(c, n, masks, Links(ts), Chunks(ts), 16 + m, 16 + m + |Links(ts)|);
  }

  lemma ContainerMark(n: nat, masks: seq<word>, links: seq<byte>, chunks: seq<byte>, c: seq<byte>)
    requires c == Container(n, masks, links, chunks)
    ensures |c| >= 16 && c[..4] == [0x59, 0x61, 0x79, 0x30]
  {
    assert c[..4] == MAGIC;
  }

  /** A file that starts otherwise is refused, and no other. */
  lemma RefusedIff(input: seq<byte>)
    ensures Decompressed(input) == NotYay0 <==>
              || (|input| > 0 && input[0] != 0x59) || (|input| > 1 && input[1] != 0x61)
              || (|input| > 2 && input[2] != 0x79) || (|input| > 3 && input[3] != 0x30)
    ensures |input| < 16 && Decompressed(input) != NotYay0 ==> Decompressed(input) == Invalid
  {
    assert HeaderFault(input, 4) != NotYay0;
    assert HeaderFault(input, 3) == NotYay0 <==> |input| > 3 && input[3] != 0x30;
    assert HeaderFault(input, 2) == NotYay0 <==> |input| > 2 && (input[2] != 0x79 || HeaderFault(input, 3) == NotYay0);
    assert HeaderFault(input, 1) == NotYay0 <==> |input| > 1 && (input[1] != 0x61 || HeaderFault(input, 2) == NotYay0);
    if |input| >= 16 { NeverRefused(input, ReadBe32(input, 4), Cursor(0, ReadBe32(input, 8), ReadBe32(input, 12), [])); }
  }

  lemma {:induction false} NeverRefused(input: seq<byte>, finalSize: nat, c: Cursor)
    ensures DecodeFrom(input, finalSize, c) != NotYay0
    decreases finalSize - |c.out|
  {
    if |c.out| < finalSize && ReadToken(input, c).Next? { NeverRefused(input, finalSize, ReadToken(input, c).c); }
  }

  // ---- one token ---------------------------------------------------------------

  /** Which bit of its byte of the masks stands for a token, the k-th of eight. */
  function MaskOf(k: nat): bv8 {
    if k == 0 then 0x80 else if k == 1 then 0x40 else if k == 2 then 0x20 else if k == 3 then 0x10
    else if k == 4 then 0x08 else if k == 5 then 0x04 else if k == 6 then 0x02 else 0x01
  }

  lemma TopBitIs(b: bv8, k: nat)
    requires k < 8
    ensures TopBit(b, k) <==> b & MaskOf(k) != 0
  {
    if k == 0 {
    } else if k == 1 {
    } else if k == 2 {
      assert TopBit(b, 2) == TopBit(b << 1, 1);
    }
  }

  /** A literal is a set bit and one byte of the chunks. */
  lemma LiteralBytes(c: seq<byte>, lb: nat, kb: nat, before: seq<Token>, b: byte, after: seq<Token>)
    requires Holds(c, before + ([Literal(b)] + after), lb, kb)
    ensures 16 + |before| / 8 < |c| && BitAt(c, 16, |before|)
    ensures kb + |Chunks(before)| < |c| && c[kb + |Chunks(before)|] == b
  {
    BytesOfToken(c, lb, kb, before, Literal(b), after);
    FirstByte(c, kb + |Chunks(before)|, b);
  }

  /** A link is a clear bit and two bytes of the links: four bits of count - 2, or 0 for
      a count of 18 or more, and twelve bits of offset - 1.  From 18 on the count minus
      18 is a byte of the chunks. */
  lemma LinkBytesAre(c: seq<byte>, lb: nat, kb: nat, before: seq<Token>, offset: nat, count: nat, after: seq<Token>)
    requires Holds(c, before + ([Link(offset, count)] + after), lb, kb)
    requires 1 <= offset <= 0x1000 && 3 <= count <= 273
    ensures 16 + |before| / 8 < |c| && !BitAt(c, 16, |before|)
    ensures var p := lb + |Links(before)|;
            && p + 1 < |c|
            && c[p] as int / 16 == (if count < 18 then count - 2 else 0)
            && c[p] as int % 16 * 256 + c[p + 1] as int == offset - 1
    ensures count >= 18 ==> kb + |Chunks(before)| < |c| && c[kb + |Chunks(before)|] as int == count - 18
  {
    var t, p, k := Link(offset, count), lb + |Links(before)|, kb + |Chunks(before)|;
    BytesOfToken(c, lb, kb, before, t, after);
    FirstTwo(c, p, LinkBytes(t));
    WordBytes(offset, count);
    if count >= 18 { LongByte(c, k, offset, count); }
  }

  /** Bit number i of the masks, highest bit first. */
  lemma MaskBit(c: seq<byte>, i: nat, b: bv8)
    requires 16 + i / 8 < |c| && b == c[16 + i / 8] as bv8
    ensures BitAt(c, 16, i) <==> b & MaskOf(i % 8) != 0
  {
    TopBitIs(b, i % 8);
  }

  lemma FirstTwo(c: seq<byte>, p: nat, s: seq<byte>)
    requires |s| == 2 && p + 2 <= |c| && c[p..p + 2] == s
    ensures c[p] == s[0] && c[p + 1] == s[1]
  {
    assert c[p] == c[p..p + 2][0] && c[p + 1] == c[p..p + 2][1];
  }

  lemma LongByte(c: seq<byte>, k: nat, offset: nat, count: nat)
    requires 18 <= count <= 273 && k + 1 <= |c| && c[k..k + 1] == ChunkBytes(Link(offset, count))
    ensures c[k] as int == count - 18
  {
    FirstByte(c, k, Low8(count - 18));
  }

  lemma WordBytes(offset: nat, count: nat)
    requires 1 <= offset <= 0x1000 && 3 <= count <= 273
    ensures var s := Be16(LinkWord(offset, count));
            && s[0] as int / 16 == (if count < 18 then count - 2 else 0)
            && s[0] as int % 16 * 256 + s[1] as int == offset - 1
  {
    var head := if count < 18 then count - 2 else 0;
    WordSplit(head, offset - 1, (offset - 1) / 256, (offset - 1) % 256);
  }

  lemma WordSplit(head: nat, o: nat, high: nat, low: nat)
    requires head < 16 && o < 0x1000 && o == high * 256 + low && low < 256
    ensures Low8(head * 0x1000 + o) as int == low && Low8((head * 0x1000 + o) / 256) as int == head * 16 + high
  {
    assert (head * 0x1000 + o) / 256 == head * 16 + high;
  }

  // ---- reading any file --------------------------------------------------------

  /** Where a link says to copy from, and how far. */
  function OffsetAt(input: seq<byte>, p: nat): nat
    requires p + 1 < |input|
  {
    input[p] as int % 16 * 256 + input[p + 1] as int + 1
  }

  lemma WordAt(input: seq<byte>, p: nat)
    requires p + 1 < |input|
    ensures ReadBe16(input, p) % 0x1000 + 1 == OffsetAt(input, p) && ReadBe16(input, p) / 0x1000 == input[p] as int / 16
  {
    var a, b := input[p] as int, input[p + 1] as int;
    assert a == a / 16 * 16 + a % 16;
    assert a * 256 + b == a / 16 * 0x1000 + (a % 16 * 256 + b);
  }

  /** Reading stops exactly where a stream ends or a link points behind the start. */
  lemma ReadingStops(input: seq<byte>, c: Cursor)
    ensures ReadToken(input, c) == Stop <==>
              if 16 + c.taken / 8 >= |input| then true
              else if BitAt(input, 16, c.taken) then c.chunks >= |input|
              else if c.links + 1 >= |input| then true
              else (input[c.links] as int / 16 == 0 && c.chunks >= |input|) || OffsetAt(input, c.links) > |c.out|
  {
    if c.links + 1 < |input| { WordAt(input, c.links); }
  }

  /** A literal adds its byte. */
  lemma ReadingLiteral(input: seq<byte>, c: Cursor)
    requires ReadToken(input, c).Next? && BitAt(input, 16, c.taken)
    ensures c.chunks < |input|
    ensures var d := ReadToken(input, c).c;
            d.taken == c.taken + 1 && d.links == c.links && d.chunks == Wrap32(c.chunks + 1) && d.out == c.out + [input[c.chunks]]
  {
  }

  /** A link of 2 to 17 bytes, or with the next chunk 18 to 273, adds as many bytes, each
      the one that far before it. */
  lemma ReadingLink(input: seq<byte>, c: Cursor)
    requires ReadToken(input, c).Next? && !BitAt(input, 16, c.taken)
    ensures c.links + 1 < |input| && (input[c.links] as int / 16 == 0 ==> c.chunks < |input|)
    ensures var d := ReadToken(input, c).c;
            && d.taken == c.taken + 1 && d.links == Wrap32(c.links + 2)
            && d.chunks == (if input[c.links] as int / 16 == 0 then Wrap32(c.chunks + 1) else c.chunks)
            && |d.out| == |c.out| + (if input[c.links] as int / 16 == 0 then input[c.chunks] as int + 18 else input[c.links] as int / 16 + 2)
            && Repeated(c.out, d.out, OffsetAt(input, c.links))
  {
    WordAt(input, c.links);
    ReplayRepeats(c.out, OffsetAt(input, c.links),
                  if input[c.links] as int / 16 == 0 then input[c.chunks] as int + 18 else input[c.links] as int / 16 + 2);
  }

  ghost predicate Repeated(before: seq<byte>, after: seq<byte>, offset: nat) {
    && before <= after && 1 <= offset <= |before|
    && forall i, j :: |before| <= j < |after| && i == j - offset ==> after[j] == after[i]
  }

  lemma {:induction false} ReplayRepeats(out: seq<byte>, offset: nat, count: nat)
    requires 1 <= offset <= |out|
    ensures Repeated(out, Replay(out, offset, count), offset)
    decreases count
  {
    if count > 0 {
      var next := out + [out[|out| - offset]];
      ReplayRepeats(next, offset, count - 1);
      assert Replay(out, offset, count)[|out|] == next[|out|];
      assert Replay(out, offset, count)[|out| - offset] == next[|out| - offset];
    }
  }

  // ---- greed -------------------------------------------------------------------

  /** The n bytes from pos on are there already, o bytes before. */
  ghost predicate Run(input: seq<byte>, pos: nat, o: nat, n: nat) {
    1 <= o <= pos && o <= 0x1000 && pos + n <= |input| && input[pos..pos + n] == input[pos - o..pos - o + n]
  }

  lemma RunIs(input: seq<byte>, pos: nat, o: nat, n: nat)
    requires pos < |input| && 1 <= o <= pos && o <= 0x1000
    ensures Run(input, pos, o, n) <==> n <= Match(input, pos, o)
  {
    MatchLengthIs(input, pos, o, 0);
    if pos + n <= |input| { RunRepeats(input, pos, o, n); }
    if Run(input, pos, o, n) { MatchIs(input, pos, o, n); }
  }

  lemma RunRepeats(input: seq<byte>, pos: nat, o: nat, n: nat)
    requires 1 <= o <= pos && o <= 0x1000 && pos + n <= |input|
    ensures Run(input, pos, o, n) <==> Repeats(input, o, pos, pos + n)
  {
    var here, there := input[pos..pos + n], input[pos - o..pos - o + n];
    if Run(input, pos, o, n) {
      forall i, j | pos <= j < pos + n && i == j - o ensures input[i] == input[j] {
        assert input[j] == here[j - pos] && input[i] == there[j - pos];
      }
    }
    if Repeats(input, o, pos, pos + n) {
      assert here == there;
    }
  }

  /** The token at pos is the longest link that there can be, of at most 273 bytes and
      short of the end of the input, and a literal exactly if that has less than three
      bytes. */
  lemma Greedy(input: seq<byte>, pos: nat)
    requires pos < |input|
    ensures var t := TokenAt(input, pos);
            && (t.Link? ==> 3 <= t.count <= 273 && pos + t.count < |input| && Run(input, pos, t.offset, t.count))
            && (t.Literal? ==> t.b == input[pos])
            && forall o, n: nat :: Run(input, pos, o, n) && n <= 273 && pos + n < |input| ==>
                 n <= if t.Link? then t.count else 2
  {
    TokenAtFits(input, pos);
    var t := TokenAt(input, pos);
    if t.Link? { LinkRuns(input, pos, t); }
    forall o, n: nat | Run(input, pos, o, n) && n <= 273 && pos + n < |input| ensures n <= if t.Link? then t.count else 2 {
      RunBound(input, pos, o, n);
    }
  }

  lemma LinkRuns(input: seq<byte>, pos: nat, t: Token)
    requires pos < |input| && t == TokenAt(input, pos) && t.Link?
    ensures Run(input, pos, t.offset, t.count)
  {
    TokenAtFits(input, pos);
    RunRepeats(input, pos, t.offset, t.count);
  }

  /** Its offset is the smallest one with the longest run, where runs are compared up to
      274 bytes and, there, up to the end of the input. */
  lemma SmallestOffset(input: seq<byte>, pos: nat, t: Token) returns (best: nat)
    requires pos < |input| && t == TokenAt(input, pos) && t.Link?
    ensures best == t.count || best == t.count + 1
    ensures best <= 274 && Run(input, pos, t.offset, best)
    ensures forall o, n: nat :: Run(input, pos, o, n) && n <= 274 ==> n <= best
    ensures forall o :: 1 <= o < t.offset ==> !Run(input, pos, o, best)
  {
    var matches, cap := Matches(input, pos, Reach(pos)), Cap(input, pos);
    best := Min(Longest(input, pos), cap);
    BestRuns(input, pos, t, best);
    forall o, n: nat | Run(input, pos, o, n) && n <= 274 ensures n <= best { RunBound(input, pos, o, n); }
    forall o | 1 <= o < t.offset ensures !Run(input, pos, o, best) {
      NoneBefore(matches, cap, best, 1, o);
      ShorterRun(input, pos, o, best);
    }
  }

  lemma ShorterRun(input: seq<byte>, pos: nat, o: nat, best: nat)
    requires pos < |input| && 1 <= o <= Reach(pos) && best == Min(Longest(input, pos), Cap(input, pos))
    requires Min(Matches(input, pos, Reach(pos))[o - 1], Cap(input, pos)) != best
    ensures !Run(input, pos, o, best)
  {
    RunIs(input, pos, o, best);
    MatchesAt(input, pos, Reach(pos), o);
    MaxOfIs(Matches(input, pos, Reach(pos)));
    assert Matches(input, pos, Reach(pos))[o - 1] <= Longest(input, pos);
  }

  lemma BestRuns(input: seq<byte>, pos: nat, t: Token, best: nat)
    requires pos < |input| && t == TokenAt(input, pos) && t.Link? && best == Min(Longest(input, pos), Cap(input, pos))
    ensures t.offset <= Reach(pos) && Run(input, pos, t.offset, best)
  {
    var matches := Matches(input, pos, Reach(pos));
    MaxOfIs(matches);
    TokenAtFits(input, pos);
    var i :| 0 <= i < |matches| && matches[i] == Longest(input, pos);
    FirstWithIs(matches, Cap(input, pos), best, 1);
    MatchesAt(input, pos, Reach(pos), t.offset);
    RunIs(input, pos, t.offset, best);
  }

  lemma RunBound(input: seq<byte>, pos: nat, o: nat, n: nat)
    requires pos < |input| && Run(input, pos, o, n)
    ensures n <= Longest(input, pos)
  {
    RunIs(input, pos, o, n);
    MatchesAt(input, pos, Reach(pos), o);
    MaxOfIs(Matches(input, pos, Reach(pos)));
    assert Matches(input, pos, Reach(pos))[o - 1] <= Longest(input, pos);
  }

  lemma {:induction false} NoneBefore(matches: seq<nat>, cap: nat, best: nat, from: nat, o: nat)
    requires 1 <= from <= o < FirstWith(matches, cap, best, from) && o <= |matches|
    ensures Min(matches[o - 1], cap) != best
    decreases o - from
  {
    if from < o { NoneBefore(matches, cap, best, from + 1, o); }
  }
}
