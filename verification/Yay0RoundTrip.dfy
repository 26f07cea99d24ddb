/** Compression followed by decompression. */
module Yay0RoundTrip {
  import opened Bytes
  import opened Masks
  import opened MatchSearch
  import opened Yay0Tokens
  import opened Yay0Decoder

  /** Replaying a link over data that repeats at its offset goes on with that
      data, also when the link overlaps what it is writing. */
  lemma {:induction false} ReplayCopies(input: seq<byte>, pos: nat, offset: nat, count: nat)
    requires 1 <= offset <= pos && pos + count <= |input|
    requires Repeats(input, offset, pos, pos + count)
    ensures Replay(input[..pos], offset, count) == input[..pos + count]
    decreases count
  {
    if count > 0 {
      assert input[pos - offset] == input[pos];
      assert input[..pos] + [input[pos]] == input[..pos + 1];
      ReplayCopies(input, pos + 1, offset, count - 1);
    }
  }

  lemma Field(c: seq<byte>, pre: seq<byte>, v: nat, post: seq<byte>)
    requires c == pre + (Be32(v) + post)
    ensures |c| >= |pre| + 4 && ReadBe32(c, |pre|) == v % U32 && (v < U32 ==> ReadBe32(c, |pre|) == v)
  {
    assert c == pre + Be32(v) + post;
    Be32ReadBack(pre, v, post);
  }

  lemma MagicPasses(c: seq<byte>, rest: seq<byte>)
    requires c == MAGIC + rest && |rest| >= 12
    ensures HeaderFault(c, 0) == Ok(())
  {
    assert c[0] == MAGIC[0] && c[1] == MAGIC[1] && c[2] == MAGIC[2] && c[3] == MAGIC[3];
    assert HeaderFault(c, 4) == Ok(());
    assert HeaderFault(c, 2) == Ok(());
  }

  lemma ThreeFields(c: seq<byte>, n: nat, lb: nat, kb: nat, rest: seq<byte>)
    requires c == MAGIC + Be32(n) + Be32(lb) + Be32(kb) + rest
    ensures |c| >= 16 && HeaderFault(c, 0) == Ok(())
    ensures ReadBe32(c, 4) == n % U32 && (n < U32 ==> ReadBe32(c, 4) == n)
    ensures ReadBe32(c, 8) == lb % U32 && ReadBe32(c, 12) == kb % U32
  {
    var a, b, d := Be32(n), Be32(lb), Be32(kb);
    Regroup(MAGIC, a, b, d, rest);
    MagicPasses(c, a + (b + d + rest));
    Field(c, MAGIC, n, b + d + rest);
    Field(c, MAGIC + a, lb, d + rest);
    Field(c, MAGIC + a + b, kb, rest);
  }

  lemma Regroup(m: seq<byte>, a: seq<byte>, b: seq<byte>, d: seq<byte>, rest: seq<byte>)
    ensures m + a + b + d + rest == m + (a + (b + d + rest))
    ensures m + a + b + d + rest == (m + a) + (b + (d + rest))
    ensures m + a + b + d + rest == (m + a + b) + (d + rest)
  {
  }

  lemma RegroupTail(h: seq<byte>, a: seq<byte>, b: seq<byte>, c: seq<byte>)
    ensures h + a + b + c == h + (a + b + c)
  {
  }

  lemma ContainerHeader(c: seq<byte>, n: nat, masks: seq<word>, links: seq<byte>, chunks: seq<byte>, lb: nat, kb: nat)
    requires c == Container(n, masks, links, chunks) && lb == 16 + |masks| && kb == lb + |links|
    ensures |c| >= 16 && HeaderFault(c, 0) == Ok(())
    ensures ReadBe32(c, 4) == n % U32 && (n < U32 ==> ReadBe32(c, 4) == n)
    ensures ReadBe32(c, 8) == lb % U32 && ReadBe32(c, 12) == kb % U32
  {
    RegroupTail(MAGIC + Be32(n) + Be32(lb) + Be32(kb), AsBytes(masks), links, chunks);
    ThreeFields(c, n, 16 + |masks|, 16 + |masks| + |links|, AsBytes(masks) + links + chunks);
  }

  /** The three streams sit one after the other behind the header. */
  lemma ContainerStreams(n: nat, masks: seq<word>, links: seq<byte>, chunks: seq<byte>)
    ensures var c := Container(n, masks, links, chunks);
            && (forall i: nat :: i / 8 < |masks| ==> BitAt(c, 16, i) == PackedBit(masks, i))
            && c[16 + |masks|..16 + |masks| + |links|] == links
            && c[16 + |masks| + |links|..] == chunks
  {
    var c := Container(n, masks, links, chunks);
    var head := MAGIC + Be32(n) + Be32(16 + |masks|) + Be32(16 + |masks| + |links|);
    forall i: nat | i / 8 < |masks| ensures BitAt(c, 16, i) == PackedBit(masks, i) {
      assert c == head + AsBytes(masks) + (links + chunks);
      BitsInFile(head, masks, links + chunks, i);
    }
  }

  /** c is a file that holds the tokens ts, with the link stream at lb and the
      chunk stream at kb, and every byte of it has a 32-bit address. */
  ghost predicate Holds(c: seq<byte>, ts: seq<Token>, lb: nat, kb: nat) {
    && |c| <= U32 && kb == lb + |Links(ts)| && |c| == kb + |Chunks(ts)|
    && c[lb..kb] == Links(ts) && c[kb..] == Chunks(ts)
    && forall i: nat :: i < |ts| ==> 16 + i / 8 < |c| && BitAt(c, 16, i) == ts[i].Literal?
  }

  /** The tokens ts spell the input from pos to its end. */
  ghost predicate Spells(ts: seq<Token>, input: seq<byte>, pos: nat) {
    if ts == [] then pos == |input| else SpellsAt(ts[0], input, pos) && Spells(ts[1..], input, pos + Covers(ts[0]))
  }

  ghost predicate SpellsAt(t: Token, input: seq<byte>, pos: nat) {
    && pos + Covers(t) <= |input| && Encodable(t)
    && match t
       case Literal(b) => input[pos] == b
       case Link(offset, count) => offset <= pos && Repeats(input, offset, pos, pos + count)
  }

  lemma {:induction false} TokensSpell(input: seq<byte>, pos: nat)
    requires pos <= |input|
    ensures Spells(Tokens(input, pos), input, pos)
    decreases |input| - pos
  {
    if pos < |input| {
      TokenAtFits(input, pos);
      TokensSpell(input, pos + Covers(TokenAt(input, pos)));
    }
  }

  /** The reader's cursor when the tokens in `before` have been read. */
  function CursorAfter(lb: nat, kb: nat, before: seq<Token>, out: seq<byte>): Cursor {
    Cursor(|before|, Wrap32(lb + |Links(before)|), Wrap32(kb + |Chunks(before)|), out)
  }

  lemma CursorStep(lb: nat, kb: nat, before: seq<Token>, t: Token, out: seq<byte>)
    ensures CursorAfter(lb, kb, before + [t], out)
         == Cursor(|before| + 1, Wrap32(lb + |Links(before)| + |LinkBytes(t)|),
                   Wrap32(kb + |Chunks(before)| + |ChunkBytes(t)|), out)
  {
    FlatSnoc(LinkBytes, before, t);
    FlatSnoc(ChunkBytes, before, t);
  }

  /** f's bytes for t sit in the stream right behind those for `before`. */
  lemma PartOfStream(f: Token -> seq<byte>, before: seq<Token>, t: Token, after: seq<Token>)
    ensures var s, n := Flat(f, before + ([t] + after)), |Flat(f, before)|;
            n + |f(t)| <= |s| && s[n..n + |f(t)|] == f(t)
  {
    FlatConcat(f, before, [t] + after);
    assert ([t] + after)[1..] == after;
    assert Flat(f, [t] + after) == f(t) + Flat(f, after);
  }

  /** What the reader finds at its two cursors is what the writer put there. */
  lemma BytesOfToken(c: seq<byte>, lb: nat, kb: nat, before: seq<Token>, t: Token, after: seq<Token>)
    requires Holds(c, before + ([t] + after), lb, kb)
    ensures var lp, kp := lb + |Links(before)|, kb + |Chunks(before)|;
            && lp + |LinkBytes(t)| <= kb && c[lp..lp + |LinkBytes(t)|] == LinkBytes(t)
            && kp + |ChunkBytes(t)| <= |c| && c[kp..kp + |ChunkBytes(t)|] == ChunkBytes(t)
            && 16 + |before| / 8 < |c| && BitAt(c, 16, |before|) == t.Literal?
  {
    var ts := before + ([t] + after);
    assert ts[|before|] == t;
    assert BitAt(c, 16, |before|) == ts[|before|].Literal?;
    InSlice(c, lb, kb, LinkBytes, before, t, after);
    assert c[kb..|c|] == c[kb..];
    InSlice(c, kb, |c|, ChunkBytes, before, t, after);
  }

  lemma InSlice(c: seq<byte>, lo: nat, hi: nat, f: Token -> seq<byte>, before: seq<Token>, t: Token, after: seq<Token>)
    requires lo <= hi <= |c| && c[lo..hi] == Flat(f, before + ([t] + after))
    ensures var p := lo + |Flat(f, before)|;
            p + |f(t)| <= hi && c[p..p + |f(t)|] == f(t)
  {
    PartOfStream(f, before, t, after);
    PartOfSlice(c, lo, hi, Flat(f, before + ([t] + after)), |Flat(f, before)|, f(t));
  }

  lemma PartOfSlice(c: seq<byte>, lo: nat, hi: nat, s: seq<byte>, n: nat, part: seq<byte>)
    requires lo <= hi <= |c| && c[lo..hi] == s && n + |part| <= |s| && s[n..n + |part|] == part
    ensures lo + n + |part| <= hi && c[lo + n..lo + n + |part|] == part
  {
    SliceOfSlice(c, lo, hi, n, |part|);
  }

  lemma SliceOfSlice(c: seq<byte>, lo: nat, hi: nat, n: nat, k: nat)
    requires lo <= hi <= |c| && n + k <= hi - lo
    ensures c[lo..hi][n..n + k] == c[lo + n..lo + n + k]
  {
    var a, b := c[lo..hi][n..n + k], c[lo + n..lo + n + k];
    assert |a| == |b| && forall i :: 0 <= i < k ==> a[i] == b[i];
  }

  lemma FirstByte(c: seq<byte>, p: nat, b: byte)
    requires p + 1 <= |c| && c[p..p + 1] == [b]
    ensures c[p] == b
  {
    assert c[p] == c[p..p + 1][0];
  }

  /** Reading a literal the writer wrote. */
  lemma ReadsLiteral(c: seq<byte>, lb: nat, kb: nat, before: seq<Token>, b: byte, after: seq<Token>, out: seq<byte>)
    requires Holds(c, before + ([Literal(b)] + after), lb, kb)
    ensures ReadToken(c, CursorAfter(lb, kb, before, out))
         == Next(CursorAfter(lb, kb, before + [Literal(b)], out + [b]))
  {
    var t, d, kp := Literal(b), CursorAfter(lb, kb, before, out), kb + |Chunks(before)|;
    BytesOfToken(c, lb, kb, before, t, after);
    CursorStep(lb, kb, before, t, out + [b]);
    FirstByte(c, kp, b);
    assert ReadToken(c, d) == ReadChunk(c, d);
  }

  /** The two fields of a link come back. */
  lemma LinkFields(offset: nat, count: nat)
    requires Encodable(Link(offset, count))
    ensures var v := LinkWord(offset, count);
            && 0 <= v < U16 && v % 0x1000 + 1 == offset
            && v / 0x1000 == if count >= 18 then 0 else count - 2
  {
  }

  lemma LinkWordAt(c: seq<byte>, p: nat, v: nat)
    requires p + 2 <= |c| && c[p..p + 2] == Be16(v) && v < U16
    ensures ReadBe16(c, p) == v
  {
    Be16ReadBack([], v, []);
    assert [] + Be16(v) + [] == Be16(v);
    assert c[p] == c[p..p + 2][0] && c[p + 1] == c[p..p + 2][1];
  }

  /** The link branch on a link word v and, for a long link, a count byte. */
  lemma LinkBranch(c: seq<byte>, d: Cursor, v: nat, offset: nat, count: nat)
    requires 1 <= offset <= |d.out| && count >= 3
    requires InRange(c, d.links, 2) && ReadBe16(c, d.links) == v && v % 0x1000 + 1 == offset
    requires v / 0x1000 == if count >= 18 then 0 else count - 2
    requires count >= 18 ==> d.chunks < |c| && c[d.chunks] as int == count - 18
    ensures ReadLink(c, d)
         == Next(Cursor(d.taken + 1, Wrap32(d.links + 2),
                        if count >= 18 then Wrap32(d.chunks + 1) else d.chunks, Replay(d.out, offset, count)))
  {
  }

  lemma LongCount(count: nat)
    requires 18 <= count <= MAX_LINK_LEN
    ensures Low8(count - 18) as int == count - 18
  {
  }

  lemma LinkAt(c: seq<byte>, lb: nat, kb: nat, before: seq<Token>, offset: nat, count: nat, after: seq<Token>)
    requires Holds(c, before + ([Link(offset, count)] + after), lb, kb) && Encodable(Link(offset, count))
    ensures var lp, kp := lb + |Links(before)|, kb + |Chunks(before)|;
            && lp + 2 <= |c| && ReadBe16(c, lp) == LinkWord(offset, count)
            && (count >= 18 ==> kp + 1 <= |c| && c[kp] as int == count - 18)
            && 16 + |before| / 8 < |c| && !BitAt(c, 16, |before|)
  {
    var lp, kp := lb + |Links(before)|, kb + |Chunks(before)|;
    BytesOfToken(c, lb, kb, before, Link(offset, count), after);
    LinkFields(offset, count);
    LinkWordAt(c, lp, LinkWord(offset, count));
    if count >= 18 {
      FirstByte(c, kp, Low8(count - 18));
      LongCount(count);
    }
  }

  /** Reading a link the writer wrote. */
  lemma {:induction false} ReadsLink(c: seq<byte>, lb: nat, kb: nat, before: seq<Token>, offset: nat, count: nat, after: seq<Token>,
                  out: seq<byte>)
    requires Holds(c, before + ([Link(offset, count)] + after), lb, kb)
    requires Encodable(Link(offset, count)) && offset <= |out|
    ensures ReadToken(c, CursorAfter(lb, kb, before, out))
         == Next(CursorAfter(lb, kb, before + [Link(offset, count)], Replay(out, offset, count)))
  {
    var d := CursorAfter(lb, kb, before, out);
    var lp, kp := lb + |Links(before)|, kb + |Chunks(before)|;
    LinkAt(c, lb, kb, before, offset, count, after);
    CursorStep(lb, kb, before, Link(offset, count), Replay(out, offset, count));
    LinkFields(offset, count);
    LinkBranch(c, d, LinkWord(offset, count), offset, count);
    assert ReadToken(c, d) == ReadLink(c, d);
  }

  /** One token read brings the reader to the next token. */
  lemma ReadsOne(c: seq<byte>, lb: nat, kb: nat, before: seq<Token>, t: Token, after: seq<Token>, input: seq<byte>, pos: nat)
    requires Holds(c, before + ([t] + after), lb, kb) && pos <= |input| && SpellsAt(t, input, pos)
    ensures ReadToken(c, CursorAfter(lb, kb, before, input[..pos]))
         == Next(CursorAfter(lb, kb, before + [t], input[..pos + Covers(t)]))
  {
    match t
    case Literal(b) =>
      ReadsLiteral(c, lb, kb, before, b, after, input[..pos]);
      assert input[..pos] + [b] == input[..pos + 1];
    case Link(offset, count) =>
      ReadsLink(c, lb, kb, before, offset, count, after, input[..pos]);
      ReplayCopies(input, pos, offset, count);
  }

  /** From any token on, the reader finishes with the whole input. */
  lemma {:induction false} DecodesRest(c: seq<byte>, lb: nat, kb: nat, before: seq<Token>, after: seq<Token>,
                                       input: seq<byte>, pos: nat)
    requires Holds(c, before + after, lb, kb) && pos <= |input| && Spells(after, input, pos)
    ensures DecodeFrom(c, |input|, CursorAfter(lb, kb, before, input[..pos])) == Ok(input)
    decreases |after|
  {
    if after == [] {
      assert input[..pos] == input;
    } else {
      var t, rest := after[0], after[1..];
      assert after == [t] + rest;
      assert (before + [t]) + rest == before + after;
      ReadsOne(c, lb, kb, before, t, rest, input, pos);
      DecodesRest(c, lb, kb, before + [t], rest, input, pos + Covers(t));
    }
  }

  function LinkBase(input: seq<byte>): nat { 16 + |PackBits(Bits(Tokens(input, 0)))| }

  function ChunkBase(input: seq<byte>): nat { LinkBase(input) + |Links(Tokens(input, 0))| }

  lemma CompressedHolds(input: seq<byte>)
    requires |Compressed(input)| <= U32
    ensures Holds(Compressed(input), Tokens(input, 0), LinkBase(input), ChunkBase(input))
  {
    var ts := Tokens(input, 0);
    ContainerStreams(|input|, PackBits(Bits(ts)), Links(ts), Chunks(ts));
    PackBitsPacks(Bits(ts));
    forall i: nat | i < |ts|
      ensures 16 + i / 8 < |Compressed(input)| && BitAt(Compressed(input), 16, i) == ts[i].Literal?
    {
      assert PackedBit(PackBits(Bits(ts)), i) == Bits(ts)[i];
    }
  }

  lemma CompressedHeader(input: seq<byte>)
    requires |input| < U32
    ensures |Compressed(input)| >= 16 && HeaderFault(Compressed(input), 0) == Ok(())
    ensures ReadBe32(Compressed(input), 4) == |input|
    ensures ReadBe32(Compressed(input), 8) == LinkBase(input) % U32
    ensures ReadBe32(Compressed(input), 12) == ChunkBase(input) % U32
  {
    var ts := Tokens(input, 0);
    ContainerHeader(Compressed(input), |input|, PackBits(Bits(ts)), Links(ts), Chunks(ts),
                    LinkBase(input), ChunkBase(input));
  }

  lemma StartsAt(c: seq<byte>, n: nat, lb: nat, kb: nat)
    requires |c| >= 16 && HeaderFault(c, 0) == Ok(()) && lb <= kb <= U32
    requires ReadBe32(c, 4) == n && ReadBe32(c, 8) == lb % U32 && ReadBe32(c, 12) == kb % U32
    ensures Decompressed(c) == DecodeFrom(c, n, CursorAfter(lb, kb, [], []))
  {
    WrapIsMod(lb);
    WrapIsMod(kb);
  }

  lemma WrapIsMod(x: nat)
    requires x <= U32
    ensures Wrap32(x) == x % U32
  {
  }

  lemma {:induction false} FileDecodes(c: seq<byte>, ts: seq<Token>, lb: nat, kb: nat, input: seq<byte>)
    requires Holds(c, ts, lb, kb) && Spells(ts, input, 0)
    requires |c| >= 16 && HeaderFault(c, 0) == Ok(())
    requires ReadBe32(c, 4) == |input| && ReadBe32(c, 8) == lb % U32 && ReadBe32(c, 12) == kb % U32
    ensures Decompressed(c) == Ok(input)
  {
    EmptyLeft(ts);
    assert input[..0] == [];
    DecodesRest(c, lb, kb, [], ts, input, 0);
    StartsAt(c, |input|, lb, kb);
  }

  /** The round trip, for every input whose compressed form 32-bit offsets can
      address. */
  lemma {:induction false} RoundTrip(input: seq<byte>)
    requires |Compressed(input)| <= U32 && |input| < U32
    ensures Decompressed(Compressed(input)) == Ok(input)
  {
    CompressedHolds(input);
    TokensSpell(input, 0);
    CompressedHeader(input);
    FileDecodes(Compressed(input), Tokens(input, 0), LinkBase(input), ChunkBase(input), input);
  }

  /** No token's link and chunk bytes outnumber the bytes it stands for. */
  lemma {:induction false} StreamSizes(ts: seq<Token>, input: seq<byte>, pos: nat)
    requires pos <= |input| && Spells(ts, input, pos)
    ensures |Links(ts)| + |Chunks(ts)| <= |input| - pos && |ts| <= |input| - pos
    decreases |ts|
  {
    if ts != [] {
      StreamSizes(ts[1..], input, pos + Covers(ts[0]));
      assert Flat(LinkBytes, ts) == LinkBytes(ts[0]) + Flat(LinkBytes, ts[1..]);
      assert Flat(ChunkBytes, ts) == ChunkBytes(ts[0]) + Flat(ChunkBytes, ts[1..]);
    }
  }

  /** Worst case of the compressed size. */
  lemma SizeBound(input: seq<byte>)
    ensures |Compressed(input)| <= 16 + |input| + (|input| + 7) / 8
  {
    var ts := Tokens(input, 0);
    TokensSpell(input, 0);
    StreamSizes(ts, input, 0);
    PackBitsPacks(Bits(ts));
    assert (|ts| + 7) / 8 <= (|input| + 7) / 8;
  }

  /** A check on the input's length alone that guarantees the round trip. */
  lemma RoundTripBySize(input: seq<byte>)
    requires 16 + |input| + (|input| + 7) / 8 <= U32
    ensures Decompressed(Compressed(input)) == Ok(input)
  {
    SizeBound(input);
    RoundTrip(input);
  }

  /** The reader overshoots the announced size by less than one link. */
  lemma {:induction false} OutputSize(c: seq<byte>, finalSize: nat, d: Cursor)
    requires |d.out| < finalSize + MAX_LINK_LEN
    ensures var r := DecodeFrom(c, finalSize, d);
            r.Ok? ==> finalSize <= |r.value| < finalSize + MAX_LINK_LEN
    decreases finalSize - |d.out|
  {
    if |d.out| < finalSize && ReadToken(c, d).Next? {
      OutputSize(c, finalSize, ReadToken(c, d).c);
    }
  }

  /** An input of 4 GiB or more never comes back: the size field has lost it. */
  lemma {:induction false} TooLongFails(input: seq<byte>)
    requires |input| >= U32
    ensures Decompressed(Compressed(input)) != Ok(input)
  {
    var c, ts := Compressed(input), Tokens(input, 0);
    ContainerHeader(c, |input|, PackBits(Bits(ts)), Links(ts), Chunks(ts), LinkBase(input), ChunkBase(input));
    OutputSize(c, ReadBe32(c, 4), Cursor(0, ReadBe32(c, 8), ReadBe32(c, 12), []));
    TruncatedLength(|input|);
  }

  lemma TruncatedLength(n: nat)
    requires n >= U32
    ensures n >= n % U32 + U32
  {
  }
}
