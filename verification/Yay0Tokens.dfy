/** The token sequence the compressor produces, and its three byte streams. */
module Yay0Tokens {
  import opened Bytes
  import opened Masks
  import opened MatchSearch

  datatype Token = Literal(b: byte) | Link(offset: nat, count: nat)

  /** First offset from o on whose match, cut at the cap, has length best. */
  function FirstWith(matches: seq<nat>, cap: nat, best: nat, o: nat): (r: nat)
    requires o >= 1
    ensures r >= o
    decreases |matches| + 1 - o
  {
    if o > |matches| || Min(matches[o - 1], cap) == best then o
    else FirstWith(matches, cap, best, o + 1)
  }

  function LinkOffset(input: seq<byte>, pos: nat): nat
    requires pos < |input|
  {
    FirstWith(Matches(input, pos, Reach(pos)), Cap(input, pos), Min(Longest(input, pos), Cap(input, pos)), 1)
  }

  lemma {:induction false} FirstWithUnique(matches: seq<nat>, cap: nat, best: nat, offset: nat, o: nat)
    requires FirstBest(matches, |matches|, cap, best, offset) && best > 0 && 1 <= o <= offset
    ensures FirstWith(matches, cap, best, o) == offset
    decreases offset - o
  {
    if o < offset { FirstWithUnique(matches, cap, best, offset, o + 1); }
  }

  lemma {:induction false} FirstWithIs(matches: seq<nat>, cap: nat, best: nat, o: nat)
    requires o >= 1 && exists i :: o - 1 <= i < |matches| && Min(matches[i], cap) == best
    ensures var r := FirstWith(matches, cap, best, o); r <= |matches| && Min(matches[r - 1], cap) == best
    decreases |matches| + 1 - o
  {
    if Min(matches[o - 1], cap) != best { FirstWithIs(matches, cap, best, o + 1); }
  }

  function TokenAt(input: seq<byte>, pos: nat): Token
    requires pos < |input|
  {
    if LinkLength(input, pos) >= 3 then Link(LinkOffset(input, pos), LinkLength(input, pos))
    else Literal(input[pos])
  }

  /** How many bytes of output a token stands for. */
  function Covers(t: Token): nat {
    if t.Literal? then 1 else t.count
  }

  /** A link's encoding fits its fields. */
  predicate Encodable(t: Token) {
    t.Link? ==> 1 <= t.offset <= WINDOW && 3 <= t.count <= MAX_LINK_LEN
  }

  function Tokens(input: seq<byte>, pos: nat): seq<Token>
    requires pos <= |input|
    decreases |input| - pos
  {
    if pos == |input| then []
    else [TokenAt(input, pos)] + Tokens(input, pos + Covers(TokenAt(input, pos)))
  }

  /** A link token at pos repeats bytes that are already there. */
  lemma TokenAtFits(input: seq<byte>, pos: nat)
    requires pos < |input|
    ensures var t := TokenAt(input, pos);
            && Encodable(t) && pos + Covers(t) <= |input|
            && (t.Link? ==> t.offset <= pos && Repeats(input, t.offset, pos, pos + t.count))
  {
    var len := LinkLength(input, pos);
    if len >= 3 {
      var matches, cap := Matches(input, pos, Reach(pos)), Cap(input, pos);
      var longest := Longest(input, pos);
      MaxOfIs(matches);
      var i :| 0 <= i < |matches| && matches[i] == longest;
      FirstWithIs(matches, cap, Min(longest, cap), 1);
      var o := LinkOffset(input, pos);
      MatchesAt(input, pos, Reach(pos), o);
      assert Match(input, pos, o) >= len;
      MatchLengthIs(input, pos, o, 0);
    }
  }

  /** A link word: a four-bit count field, 0 for a long link, and the offset. */
  function LinkWord(offset: nat, count: nat): int {
    (if count >= 18 then 0 else count - 2) * 0x1000 + (offset - 1)
  }

  function LinkBytes(t: Token): seq<byte> {
    if t.Literal? then [] else Be16(LinkWord(t.offset, t.count))
  }

  function ChunkBytes(t: Token): seq<byte> {
    if t.Literal? then [t.b]
    else if t.count >= 18 then [Low8(t.count - 18)]
    else []
  }

  function Bits(ts: seq<Token>): (r: seq<bool>)
    ensures |r| == |ts|
  {
    seq(|ts|, i requires 0 <= i < |ts| => ts[i].Literal?)
  }

  /** The byte strings f yields for the tokens, end to end. */
  function Flat(f: Token -> seq<byte>, ts: seq<Token>): seq<byte> {
    if ts == [] then [] else f(ts[0]) + Flat(f, ts[1..])
  }

  lemma {:induction false} FlatConcat(f: Token -> seq<byte>, a: seq<Token>, b: seq<Token>)
    ensures Flat(f, a + b) == Flat(f, a) + Flat(f, b)
  {
    if a == [] {
      assert a + b == b;
    } else {
      FlatConcat(f, a[1..], b);
      assert (a + b)[1..] == a[1..] + b;
    }
  }

  lemma FlatSnoc(f: Token -> seq<byte>, ts: seq<Token>, t: Token)
    ensures Flat(f, ts + [t]) == Flat(f, ts) + f(t)
  {
    FlatConcat(f, ts, [t]);
    assert Flat(f, [t]) == f(t) + Flat(f, []);
  }

  function Links(ts: seq<Token>): seq<byte> { Flat(LinkBytes, ts) }

  function Chunks(ts: seq<Token>): seq<byte> { Flat(ChunkBytes, ts) }

  const MAGIC: seq<byte> := [0x59, 0x61, 0x79, 0x30]   // "Yay0"

  /** Header and streams of a file that unpacks to n bytes. */
  function Container(n: nat, masks: seq<word>, links: seq<byte>, chunks: seq<byte>): (r: seq<byte>)
    ensures |r| == 16 + |masks| + |links| + |chunks|
  {
    MAGIC + Be32(n) + Be32(16 + |masks|) + Be32(16 + |masks| + |links|)
    + AsBytes(masks) + links + chunks
  }

  function Compressed(input: seq<byte>): seq<byte> {
    var ts := Tokens(input, 0);
    Container(|input|, PackBits(Bits(ts)), Links(ts), Chunks(ts))
  }

  datatype Streams = Streams(bits: seq<bool>, links: seq<byte>, chunks: seq<byte>)

  /** The three streams once the tokens ts are written after what is in s. */
  function Emit(ts: seq<Token>, s: Streams): Streams {
    if ts == [] then s
    else Emit(ts[1..], Streams(s.bits + [ts[0].Literal?], s.links + LinkBytes(ts[0]), s.chunks + ChunkBytes(ts[0])))
  }

  lemma {:induction false} EmitIs(ts: seq<Token>, s: Streams)
    ensures Emit(ts, s) == Streams(s.bits + Bits(ts), s.links + Links(ts), s.chunks + Chunks(ts))
  {
    if ts == [] {
      assert s.bits + [] == s.bits && s.links + [] == s.links && s.chunks + [] == s.chunks;
    } else {
      EmitIs(ts[1..], Streams(s.bits + [ts[0].Literal?], s.links + LinkBytes(ts[0]), s.chunks + ChunkBytes(ts[0])));
      StreamsCons(ts[0], ts[1..], s.bits, s.links, s.chunks);
      assert [ts[0]] + ts[1..] == ts;
    }
  }

  lemma EmitAll(ts: seq<Token>)
    ensures Emit(ts, Streams([], [], [])) == Streams(Bits(ts), Links(ts), Chunks(ts))
  {
    EmitIs(ts, Streams([], [], []));
    EmptyLeft(Bits(ts));
    EmptyLeft(Links(ts));
    EmptyLeft(Chunks(ts));
  }

  lemma EmptyLeft<T>(s: seq<T>)
    ensures [] + s == s
  {
  }

  lemma StreamsCons(t: Token, ts: seq<Token>, bits: seq<bool>, links: seq<byte>, chunks: seq<byte>)
    ensures (bits + [t.Literal?]) + Bits(ts) == bits + Bits([t] + ts)
    ensures (links + LinkBytes(t)) + Links(ts) == links + Links([t] + ts)
    ensures (chunks + ChunkBytes(t)) + Chunks(ts) == chunks + Chunks([t] + ts)
  {
    assert ([t] + ts)[1..] == ts;
  }

  /** Writing one token, as the two branches of the loop do it. */
  lemma WriteLiteral(ts: seq<Token>, bits: seq<bool>, links: seq<byte>, chunks: seq<byte>, b: byte)
    requires ts != [] && ts[0] == Literal(b)
    ensures Emit(ts, Streams(bits, links, chunks)) == Emit(ts[1..], Streams(bits + [true], links, chunks + [b]))
  {
    assert links + [] == links;
  }

  lemma WriteLink(ts: seq<Token>, bits: seq<bool>, links: seq<byte>, chunks: seq<byte>,
                  offset: nat, count: nat, header: nat)
    requires ts != [] && ts[0] == Link(offset, count)
    requires header == if count >= 18 then 0 else count - 2
    ensures Emit(ts, Streams(bits, links, chunks))
         == Emit(ts[1..], Streams(bits + [false], links + Be16(header * 0x1000 + (offset - 1)),
                                  if count >= 18 then chunks + [Low8(count - 18)] else chunks))
  {
    assert chunks + [] == chunks;
  }

  /** What FindLink reports is the next token. */
  lemma NextToken(input: seq<byte>, pos: nat, count: nat, offset: nat)
    requires pos < |input| && count == LinkLength(input, pos)
    requires count > 0 ==>
               FirstBest(Matches(input, pos, Reach(pos)), Reach(pos), Cap(input, pos),
                         Min(Longest(input, pos), Cap(input, pos)), offset)
    ensures var ts := Tokens(input, pos);
            && ts != [] && ts[0] == (if count >= 3 then Link(offset, count) else Literal(input[pos]))
            && Encodable(ts[0]) && pos + Covers(ts[0]) <= |input|
            && ts[1..] == Tokens(input, pos + if count >= 3 then count else 1)
  {
    TokenAtFits(input, pos);
    if count >= 3 {
      FirstWithUnique(Matches(input, pos, Reach(pos)), Cap(input, pos),
                      Min(Longest(input, pos), Cap(input, pos)), offset, 1);
    }
  }

  /** The search for a link, seen as finding the next token. */
  method FindToken(input: seq<byte>, pos: nat, ghost ts: seq<Token>) returns (count: nat, offset: nat)
    requires pos < |input| && ts == Tokens(input, pos)
    ensures ts != [] && ts[0] == (if count >= 3 then Link(offset, count) else Literal(input[pos]))
    ensures count >= 3 ==> 1 <= offset <= WINDOW && count <= MAX_LINK_LEN && pos + count <= |input|
    ensures ts[1..] == Tokens(input, pos + if count >= 3 then count else 1)
  {
    count, offset := FindLink(input, pos);
    NextToken(input, pos, count, offset);
  }

  method Compress(input: seq<byte>) returns (result: seq<byte>)
    ensures result == Compressed(input)
  {
    var inputPos := 0;
    var masks := new MaskWriter();
    var links, chunks := [], [];
    ghost var toWrite := Tokens(input, 0);
    ghost var all := Emit(toWrite, Streams([], [], []));
    while inputPos < |input|
      invariant masks.Valid() && fresh(masks)
      invariant inputPos <= |input| && toWrite == Tokens(input, inputPos)
      invariant Emit(toWrite, Streams(masks.bits, links, chunks)) == all
      decreases |input| - inputPos
    {
      var linkCount, linkOffset := FindToken(input, inputPos, toWrite);
      ghost var next, rest := inputPos + (if linkCount >= 3 then linkCount else 1), toWrite[1..];
      assert next <= |input| && rest == Tokens(input, next);
      if linkCount >= 3 {
        var linkCountHeader := if linkCount >= 18 then 0 else linkCount - 2;
        WriteLink(toWrite, masks.bits, links, chunks, linkOffset, linkCount, linkCountHeader);
        if linkCount >= 18 {
          chunks := chunks + [Low8(linkCount - 18)];
        }
        links := links + Be16(linkCountHeader * 0x1000 + (linkOffset - 1));
        masks.PushBack(false);
        inputPos := inputPos + linkCount;
      } else {
        WriteLiteral(toWrite, masks.bits, links, chunks, input[inputPos]);
        chunks := chunks + [input[inputPos]];
        masks.PushBack(true);
        inputPos := inputPos + 1;
      }
      toWrite := rest;
      assert inputPos == next;
    }
    EmitAll(Tokens(input, 0));
    result := Container(|input|, masks.data, links, chunks);
  }
}
