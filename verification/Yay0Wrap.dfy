/** Where 32-bit chunk offsets run out: an input whose three header fields all fit
    and which does not come back. */
module Yay0Wrap {
  import opened Bytes
  import opened Masks
  import opened MatchSearch
  import opened Yay0Tokens
  import opened Yay0Decoder
  import opened Yay0RoundTrip

  /** Even bytes count modulo 128; odd bytes count the rounds of that, shifted up. */
  function Code(j: nat): byte {
    if j % 2 == 0 then (j / 2 % 128) as byte else (128 + j / 2 / 128 % 128) as byte
  }

  function Counting(n: nat, s: nat): seq<byte> { seq(n, j requires 0 <= j < n => Code(j + s)) }

  lemma Halves(h: nat)
    ensures Code(2 * h) as int == h % 128 && Code(2 * h + 1) as int == 128 + h / 128 % 128
  {
  }

  lemma CountsDiffer(h: nat, d: nat)
    requires 1 <= d <= 2048 && d <= h
    ensures h % 128 != (h - d) % 128 || h / 128 % 128 != (h - d) / 128 % 128
  {
  }

  /** No three bytes come again within the window. */
  lemma ThreeDiffer(i: nat, offset: nat)
    requires 1 <= offset <= i && offset <= WINDOW
    ensures Code(i) != Code(i - offset) || Code(i + 1) != Code(i + 1 - offset) || Code(i + 2) != Code(i + 2 - offset)
  {
    if offset % 2 == 1 {
      assert (i - offset) % 2 != i % 2;
    } else {
      var h, d := (i + 1) / 2, offset / 2;
      assert 2 * h == if i % 2 == 0 then i else i + 1;
      assert 2 * d == offset;
      Halves(h);
      Halves(h - d);
      CountsDiffer(h, d);
      assert 2 * (h - d) == 2 * h - offset;
    }
  }

  lemma NoMatch(n: nat, s: nat, pos: nat, offset: nat)
    requires 1 <= offset <= pos < n && offset <= WINDOW
    ensures Match(Counting(n, s), pos, offset) < 3
  {
    var x := Counting(n, s);
    if Match(x, pos, offset) >= 3 {
      MatchLengthIs(x, pos, offset, 0);
      assert x[pos - offset] == x[pos] && x[pos + 1 - offset] == x[pos + 1] && x[pos + 2 - offset] == x[pos + 2];
      ThreeDiffer(pos + s, offset);
      assert false;
    }
  }

  /** So the compressor writes nothing but literals. */
  lemma OnlyLiteral(n: nat, s: nat, pos: nat)
    requires pos < n
    ensures TokenAt(Counting(n, s), pos) == Literal(Code(pos + s))
  {
    var x := Counting(n, s);
    var matches := Matches(x, pos, Reach(pos));
    MaxOfIs(matches);
    if MaxOf(matches) >= 3 {
      var i :| 0 <= i < |matches| && matches[i] == MaxOf(matches);
      MatchesAt(x, pos, Reach(pos), i + 1);
      NoMatch(n, s, pos, i + 1);
      assert false;
    }
  }

  function Literals(n: nat, s: nat, pos: nat): seq<Token>
    requires pos <= n
  {
    seq(n - pos, i requires 0 <= i < n - pos => Literal(Code(pos + i + s)))
  }

  lemma {:induction false} AllLiterals(n: nat, s: nat, pos: nat)
    requires pos <= n
    ensures Tokens(Counting(n, s), pos) == Literals(n, s, pos)
    decreases n - pos
  {
    if pos < n {
      OnlyLiteral(n, s, pos);
      AllLiterals(n, s, pos + 1);
      LiteralsCons(n, s, pos);
    }
  }

  lemma LiteralsCons(n: nat, s: nat, pos: nat)
    requires pos < n
    ensures Literals(n, s, pos) == [Literal(Code(pos + s))] + Literals(n, s, pos + 1)
    ensures Literals(n, s, pos)[1..] == Literals(n, s, pos + 1)
  {
  }

  lemma {:induction false} LiteralStreams(n: nat, s: nat, pos: nat)
    requires pos <= n
    ensures Links(Literals(n, s, pos)) == [] && Chunks(Literals(n, s, pos)) == Counting(n, s)[pos..]
    decreases n - pos
  {
    if pos < n {
      LiteralStreams(n, s, pos + 1);
      LiteralsCons(n, s, pos);
      assert Counting(n, s)[pos..] == [Code(pos + s)] + Counting(n, s)[pos + 1..];
    }
  }

  /** Where the literals start in the compressed file. */
  function Base(n: nat): nat { 16 + (n + 7) / 8 }

  /** The file of the counting input. */
  ghost predicate CountingFile(c: seq<byte>, n: nat, s: nat) {
    && |c| == Base(n) + n && c[Base(n)..] == Counting(n, s)
    && forall i: nat :: i < n ==> BitAt(c, 16, i)
  }

  lemma CountingTokens(n: nat, s: nat)
    ensures var ts := Tokens(Counting(n, s), 0);
            |ts| == n && (forall i :: 0 <= i < n ==> Bits(ts)[i]) && Links(ts) == [] && Chunks(ts) == Counting(n, s)
    ensures |PackBits(Bits(Tokens(Counting(n, s), 0)))| == (n + 7) / 8
  {
    AllLiterals(n, s, 0);
    LiteralStreams(n, s, 0);
    assert Counting(n, s)[0..] == Counting(n, s);
    PackBitsPacks(Bits(Tokens(Counting(n, s), 0)));
  }

  lemma FileOfCounting(n: nat, s: nat)
    ensures CountingFile(Compressed(Counting(n, s)), n, s)
  {
    CountingTokens(n, s);
    var ts := Tokens(Counting(n, s), 0);
    IsCountingFile(n, s, PackBits(Bits(ts)), Compressed(Counting(n, s)));
  }

  lemma IsCountingFile(n: nat, s: nat, masks: seq<word>, c: seq<byte>)
    requires |masks| == (n + 7) / 8 && c == Container(n, masks, [], Counting(n, s))
    requires masks == PackBits(Bits(Tokens(Counting(n, s), 0)))
    ensures CountingFile(c, n, s)
  {
    CountingTokens(n, s);
    var bits := Bits(Tokens(Counting(n, s), 0));
    PackBitsPacks(bits);
    ContainerStreams(n, masks, [], Counting(n, s));
    forall i: nat | i < n ensures BitAt(c, 16, i) { assert PackedBit(masks, i) == bits[i]; }
  }

  lemma HeaderOfCounting(n: nat, s: nat)
    requires n < U32 && Base(n) < U32
    ensures var c := Compressed(Counting(n, s));
            && |c| >= 16 && c[0] == MAGIC[0] && HeaderFault(c, 0) == Ok(())
            && ReadBe32(c, 4) == n && ReadBe32(c, 8) == ReadBe32(c, 12) == Base(n)
  {
    CountingTokens(n, s);
    CompressedHeader(Counting(n, s));
    FirstMagic(Compressed(Counting(n, s)));
    SmallMod(LinkBase(Counting(n, s)), ChunkBase(Counting(n, s)), Base(n));
  }

  lemma SmallMod(lb: nat, kb: nat, base: nat)
    requires lb == kb == base < U32
    ensures lb % U32 == kb % U32 == base
  {
  }

  lemma FirstMagic(c: seq<byte>)
    requires HeaderFault(c, 0) == Ok(())
    ensures |c| > 0 && c[0] == MAGIC[0]
  {
  }

  /** The rest of the run when the first k literals have been read. */
  function Stage(c: seq<byte>, n: nat, s: nat, base: nat, k: nat): Outcome<seq<byte>>
    requires k <= n
  {
    DecodeFrom(c, n, Cursor(k, base, Wrap32(base + k), Counting(n, s)[..k]))
  }

  /** The literals are read one after the other up to the last 32-bit address. */
  lemma {:induction false} ReadsUpTo(c: seq<byte>, n: nat, s: nat, k: nat)
    requires k <= n && Base(n) + k <= U32 && Base(n) < U32 && CountingFile(c, n, s)
    ensures Stage(c, n, s, Base(n), k) == Stage(c, n, s, Base(n), 0)
  {
    if k > 0 {
      ReadsUpTo(c, n, s, k - 1);
      StageStep(c, n, s, k - 1);
    }
  }

  lemma StageStep(c: seq<byte>, n: nat, s: nat, k: nat)
    requires k < n && Base(n) + k < U32 && CountingFile(c, n, s)
    ensures Stage(c, n, s, Base(n), k) == Stage(c, n, s, Base(n), k + 1)
  {
    var at := Base(n) + k;
    assert BitAt(c, 16, k);
    ReadsNext(c, n, k, Base(n), at, Counting(n, s)[..k]);
    NextByte(c, n, s, k);
  }

  lemma NextByte(c: seq<byte>, n: nat, s: nat, k: nat)
    requires CountingFile(c, n, s) && k < n
    ensures Counting(n, s)[..k] + [c[Base(n) + k]] == Counting(n, s)[..k + 1]
  {
    assert c[Base(n) + k] == c[Base(n)..][k] == Counting(n, s)[k];
  }

  /** One literal read, wherever it comes from. */
  lemma ReadsNext(c: seq<byte>, n: nat, k: nat, base: nat, at: nat, out: seq<byte>)
    requires k < n && at < |c| && |out| == k && 16 + k / 8 < |c| && BitAt(c, 16, k)
    ensures DecodeFrom(c, n, Cursor(k, base, at, out))
         == DecodeFrom(c, n, Cursor(k + 1, base, Wrap32(at + 1), out + [c[at]]))
  {
    assert ReadToken(c, Cursor(k, base, at, out)) == ReadChunk(c, Cursor(k, base, at, out));
  }

  lemma {:induction false} ReplayKeeps(out: seq<byte>, offset: nat, count: nat)
    requires 1 <= offset <= |out|
    ensures out <= Replay(out, offset, count)
    decreases count
  {
    if count > 0 { ReplayKeeps(out + [out[|out| - offset]], offset, count - 1); }
  }

  /** Output is never taken back. */
  lemma {:induction false} OutputKeeps(c: seq<byte>, n: nat, d: Cursor)
    ensures DecodeFrom(c, n, d).Ok? ==> d.out <= DecodeFrom(c, n, d).value
    decreases n - |d.out|
  {
    if |d.out| < n && ReadToken(c, d).Next? {
      var e := ReadToken(c, d).c;
      TokenKeeps(c, d);
      OutputKeeps(c, n, e);
    }
  }

  lemma TokenKeeps(c: seq<byte>, d: Cursor)
    requires ReadToken(c, d).Next?
    ensures d.out <= ReadToken(c, d).c.out
  {
    if !BitAt(c, 16, d.taken) {
      var link := ReadBe16(c, d.links);
      var short := link / 0x1000 + 2;
      ReplayKeeps(d.out, link % 0x1000 + 1, if short == 2 then c[d.chunks] as int + 18 else short);
    }
  }

  /** If byte k is the first that has no 32-bit address, the reader takes the first
      byte of the file for it. */
  lemma {:induction false} Wraps(n: nat, s: nat, k: nat)
    requires n < U32 && Base(n) + k == U32 && k < n && Code(k + s) != MAGIC[0]
    ensures Decompressed(Compressed(Counting(n, s))) != Ok(Counting(n, s))
  {
    var c := Compressed(Counting(n, s));
    FileOfCounting(n, s);
    HeaderOfCounting(n, s);
    Starts(c, n, s, Base(n));
    ReadsUpTo(c, n, s, k);
    WrongByte(c, n, s, Base(n), k);
  }

  lemma WrongByte(c: seq<byte>, n: nat, s: nat, base: nat, k: nat)
    requires CountingFile(c, n, s) && base + k == U32 && k < n && |c| > 0 && Code(k + s) != c[0]
    ensures Stage(c, n, s, base, k) != Ok(Counting(n, s))
  {
    var out := Counting(n, s)[..k];
    var more := out + [c[0]];
    assert BitAt(c, 16, k);
    ReadsNext(c, n, k, base, 0, out);
    OutputKeeps(c, n, Cursor(k + 1, base, 1, more));
    assert more[k] == c[0] && Counting(n, s)[k] == Code(k + s);
  }

  lemma Starts(c: seq<byte>, n: nat, s: nat, base: nat)
    requires |c| >= 16 && HeaderFault(c, 0) == Ok(()) && base < U32
    requires ReadBe32(c, 4) == n && ReadBe32(c, 8) == ReadBe32(c, 12) == base
    ensures Decompressed(c) == Stage(c, n, s, base, 0)
  {
    assert Counting(n, s)[..0] == [];
  }

  ghost predicate ComesBack(x: seq<byte>) { Decompressed(Compressed(x)) == Ok(x) }

  /** For every length whose file can outgrow 2^32 bytes some input does not come
      back. */
  lemma SomeLost(n: nat) returns (x: seq<byte>)
    requires n < U32 && Base(n) + n > U32
    ensures |x| == n && !ComesBack(x)
  {
    var k := U32 - Base(n);
    NextCode(k);
    var s := if Code(k) == MAGIC[0] then 2 else 0;
    Wraps(n, s, k);
    x := Counting(n, s);
  }

  lemma NextCode(k: nat)
    ensures Code(k) == MAGIC[0] ==> Code(k + 2) != MAGIC[0]
  {
  }

  ghost predicate AllComeBack(n: nat) { forall x: seq<byte> :: |x| == n ==> ComesBack(x) }

  /** Exactly for which lengths decompression undoes compression. */
  lemma RoundTripIffFits(n: nat)
    ensures AllComeBack(n) <==> 16 + n + (n + 7) / 8 <= U32
  {
    if 16 + n + (n + 7) / 8 <= U32 {
      forall x: seq<byte> | |x| == n ensures ComesBack(x) { RoundTripBySize(x); }
    } else if n < U32 {
      var x := SomeLost(n);
      assert !ComesBack(x);
    } else {
      var x := Counting(n, 0);
      TooLongFails(x);
      assert |x| == n && !ComesBack(x);
    }
  }

  const SIZE: nat := 3_900_000_000

  /** Header fields that fit do not suffice: an input of 3.9 GB whose size, link
      offset and chunk offset all fit 32 bits, and which does not come back. */
  lemma HeaderFitsIsNotEnough()
    ensures var x := Counting(SIZE, 0);
            |x| < U32 && LinkBase(x) < U32 && ChunkBase(x) < U32 && !ComesBack(x)
  {
    var n := SIZE;
    var k := U32 - Base(n);
    CountingTokens(n, 0);
    assert Base(n) == 487_500_016 && k == 3_807_467_280 && Code(k) == 8;
    Wraps(n, 0, k);
  }
}
