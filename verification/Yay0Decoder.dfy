/** The decompressor: a specification function that follows its cursors, and the
    method that implements it. */
module Yay0Decoder {
  import opened Bytes
  import opened Masks
  import opened Yay0Tokens

  /** Replaying a link: count bytes, each copied from `offset` back. */
  function Replay(out: seq<byte>, offset: nat, count: nat): (r: seq<byte>)
    requires 1 <= offset <= |out|
    ensures |r| == |out| + count
    decreases count
  {
    if count == 0 then out
    else Replay(out + [out[|out| - offset]], offset, count - 1)
  }

  /** The reader's position: mask bits taken, the two 32-bit offsets, and the
      bytes produced so far. */
  datatype Cursor = Cursor(taken: nat, links: nat, chunks: nat, out: seq<byte>)

  /** One token read at c; None is a read past the end or a link too far back. */
  datatype Step = Next(c: Cursor) | Stop

  function ReadToken(input: seq<byte>, c: Cursor): (s: Step)
    ensures s.Next? ==> |s.c.out| > |c.out|
  {
    if 16 + c.taken / 8 >= |input| then Stop
    else if BitAt(input, 16, c.taken) then ReadChunk(input, c)
    else ReadLink(input, c)
  }

  function ReadChunk(input: seq<byte>, c: Cursor): (s: Step)
    ensures s.Next? ==> |s.c.out| > |c.out|
  {
    if c.chunks >= |input| then Stop
    else Next(Cursor(c.taken + 1, c.links, Wrap32(c.chunks + 1), c.out + [input[c.chunks]]))
  }

  function ReadLink(input: seq<byte>, c: Cursor): (s: Step)
    ensures s.Next? ==> |s.c.out| > |c.out|
  {
    if !InRange(input, c.links, 2) then Stop
    else
      var link := ReadBe16(input, c.links);
      var short := link / 0x1000 + 2;
      var offset := link % 0x1000 + 1;
      if short == 2 && c.chunks >= |input| then Stop
      else
        var count := if short == 2 then input[c.chunks] as int + 18 else short;
        var chunks := if short == 2 then Wrap32(c.chunks + 1) else c.chunks;
        if offset > |c.out| then Stop
        else Next(Cursor(c.taken + 1, Wrap32(c.links + 2), chunks, Replay(c.out, offset, count)))
  }

  /** The loop of the decompressor from c on. */
  function DecodeFrom(input: seq<byte>, finalSize: nat, c: Cursor): Outcome<seq<byte>>
    decreases finalSize - |c.out|
  {
    if |c.out| >= finalSize then Ok(c.out)
    else
      match ReadToken(input, c)
      case Stop => Invalid
      case Next(d) => DecodeFrom(input, finalSize, d)
  }

  /** The four magic bytes are compared one by one; a read past the end on the
      way is the other error. */
  function HeaderFault(input: seq<byte>, i: nat): Outcome<()>
    requires i <= 4
    decreases 4 - i
  {
    if i == 4 then (if |input| < 16 then Invalid else Ok(()))
    else if i >= |input| then Invalid
    else if input[i] != MAGIC[i] then NotYay0
    else HeaderFault(input, i + 1)
  }

  function Decompressed(input: seq<byte>): Outcome<seq<byte>> {
    match HeaderFault(input, 0)
    case Ok(_) =>
      if |input| < 16 then Invalid
      else DecodeFrom(input, ReadBe32(input, 4), Cursor(0, ReadBe32(input, 8), ReadBe32(input, 12), []))
    case NotYay0 => NotYay0
    case _ => Invalid
  }

  method ReplayLink(out: seq<byte>, offset: nat, count: nat) returns (r: seq<byte>)
    requires 1 <= offset <= |out|
    ensures r == Replay(out, offset, count)
  {
    r := out;
    var i := 0;
    while i < count
      invariant 0 <= i <= count && |r| >= offset
      invariant Replay(r, offset, count - i) == Replay(out, offset, count)
    {
      r := r + [r[|r| - offset]];
      i := i + 1;
    }
  }

  /** The link branch of the loop; ok is false where it throws. */
  method FollowLink(input: seq<byte>, ghost taken: nat, links: nat, chunks: nat, out: seq<byte>)
    returns (ok: bool, linksOffset: nat, chunksOffset: nat, result: seq<byte>)
    ensures ReadLink(input, Cursor(taken, links, chunks, out))
         == if ok then Next(Cursor(taken + 1, linksOffset, chunksOffset, result)) else Stop
  {
    ok, linksOffset, chunksOffset, result := false, links, chunks, out;
    if InRange(input, linksOffset, 2) {
      var link := ReadBe16(input, linksOffset);
      linksOffset := Wrap32(linksOffset + 2);
      var count := link / 0x1000 + 2;
      if count == 2 {
        if chunksOffset >= |input| { return; }
        count := input[chunksOffset] as int + 18;
        chunksOffset := Wrap32(chunksOffset + 1);
      }
      var offset := link % 0x1000 + 1;
      if offset > |result| { return; }
      result := ReplayLink(result, offset, count);
      ok := true;
    }
  }

  method Decompress(input: seq<byte>) returns (outcome: Outcome<seq<byte>>)
    ensures outcome == Decompressed(input)
  {
    var fault := HeaderFault(input, 0);
    if fault != Ok(()) || |input| < 16 {
      return if fault == NotYay0 then NotYay0 else Invalid;
    }
    var finalSize := ReadBe32(input, 4);
    var linksOffset: nat, chunksOffset: nat := ReadBe32(input, 8), ReadBe32(input, 12);
    var masks := new MaskReader(input, 16);
    var result: seq<byte> := [];
    while |result| < finalSize
      invariant masks.Valid() && fresh(masks) && masks.input == input && masks.start == 16
      invariant DecodeFrom(input, finalSize, Cursor(masks.taken, linksOffset, chunksOffset, result))
             == Decompressed(input)
      decreases finalSize - |result|
    {
      ghost var c := Cursor(masks.taken, linksOffset, chunksOffset, result);
      var ok, isChunk := masks.PopFront();
      if !ok { return Invalid; }
      if isChunk {
        if chunksOffset >= |input| { return Invalid; }
        result := result + [input[chunksOffset]];
        chunksOffset := Wrap32(chunksOffset + 1);
      } else {
        ok, linksOffset, chunksOffset, result := FollowLink(input, c.taken, linksOffset, chunksOffset, result);
        if !ok { return Invalid; }
      }
      ghost var d := Cursor(masks.taken, linksOffset, chunksOffset, result);
      assert ReadToken(input, c) == if isChunk then ReadChunk(input, c) else ReadLink(input, c);
      assert ReadToken(input, c) == Next(d);
      assert DecodeFrom(input, finalSize, c) == DecodeFrom(input, finalSize, d);
    }
    outcome := Ok(result);
  }
}
