/** The 2-bit block format of the font texture. */
module FontImage {
  import opened Bytes
  import opened ByteBits
  import opened BlockIndex

  datatype Image = Image(data: seq<byte>, width: nat)

  /** Four 2-bit fields in one byte. */
  function Join(a: int, b: int, c: int, d: int): byte
    requires 0 <= a < 4 && 0 <= b < 4 && 0 <= c < 4 && 0 <= d < 4
  {
    (a * 64 + b * 16 + c * 4 + d) as byte
  }

  /** The top two bits of four pixels in one byte. */
  function Pack(p: byte, q: byte, r: byte, s: byte): byte {
    Join(p as int / 64, q as int / 64, r as int / 64, s as int / 64)
  }

  /** The same by masks and shifts, as the encoder does it. */
  function PackBits(p: bv8, q: bv8, r: bv8, s: bv8): bv8 {
    (p & 0xC0) | ((q >> 2) & 0x30) | ((r >> 4) & 0x0C) | (s >> 6)
  }

  /** The 2-bit value in slot 0 to 3 of a packed byte. */
  function Slot(b: byte, s: nat): int
    requires s < 4
  {
    if s == 0 then b as int / 64 else if s == 1 then b as int / 16 % 4 else if s == 2 then b as int / 4 % 4
    else b as int % 4
  }

  /** The same by masks and shifts, as the decoder does it. */
  function SlotBits(b: bv8, s: nat): bv8
    requires s < 4
  {
    if s == 0 then b >> 6 else if s == 1 then (b >> 4) & 0x03 else if s == 2 then (b >> 2) & 0x03 else b & 0x03
  }

  lemma PackBitsFields(p: bv8, q: bv8, r: bv8, s: bv8)
    ensures var v := PackBits(p, q, r, s);
            v >> 6 == p >> 6 && (v >> 4) & 0x03 == q >> 6 && (v >> 2) & 0x03 == r >> 6 && v & 0x03 == s >> 6
  {
  }

  /** The encoder's masks and shifts pack the top two bits of each pixel. */
  lemma PackBitsIs(p: byte, q: byte, r: byte, s: byte)
    ensures PackBits(AsBits(p), AsBits(q), AsBits(r), AsBits(s)) as int == Pack(p, q, r, s) as int
  {
    PackBitsFields(AsBits(p), AsBits(q), AsBits(r), AsBits(s));
    ValueByFields(PackBits(AsBits(p), AsBits(q), AsBits(r), AsBits(s)));
    TopTwo(p);
    TopTwo(q);
    TopTwo(r);
    TopTwo(s);
  }

  lemma TopTwo(b: byte)
    ensures (AsBits(b) >> 6) as int == b as int / 64
  {
    AsBitsIs(b);
    ValueByFields(AsBits(b));
  }

  /** The decoder's shifts and masks take out a 2-bit field. */
  lemma SlotBitsIs(b: byte, s: nat)
    requires s < 4
    ensures SlotBits(AsBits(b), s) as int == Slot(b, s)
  {
    var v := AsBits(b);
    AsBitsIs(b);
    ValueByFields(v);
    JoinedFields(b, (v >> 6) as int, ((v >> 4) & 0x03) as int, ((v >> 2) & 0x03) as int, (v & 0x03) as int);
  }

  lemma JoinedFields(v: byte, a: int, b: int, c: int, d: int)
    requires 0 <= a < 4 && 0 <= b < 4 && 0 <= c < 4 && 0 <= d < 4 && v as int == a * 64 + b * 16 + c * 4 + d
    ensures Slot(v, 0) == a && Slot(v, 1) == b && Slot(v, 2) == c && Slot(v, 3) == d
  {
    SlotOfJoin(a, b, c, d);
    assert v == Join(a, b, c, d);
  }

  lemma SlotOfJoin(a: int, b: int, c: int, d: int)
    requires 0 <= a < 4 && 0 <= b < 4 && 0 <= c < 4 && 0 <= d < 4
    ensures var v := Join(a, b, c, d); Slot(v, 0) == a && Slot(v, 1) == b && Slot(v, 2) == c && Slot(v, 3) == d
  {
    var v := Join(a, b, c, d) as int;
    assert v / 4 == a * 16 + b * 4 + c;
    assert v / 16 == a * 4 + b;
  }

  lemma JoinOfSlots(v: byte)
    ensures 0 <= Slot(v, 0) < 4 && Join(Slot(v, 0), Slot(v, 1), Slot(v, 2), Slot(v, 3)) == v
  {
    var n := v as int;
    assert n == n / 4 * 4 + n % 4;
    assert n / 4 == n / 16 * 4 + n / 4 % 4;
    assert n / 16 == n / 64 * 4 + n / 16 % 4;
  }

  function Expand(v: int): byte
    requires 0 <= v < 4
  {
    (v * 0x55) as byte
  }

  /** A pixel after its trip through two bits. */
  function Quantised(p: byte): byte { Expand(p as int / 64) }

  /** Rows and columns: the packed byte that holds row y, column x of a picture w blocks
      wide, and its place in that byte, in units of the lowest bit. */
  function ByteAt(w: nat, y: nat, x: nat): nat { y / 8 * (w * 16) + x / 8 * 16 + y % 8 * 2 + x % 8 / 4 }

  function UnitAt(x: nat): nat { if x % 4 == 0 then 64 else if x % 4 == 1 then 16 else if x % 4 == 2 then 4 else 1 }

  lemma PlaceAt(w: nat, h: nat, y: nat, x: nat)
    requires x < w * 8 && y < h * 8
    ensures y * (w * 8) + x < h * (w * 64) && ByteAt(w, y, x) < h * (w * 16)
    ensures ByteOf(y * (w * 8) + x, w) == ByteAt(w, y, x) && (y * (w * 8) + x) % 4 == x % 4
  {
    var p := Place(y / 8, x / 8, y % 8, x % 8);
    IndexAt(p, w, y, x);
    ByteIs(p, w, y, x);
    PlaceIs(p, w, h, y * (w * 8) + x, ByteAt(w, y, x));
    ColumnIs(x);
  }

  lemma IndexAt(p: Place, w: nat, y: nat, x: nat)
    requires p == Place(y / 8, x / 8, y % 8, x % 8)
    ensures PixelIndex(p, w) == y * (w * 8) + x
  {
    RowIs(w * 8, w * 64, y);
    assert x == x / 8 * 8 + x % 8;
  }

  lemma ByteIs(p: Place, w: nat, y: nat, x: nat)
    requires p == Place(y / 8, x / 8, y % 8, x % 8)
    ensures PackedIndex(p, w) == ByteAt(w, y, x)
  {
  }

  lemma ColumnIs(x: nat)
    ensures x % 8 % 4 == x % 4
  {
  }

  lemma PlaceIs(p: Place, w: nat, h: nat, i: nat, k: nat)
    requires Inside(p, w, h) && i == PixelIndex(p, w) && k == PackedIndex(p, w)
    ensures i < h * (w * 64) && k < h * (w * 16) && ByteOf(i, w) == k && i % 4 == p.column % 4
  {
    PixelOfPlace(p, w, h);
    PackedOfPlace(p, w, h);
    ColumnOfPixel(p, w);
  }

  lemma RowIs(n: nat, n8: nat, y: nat)
    requires n8 == n * 8
    ensures y * n == y / 8 * n8 + y % 8 * n
  {
    var q, r := y / 8, y % 8;
    assert y == q * 8 + r;
    assert (q * 8) * n == q * n8;
    assert (q * 8 + r) * n == (q * 8) * n + r * n;
  }

  lemma SlotAt(b: byte, x: nat)
    ensures Slot(b, x % 4) == b as int / UnitAt(x) % 4
  {
  }

  /** Encoding, by rows and columns: the two bits of a pixel are its highest ones. */
  lemma PackedAt(data: seq<byte>, w: nat, h: nat, y: nat, x: nat)
    requires x < w * 8 && y < h * 8 && h * (w * 64) <= |data|
    ensures ByteAt(w, y, x) < h * (w * 16) && y * (w * 8) + x < |data|
    ensures Packed(data, w, h)[ByteAt(w, y, x)] as int / UnitAt(x) % 4 == data[y * (w * 8) + x] as int / 64
  {
    PlaceAt(w, h, y, x);
    SlotAt(Packed(data, w, h)[ByteAt(w, y, x)], x);
    PackedSlot(data, w, h, y * (w * 8) + x);
  }

  lemma PackedSlot(data: seq<byte>, w: nat, h: nat, i: nat)
    requires w > 0 && i < h * (w * 64) <= |data|
    ensures ByteOf(i, w) < h * (w * 16) && Slot(Packed(data, w, h)[ByteOf(i, w)], i % 4) == data[i] as int / 64
  {
    PixelSlot(i, w, h);
    var k := ByteOf(i, w);
    SlotPixel(k, 3, w, h);
    var f := FirstPixel(k, w);
    SlotOfJoin(data[f] as int / 64, data[f + 1] as int / 64, data[f + 2] as int / 64, data[f + 3] as int / 64);
  }

  /** Decoding, by rows and columns: a pixel is 85 times its two bits. */
  lemma PlainAtPlace(data: seq<byte>, w: nat, h: nat, y: nat, x: nat)
    requires x < w * 8 && y < h * 8 && h * (w * 16) <= |data|
    ensures ByteAt(w, y, x) < |data| && y * (w * 8) + x < h * (w * 64)
    ensures Plain(data, w, h)[y * (w * 8) + x] as int == data[ByteAt(w, y, x)] as int / UnitAt(x) % 4 * 85
  {
    PlaceAt(w, h, y, x);
    SlotAt(data[ByteAt(w, y, x)], x);
  }

  lemma FieldOfExpanded(v: int)
    requires 0 <= v < 4
    ensures Expand(v) as int / 64 == v
  {
  }

  /** Byte k of the packed form of a picture w blocks wide and h blocks high. */
  function PackedByte(data: seq<byte>, w: nat, h: nat, k: nat): byte
    requires w > 0 && k < h * (w * 16) && h * (w * 64) <= |data|
  {
    SlotPixel(k, 3, w, h);
    var i := FirstPixel(k, w);
    Pack(data[i], data[i + 1], data[i + 2], data[i + 3])
  }

  /** Pixel i of the plain form. */
  function PlainPixel(data: seq<byte>, w: nat, h: nat, i: nat): byte
    requires w > 0 && i < h * (w * 64) && h * (w * 16) <= |data|
  {
    PixelSlot(i, w, h);
    Expand(Slot(data[ByteOf(i, w)], i % 4))
  }

  function Packed(data: seq<byte>, w: nat, h: nat): (r: seq<byte>)
    requires w > 0 && h * (w * 64) <= |data|
    ensures |r| == h * (w * 16)
  {
    seq(h * (w * 16), k requires 0 <= k < h * (w * 16) => PackedByte(data, w, h, k))
  }

  function Plain(data: seq<byte>, w: nat, h: nat): (r: seq<byte>)
    requires w > 0 && h * (w * 16) <= |data|
    ensures |r| == h * (w * 64)
  {
    seq(h * (w * 64), i requires 0 <= i < h * (w * 64) => PlainPixel(data, w, h, i))
  }

  function QuantisedAll(data: seq<byte>): (r: seq<byte>)
    ensures |r| == |data|
  {
    seq(|data|, i requires 0 <= i < |data| => Quantised(data[i]))
  }

  /** Packing and unpacking quantises every pixel where it stands: its two top bits
      become an even grey. */
  lemma PlainOfPacked(data: seq<byte>, w: nat, h: nat)
    requires w > 0 && h * (w * 64) <= |data|
    ensures Plain(Packed(data, w, h), w, h) == QuantisedAll(data[..h * (w * 64)])
    ensures forall i :: 0 <= i < h * (w * 64) ==> Plain(Packed(data, w, h), w, h)[i] as int == data[i] as int / 64 * 85
  {
    var d := Packed(data, w, h);
    forall i | 0 <= i < h * (w * 64) ensures PlainPixel(d, w, h, i) == Quantised(data[i]) {
      PackedSlot(data, w, h, i);
    }
  }

  /** Unpacking and packing gives the packed bytes back. */
  lemma PackedOfPlain(data: seq<byte>, w: nat, h: nat)
    requires w > 0 && h * (w * 16) <= |data|
    ensures Packed(Plain(data, w, h), w, h) == data[..h * (w * 16)]
  {
    var p := Plain(data, w, h);
    forall k | 0 <= k < h * (w * 16) ensures PackedByte(p, w, h, k) == data[k] {
      PlainAt(data, w, h, k, 0);
      PlainAt(data, w, h, k, 1);
      PlainAt(data, w, h, k, 2);
      PlainAt(data, w, h, k, 3);
      JoinOfSlots(data[k]);
    }
  }

  lemma PlainAt(data: seq<byte>, w: nat, h: nat, k: nat, s: nat)
    requires w > 0 && k < h * (w * 16) <= |data| && s < 4
    ensures FirstPixel(k, w) + s < h * (w * 64)
    ensures Plain(data, w, h)[FirstPixel(k, w) + s] as int / 64 == Slot(data[k], s)
  {
    SlotPixel(k, s, w, h);
    FieldOfExpanded(Slot(data[k], s));
  }

  /** Where the innermost loop body reads and writes: packed bytes b and b + 1
      against the eight pixels from p on. */
  lemma RowOffsets(w: nat, h: nat, blockRow: nat, block: nat, row: nat, b: nat, p: nat)
    requires blockRow < h && block < w && row < 8
    requires b == blockRow * (w * 16) + block * 16 + row * 2
    requires p == blockRow * (w * 64) + block * 8 + row * (w * 8)
    ensures b + 1 < h * (w * 16) && FirstPixel(b, w) == p && FirstPixel(b + 1, w) == p + 4
    ensures p + 7 < h * (w * 64)
  {
    var left, right := Place(blockRow, block, row, 0), Place(blockRow, block, row, 4);
    assert PackedIndex(left, w) == b && PackedIndex(right, w) == b + 1;
    PackedOfPlace(left, w, h);
    PackedOfPlace(right, w, h);
    SlotPixel(b + 1, 3, w, h);
  }

  /** The first `limit` packed bytes are in place. */
  ghost predicate PackedUpTo(out: seq<byte>, data: seq<byte>, w: nat, h: nat, limit: int)
    requires w > 0 && h * (w * 64) <= |data|
  {
    |out| == h * (w * 16)
    && forall k {:trigger out[k]} :: 0 <= k < h * (w * 16) && k < limit ==> out[k] == PackedByte(data, w, h, k)
  }

  lemma PackedRow(out: seq<byte>, next: seq<byte>, data: seq<byte>, w: nat, h: nat, b: nat, p: nat)
    requires w > 0 && h * (w * 64) <= |data| && PackedUpTo(out, data, w, h, b)
    requires b + 1 < h * (w * 16) && p + 7 < h * (w * 64)
    requires FirstPixel(b, w) == p && FirstPixel(b + 1, w) == p + 4
    requires next == out[b := Pack(data[p], data[p + 1], data[p + 2], data[p + 3])]
                        [b + 1 := Pack(data[p + 4], data[p + 5], data[p + 6], data[p + 7])]
    ensures PackedUpTo(next, data, w, h, b + 2)
  {
  }

  lemma AllPacked(out: seq<byte>, data: seq<byte>, w: nat, h: nat)
    requires w > 0 && h * (w * 64) <= |data| && PackedUpTo(out, data, w, h, h * (w * 16))
    ensures out == Packed(data, w, h)
  {
  }

  /** Whole blocks in a picture of n bytes. */
  function Blocks(n: nat, perRow: nat): (h: nat)
    requires perRow > 0
    ensures h * perRow <= n
  {
    assert n == n / perRow * perRow + n % perRow;
    n / perRow
  }

  /** Four pixels, by the encoder's masks and shifts. */
  function PackPixels(data: seq<byte>, i: nat): (r: byte)
    requires i + 3 < |data|
    ensures r == Pack(data[i], data[i + 1], data[i + 2], data[i + 3])
  {
    PackBitsIs(data[i], data[i + 1], data[i + 2], data[i + 3]);
    PackBits(AsBits(data[i]), AsBits(data[i + 1]), AsBits(data[i + 2]), AsBits(data[i + 3])) as int as byte
  }

  /** The loop over the eight rows of one block. */
  method EncodeBlock(data: seq<byte>, w: nat, h: nat, blockRow: nat, block: nat, buffer: seq<byte>)
    returns (out: seq<byte>)
    requires blockRow < h && block < w && h * (w * 64) <= |data|
    requires PackedUpTo(buffer, data, w, h, blockRow * (w * 16) + block * 16)
    ensures PackedUpTo(out, data, w, h, blockRow * (w * 16) + block * 16 + 16)
  {
    out := buffer;
    for row := 0 to 8
      invariant PackedUpTo(out, data, w, h, blockRow * (w * 16) + block * 16 + row * 2)
    {
      var src := blockRow * (w * 64) + block * 8 + row * (w * 8);
      var dst := blockRow * (w * 16) + block * 16 + row * 2;
      RowOffsets(w, h, blockRow, block, row, dst, src);
      ghost var before := out;
      out := out[dst := PackPixels(data, src)];
      out := out[dst + 1 := PackPixels(data, src + 4)];
      PackedRow(before, out, data, w, h, dst, src);
    }
  }

  /** A width below 8 makes the source divide by zero; the bounds keep its
      32-bit index arithmetic exact. */
  method I2Encode(image: Image) returns (out: Image)
    requires image.width >= 8 && image.width / 8 * 64 < U32
    requires Blocks(|image.data|, image.width / 8 * 64) * (image.width / 8 * 64) <= U32
    ensures var w := image.width / 8;
            out == Image(Packed(image.data, w, Blocks(|image.data|, w * 64)), w * 8)
  {
    var data := image.data;
    var w := image.width / 8;
    var h := Blocks(|data|, w * 64);
    var buffer: seq<byte> := seq(h * (w * 16), _ => 0);
    for blockRow := 0 to h
      invariant PackedUpTo(buffer, data, w, h, blockRow * (w * 16))
    {
      for block := 0 to w
        invariant PackedUpTo(buffer, data, w, h, blockRow * (w * 16) + block * 16)
      {
        buffer := EncodeBlock(data, w, h, blockRow, block, buffer);
      }
      DistributeOne(blockRow, w * 16);
    }
    AllPacked(buffer, data, w, h);
    out := Image(buffer, w * 8);
  }

  lemma DistributeOne(n: nat, d: nat)
    ensures n * d + d == (n + 1) * d
  {
  }

  /** Every pixel whose packed byte comes before `limit` is in place. */
  ghost predicate PlainUpTo(out: seq<byte>, data: seq<byte>, w: nat, h: nat, limit: int)
    requires w > 0 && h * (w * 16) <= |data|
  {
    |out| == h * (w * 64)
    && forall i {:trigger out[i]} :: 0 <= i < h * (w * 64) && ByteOf(i, w) < limit ==> out[i] == PlainPixel(data, w, h, i)
  }

  /** The eight pixels that packed bytes b and b + 1 spell. */
  function EightPixels(b: byte, c: byte): (r: seq<byte>)
    ensures |r| == 8
  {
    [Expand(Slot(b, 0)), Expand(Slot(b, 1)), Expand(Slot(b, 2)), Expand(Slot(b, 3)),
     Expand(Slot(c, 0)), Expand(Slot(c, 1)), Expand(Slot(c, 2)), Expand(Slot(c, 3))]
  }

  lemma PlainRow(out: seq<byte>, next: seq<byte>, data: seq<byte>, w: nat, h: nat, b: nat, p: nat)
    requires w > 0 && h * (w * 16) <= |data| && PlainUpTo(out, data, w, h, b)
    requires b + 1 < h * (w * 16) && p + 7 < h * (w * 64)
    requires FirstPixel(b, w) == p && FirstPixel(b + 1, w) == p + 4
    requires next == out[..p] + EightPixels(data[b], data[b + 1]) + out[p + 8..]
    ensures PlainUpTo(next, data, w, h, b + 2)
  {
    var eight := EightPixels(data[b], data[b + 1]);
    forall i | 0 <= i < h * (w * 64) && ByteOf(i, w) < b + 2 ensures next[i] == PlainPixel(data, w, h, i) {
      PixelSlot(i, w, h);
      if ByteOf(i, w) < b {
        assert out[i] == PlainPixel(data, w, h, i);
        if p <= i < p + 4 { SlotPixel(b, i - p, w, h); }
        if p + 4 <= i < p + 8 { SlotPixel(b + 1, i - p - 4, w, h); }
      } else if ByteOf(i, w) == b {
        assert i == p + i % 4 && next[i] == eight[i % 4];
      } else {
        assert i == p + 4 + i % 4 && next[i] == eight[4 + i % 4];
      }
    }
  }

  lemma AllPlain(out: seq<byte>, data: seq<byte>, w: nat, h: nat)
    requires w > 0 && h * (w * 16) <= |data| && PlainUpTo(out, data, w, h, h * (w * 16))
    ensures out == Plain(data, w, h)
  {
    forall i | 0 <= i < h * (w * 64) ensures out[i] == PlainPixel(data, w, h, i) {
      PixelSlot(i, w, h);
    }
  }

  /** The four pixels of a packed byte, by the decoder's shifts and masks. */
  function FourPixels(b: byte): (r: seq<byte>)
    ensures r == [Expand(Slot(b, 0)), Expand(Slot(b, 1)), Expand(Slot(b, 2)), Expand(Slot(b, 3))]
  {
    SlotBitsIs(b, 0);
    SlotBitsIs(b, 1);
    SlotBitsIs(b, 2);
    SlotBitsIs(b, 3);
    var v := AsBits(b);
    [Expand(SlotBits(v, 0) as int), Expand(SlotBits(v, 1) as int), Expand(SlotBits(v, 2) as int), Expand(SlotBits(v, 3) as int)]
  }

  method DecodeBlock(data: seq<byte>, w: nat, h: nat, blockRow: nat, block: nat, buffer: seq<byte>)
    returns (out: seq<byte>)
    requires blockRow < h && block < w && h * (w * 16) <= |data|
    requires PlainUpTo(buffer, data, w, h, blockRow * (w * 16) + block * 16)
    ensures PlainUpTo(out, data, w, h, blockRow * (w * 16) + block * 16 + 16)
  {
    out := buffer;
    for row := 0 to 8
      invariant PlainUpTo(out, data, w, h, blockRow * (w * 16) + block * 16 + row * 2)
    {
      var src := blockRow * (w * 16) + block * 16 + row * 2;
      var dst := blockRow * (w * 64) + block * 8 + row * (w * 8);
      RowOffsets(w, h, blockRow, block, row, src, dst);
      ghost var before := out;
      out := out[..dst] + FourPixels(data[src]) + FourPixels(data[src + 1]) + out[dst + 8..];
      assert out == before[..dst] + EightPixels(data[src], data[src + 1]) + before[dst + 8..];
      PlainRow(before, out, data, w, h, src, dst);
    }
  }

  /** A width of 0 makes the source divide by zero. */
  method I2Decode(image: Image) returns (out: Image)
    requires image.width > 0 && image.width + 7 < U32 && (image.width + 7) / 8 * 64 < U32
    requires Blocks(|image.data|, (image.width + 7) / 8 * 16) * ((image.width + 7) / 8 * 64) < U32
    ensures var w := (image.width + 7) / 8;
            out == Image(Plain(image.data, w, Blocks(|image.data|, w * 16)), w * 8)
  {
    var data := image.data;
    var w := (image.width + 7) / 8;
    var h := Blocks(|data|, w * 16);
    var buffer: seq<byte> := seq(h * (w * 64), _ => 0);
    for blockRow := 0 to h
      invariant PlainUpTo(buffer, data, w, h, blockRow * (w * 16))
    {
      for block := 0 to w
        invariant PlainUpTo(buffer, data, w, h, blockRow * (w * 16) + block * 16)
      {
        buffer := DecodeBlock(data, w, h, blockRow, block, buffer);
      }
      DistributeOne(blockRow, w * 16);
    }
    AllPlain(buffer, data, w, h);
    out := Image(buffer, w * 8);
  }
}
