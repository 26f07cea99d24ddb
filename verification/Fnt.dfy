/** The font file, the bitmap written for viewing it, and the way back. */
module Fnt {
  import opened Bytes
  import Arithmetic
  import opened FontImage
  import Yay0Tokens
  import Yay0Decoder
  import opened Yay0RoundTrip

  datatype FontType = Windows1252 | ShiftJis

  const CELL_SIZE := 24
  const CELLS_PER_ROW := 21
  const PIXMAP_WIDTH := 512

  /** Bytes 0x00 to 0x1D of the header. */
  function HeaderFront(kind: FontType): (r: seq<byte>)
    ensures |r| == 0x1E
  {
    Be16(if kind.Windows1252? then 0 else 2)
    + Be16(if kind.Windows1252? then 0x0020 else 0x8140)
    + Be16(if kind.Windows1252? then 0x00FF else 0x9872)
    + Be16(0x20) + Be16(CELL_SIZE) + Be16(0x00) + Be16(CELL_SIZE) + Be16(CELL_SIZE * 7 / 6)
    + Be16(CELL_SIZE) + Be16(CELL_SIZE)
    + Be32(PIXMAP_WIDTH * PIXMAP_WIDTH / 2)
    + Be16(0x00) + Be16(CELLS_PER_ROW) + Be16(CELLS_PER_ROW)
  }

  /** Bytes 0x20 to 0x23: texture height and offset of the widths. */
  function HeaderMiddle(): (r: seq<byte>)
    ensures |r| == 4
  {
    Be16(PIXMAP_WIDTH) + Be16(0x30)
  }

  /** Bytes 0x28 to 0x2F: tile data size and greyscale ramp. */
  function HeaderBack(pixmap: seq<byte>): (r: seq<byte>)
    ensures |r| == 8
  {
    Be32(2 * |pixmap|) + Be32(0x0055AAFF)
  }

  /** generate_fnt.  The pixmap's own width is not recorded: the header always
      says 512. */
  function GenerateFnt(kind: FontType, widths: seq<byte>, pixmap: Image): (r: seq<byte>)
    ensures |r| == 0x30 + |widths| + |pixmap.data|
  {
    HeaderFront(kind) + Be16(PIXMAP_WIDTH) + HeaderMiddle() + Be32(0x30 + |widths|) + HeaderBack(pixmap.data)
    + widths + pixmap.data
  }

  lemma Be16At(s: seq<byte>, pre: seq<byte>, v: nat, post: seq<byte>)
    requires s == pre + (Be16(v) + post) && v < U16
    ensures InRange(s, |pre|, 2) && ReadBe16(s, |pre|) == v
  {
    assert s == pre + Be16(v) + post;
    Be16ReadBack(pre, v, post);
  }

  lemma Regroup7(a: seq<byte>, b: seq<byte>, c: seq<byte>, d: seq<byte>, e: seq<byte>, f: seq<byte>, g: seq<byte>)
    ensures a + b + c + d + e + f + g == a + (b + (c + d + e + f + g))
    ensures a + b + c + d + e + f + g == (a + b + c) + (d + (e + f + g))
    ensures a + b + c + d + e + f + g == (a + b + c + d + e + f) + g
  {
  }

  /** The two fields the viewer reads, and where the tiles are. */
  lemma FntFields(kind: FontType, widths: seq<byte>, pixmap: Image)
    requires 0x30 + |widths| < U32
    ensures var f := GenerateFnt(kind, widths, pixmap);
            && ReadBe16(f, 0x1E) == PIXMAP_WIDTH
            && ReadBe32(f, 0x24) == 0x30 + |widths|
            && f[0x30 + |widths|..] == pixmap.data
  {
    var f := GenerateFnt(kind, widths, pixmap);
    var a, b, c, d, e := HeaderFront(kind), Be16(PIXMAP_WIDTH), HeaderMiddle(), Be32(0x30 + |widths|), HeaderBack(pixmap.data);
    Regroup7(a, b, c, d, e, widths, pixmap.data);
    Be16At(f, a, PIXMAP_WIDTH, c + d + e + widths + pixmap.data);
    Field(f, a + b + c, 0x30 + |widths|, e + widths + pixmap.data);
  }

  /** The header points at the widths, and says how much tile data there is. */
  lemma FntWidths(kind: FontType, widths: seq<byte>, pixmap: Image)
    requires 2 * |pixmap.data| < U32
    ensures var f := GenerateFnt(kind, widths, pixmap);
            && ReadBe16(f, 0x22) == 0x30 && f[0x30..0x30 + |widths|] == widths
            && ReadBe32(f, 0x28) == 2 * |pixmap.data|
  {
    var f := GenerateFnt(kind, widths, pixmap);
    var a, b, d := HeaderFront(kind) + Be16(PIXMAP_WIDTH), Be16(PIXMAP_WIDTH), Be32(0x30 + |widths|);
    var rest := Be32(0x0055AAFF) + widths + pixmap.data;
    Regroup7(a, HeaderMiddle(), d, Be32(2 * |pixmap.data|), Be32(0x0055AAFF), widths, pixmap.data);
    assert f == (a + b) + (Be16(0x30) + (d + Be32(2 * |pixmap.data|) + rest));
    Be16At(f, a + b, 0x30, d + Be32(2 * |pixmap.data|) + rest);
    Field(f, a + HeaderMiddle() + d, 2 * |pixmap.data|, rest);
  }

  /** The rest of the header, byte by byte: font type, first and last character,
      invalid character, ascent, descent, widest character, leading space, cell width
      and height, texture size, format, columns and rows; then texture width and height
      and the greys. */
  lemma FntBytes(kind: FontType, widths: seq<byte>, pixmap: Image)
    ensures var f := GenerateFnt(kind, widths, pixmap);
            && f[..6] == (if kind.Windows1252? then [0, 0, 0, 0x20, 0, 0xFF] else [0, 2, 0x81, 0x40, 0x98, 0x72])
            && f[6..0x14] == [0, 0x20, 0, 24, 0, 0, 0, 24, 0, 28, 0, 24, 0, 24]
            && f[0x14..0x22] == [0, 2, 0, 0, 0, 0, 0, 21, 0, 21, 2, 0, 2, 0]
            && f[0x2C..0x30] == [0, 0x55, 0xAA, 0xFF]
  {
    FrontBytes(kind);
    var a, b, c, d, e := HeaderFront(kind), Be16(PIXMAP_WIDTH), HeaderMiddle(), Be32(0x30 + |widths|), HeaderBack(pixmap.data);
    Regroup7(a, b, c, d, e, widths, pixmap.data);
    SliceOfFront(a, b, c, d + e + widths + pixmap.data);
    SliceOfBack(a + b + c + d, Be32(2 * |pixmap.data|), Be32(0x0055AAFF), widths + pixmap.data);
    BackRegrouped(a + b + c + d, Be32(2 * |pixmap.data|), Be32(0x0055AAFF), widths, pixmap.data);
  }

  lemma FrontBytes(kind: FontType)
    ensures HeaderFront(kind)[..6] == if kind.Windows1252? then [0, 0, 0, 0x20, 0, 0xFF] else [0, 2, 0x81, 0x40, 0x98, 0x72]
    ensures HeaderFront(kind)[6..0x14] == [0, 0x20, 0, 24, 0, 0, 0, 24, 0, 28, 0, 24, 0, 24]
    ensures HeaderFront(kind)[0x14..] == [0, 2, 0, 0, 0, 0, 0, 21, 0, 21]
  {
  }

  lemma SliceOfFront(a: seq<byte>, b: seq<byte>, c: seq<byte>, rest: seq<byte>)
    requires |a| == 0x1E && |b| == 2 && |c| == 4
    ensures (a + (b + (c + rest)))[..6] == a[..6] && (a + (b + (c + rest)))[6..0x14] == a[6..0x14]
    ensures (a + (b + (c + rest)))[0x14..0x22] == a[0x14..] + b + c[..2]
  {
  }

  lemma SliceOfBack(front: seq<byte>, size: seq<byte>, greys: seq<byte>, rest: seq<byte>)
    requires |front| == 0x28 && |size| == |greys| == 4
    ensures (front + (size + greys + rest))[0x2C..0x30] == greys
  {
  }

  lemma BackRegrouped(front: seq<byte>, size: seq<byte>, greys: seq<byte>, widths: seq<byte>, tiles: seq<byte>)
    ensures front + (size + greys) + widths + tiles == front + (size + greys + (widths + tiles))
  {
  }

  const BMP_HEADER_SIZE := 14 + 40 + 4 * 256

  /** The first n entries of the greyscale colour table. */
  function Palette(n: nat): (r: seq<byte>)
    ensures |r| == 4 * n
  {
    if n == 0 then [] else Palette(n - 1) + Be32(0x01010100 * (n - 1))
  }

  /** Entry i is blue, green and red i and a zero byte. */
  lemma {:induction false} PaletteEntry(n: nat, i: nat)
    requires i < n <= 256
    ensures Palette(n)[4 * i..4 * i + 4] == [i as byte, i as byte, i as byte, 0]
  {
    if i < n - 1 {
      PaletteEntry(n - 1, i);
      assert Palette(n)[4 * i..4 * i + 4] == Palette(n - 1)[4 * i..4 * i + 4];
    } else {
      assert Palette(n)[4 * i..4 * i + 4] == Be32(0x01010100 * i);
      Grey(i);
    }
  }

  lemma Grey(i: nat)
    requires i < 256
    ensures Be32(0x01010100 * i) == [i as byte, i as byte, i as byte, 0]
  {
    assert 0x01010100 * i / U16 == 0x0101 * i;
    assert 0x01010100 * i / 256 == 0x010101 * i;
    assert 0x0101 * i / 256 == i;
  }

  /** Bytes 0 to 13: the file header. */
  function FileHead(dataSize: nat): (r: seq<byte>)
    ensures |r| == 14
  {
    ['B' as byte, 'M' as byte] + Le32(BMP_HEADER_SIZE + dataSize) + Le32(0) + Le32(BMP_HEADER_SIZE)
  }

  /** Bytes 14 to 53: the picture header. */
  function PictureHead(width: nat, height: nat): (r: seq<byte>)
    ensures |r| == 40
  {
    Le32(40) + Le32(width) + Le32(0 - height) + (Le16(1) + Le16(8) + Le32(0) + Le32(0) + Le32(0) + Le32(0) + Le32(0) + Le32(0))
  }

  function BmpHead(image: Image): (r: seq<byte>)
    requires image.width > 0
    ensures |r| == 54
  {
    FileHead(|image.data|) + PictureHead(image.width, |image.data| / image.width)
  }

  function BmpHeader(image: Image): (r: seq<byte>)
    requires image.width > 0
    ensures |r| == BMP_HEADER_SIZE
  {
    BmpHead(image) + Palette(256)
  }

  method GenerateBmpHeader(image: Image) returns (result: seq<byte>)
    requires image.width > 0
    ensures result == BmpHeader(image)
  {
    result := BmpHead(image);
    for i := 0 to 256
      invariant result == BmpHead(image) + Palette(i)
    {
      result := result + Be32(0x01010100 * i);
    }
  }

  /** The fields of a bitmap file that a reader needs: its own length, where the
      pixels are, the width, and the height, negative for rows from the top. */
  lemma BmpFields(image: Image, height: nat)
    requires image.width > 0 && |image.data| == height * image.width
    ensures var f := BmpHeader(image) + image.data;
            && f[2..6] == Le32(|f|) && f[10..14] == Le32(BMP_HEADER_SIZE) && f[BMP_HEADER_SIZE..] == image.data
            && f[18..22] == Le32(image.width) && f[22..26] == Le32(0 - height)
  {
    Arithmetic.DivMod(height, image.width, 0);
    var a, b, rest := FileHead(|image.data|), PictureHead(image.width, height), Palette(256) + image.data;
    assert BmpHeader(image) + image.data == a + b + rest;
    HeadSlices(a, b, rest);
    FileFields(|image.data|);
    PictureFields(image.width, height);
  }

  /** And the rest of the bitmap's headers, byte by byte: its mark, the sizes, one
      plane of 8 bits, no compression. */
  lemma HeadBytes(f: seq<byte>, size: nat, width: nat, height: nat, rest: seq<byte>)
    requires f == FileHead(size) + PictureHead(width, height) + rest
    ensures && f[..2] == [0x42, 0x4D] && f[6..10] == [0, 0, 0, 0] && f[10..14] == [0x36, 4, 0, 0] && f[14..18] == [40, 0, 0, 0]
            && f[26..30] == [1, 0, 8, 0] && f[30..54] == Zeros(24)
  {
    FileBytes(size);
    PictureBytes(width, height);
    MoreSlices(FileHead(size), PictureHead(width, height), rest);
  }

  function Zeros(n: nat): seq<byte> { seq(n, _ => 0) }

  lemma FileBytes(size: nat)
    ensures var a := FileHead(size); a[..2] == [0x42, 0x4D] && a[6..10] == [0, 0, 0, 0] && a[10..] == [0x36, 4, 0, 0]
  {
  }

  lemma PictureBytes(width: nat, height: nat)
    ensures var b := PictureHead(width, height);
            b[..4] == [40, 0, 0, 0] && b[12..16] == [1, 0, 8, 0] && b[16..] == Zeros(24)
  {
  }

  lemma MoreSlices(a: seq<byte>, b: seq<byte>, rest: seq<byte>)
    requires |a| == 14 && |b| == 40
    ensures (a + b + rest)[..2] == a[..2] && (a + b + rest)[6..10] == a[6..10] && (a + b + rest)[10..14] == a[10..]
    ensures (a + b + rest)[14..18] == b[..4] && (a + b + rest)[26..30] == b[12..16]
    ensures (a + b + rest)[30..54] == b[16..]
  {
  }

  lemma HeadSlices(a: seq<byte>, b: seq<byte>, rest: seq<byte>)
    requires |a| == 14 && |b| == 40
    ensures (a + b + rest)[2..6] == a[2..6] && (a + b + rest)[10..14] == a[10..14]
    ensures (a + b + rest)[18..22] == b[4..8] && (a + b + rest)[22..26] == b[8..12]
  {
  }

  lemma FileFields(size: nat)
    ensures FileHead(size)[2..6] == Le32(BMP_HEADER_SIZE + size) && FileHead(size)[10..14] == Le32(BMP_HEADER_SIZE)
  {
  }

  lemma PictureFields(width: nat, height: nat)
    ensures PictureHead(width, height)[4..8] == Le32(width) && PictureHead(width, height)[8..12] == Le32(0 - height)
  {
  }

  /** fnt_to_bmp as a function. */
  function FntToBmpOf(input: seq<byte>): Outcome<seq<byte>> {
    match Yay0Decoder.Decompressed(input)
    case Ok(font) => Viewed(font)
    case NotYay0 => NotYay0
    case Invalid => Invalid
    case OutOfRange => OutOfRange
    case Undefined => Undefined
  }

  /** The part after unpacking.  read_be32 throws std::out_of_range on a font of
      less than 0x28 bytes.  A tile offset behind the end, a zero width, and a picture
      whose size does not fit 32 bits (the decoder then stores past the end of what it
      has allocated) are undefined behaviour. */
  function Viewed(font: seq<byte>): Outcome<seq<byte>> {
    if |font| < 0x28 then OutOfRange
    else if ReadBe32(font, 0x24) > |font| || ReadBe16(font, 0x1E) == 0 then Undefined
    else
      var tiles, width := font[ReadBe32(font, 0x24)..], ReadBe16(font, 0x1E);
      if PictureSize(|tiles|, width) >= U32 then Undefined else Ok(View(tiles, width))
  }

  /** How many pixels the whole blocks of the tile data hold. */
  function PictureSize(tiles: nat, width: nat): nat
    requires width > 0
  {
    Blocks(tiles, (width + 7) / 8 * 16) * ((width + 7) / 8 * 64)
  }

  /** The bitmap for tile data of the given width. */
  function View(tiles: seq<byte>, width: nat): seq<byte>
    requires width > 0
  {
    var w := (width + 7) / 8;
    var image := Image(Plain(tiles, w, Blocks(|tiles|, w * 16)), w * 8);
    BmpHeader(image) + image.data
  }

  method ViewFont(font: seq<byte>) returns (outcome: Outcome<seq<byte>>)
    ensures outcome == Viewed(font)
  {
    if |font| < 0x28 { return OutOfRange; }
    var start, width := ReadBe32(font, 0x24), ReadBe16(font, 0x1E);
    if start > |font| || width == 0 || PictureSize(|font| - start, width) >= U32 { return Undefined; }
    var dest := I2Decode(Image(font[start..], width));
    var bitmap := GenerateBmpHeader(dest);
    outcome := Ok(bitmap + dest.data);
  }

  method FntToBmp(input: seq<byte>) returns (outcome: Outcome<seq<byte>>)
    ensures outcome == FntToBmpOf(input)
  {
    var unpacked := Yay0Decoder.Decompress(input);
    match unpacked {
      case Ok(font) => outcome := ViewFont(font);
      case NotYay0 => return NotYay0;
      case Invalid => return Invalid;
      case OutOfRange => return OutOfRange;
      case Undefined => return Undefined;
    }
  }

  /** Viewing packed tiles shows every pixel quantised in place. */
  lemma ViewOfPacked(data: seq<byte>, w: nat, h: nat)
    requires w > 0 && |data| == h * (w * 64)
    ensures View(Packed(data, w, h), w * 8)
         == BmpHeader(Image(QuantisedAll(data), w * 8)) + QuantisedAll(data)
  {
    PlainOfPacked(data, w, h);
    assert data[..h * (w * 64)] == data;
    assert (w * 8 + 7) / 8 == w;
    BlocksExact(h, w * 16);
  }

  /** A font of any width is shown in whole blocks, w in a row and h rows of them: the
      pixel at row y, column x is 85 times its two bits, which stand where the font's
      offset of the tiles points. */
  lemma ViewShows(font: seq<byte>, start: nat, width: nat, w: nat, h: nat, y: nat, x: nat)
    requires |font| >= 0x28 && start == ReadBe32(font, 0x24) <= |font| && width == ReadBe16(font, 0x1E) > 0
    requires w == (width + 7) / 8 && h == (|font| - start) / (w * 16) && h * (w * 64) < U32
    requires x < w * 8 && y < h * 8
    ensures Viewed(font).Ok? && start + ByteAt(w, y, x) < |font|
    ensures var f := Viewed(font).value;
            && 0x436 + y * (w * 8) + x < |f|
            && f[0x436 + y * (w * 8) + x] as int == font[start + ByteAt(w, y, x)] as int / UnitAt(x) % 4 * 85
  {
    var tiles := font[start..];
    assert Blocks(|tiles|, w * 16) == h && PictureSize(|tiles|, width) == h * (w * 64);
    TileShown(tiles, width, w, h, y, x, y * (w * 8) + x);
    assert Viewed(font) == Ok(View(tiles, width));
  }

  lemma TileShown(tiles: seq<byte>, width: nat, w: nat, h: nat, y: nat, x: nat, i: nat)
    requires width > 0 && w == (width + 7) / 8 && h == Blocks(|tiles|, w * 16) && x < w * 8 && y < h * 8 && i == y * (w * 8) + x
    ensures ByteAt(w, y, x) < |tiles| && 0x436 + i < |View(tiles, width)|
    ensures View(tiles, width)[0x436 + i] as int == tiles[ByteAt(w, y, x)] as int / UnitAt(x) % 4 * 85
  {
    PlainAtPlace(tiles, w, h, y, x);
    var image := Image(Plain(tiles, w, h), w * 8);
    BehindHeader(BmpHeader(image), image.data, i);
  }

  lemma BehindHeader(header: seq<byte>, data: seq<byte>, i: nat)
    requires |header| == 0x436 && i < |data|
    ensures (header + data)[0x436 + i] == data[i]
  {
  }

  lemma BlocksExact(h: nat, perRow: nat)
    requires perRow > 0
    ensures Blocks(h * perRow, perRow) == h
  {
    Arithmetic.DivMod(h, perRow, 0);
  }

  /** End to end: a picture 512 pixels wide and made of whole blocks, packed into
      a font file, compressed, and viewed, comes back as a bitmap in which every
      pixel p has become (p >> 6) * 0x55. */
  lemma {:induction false} EndToEnd(kind: FontType, widths: seq<byte>, pixmap: Image)
    requires pixmap.width == PIXMAP_WIDTH && |pixmap.data| % (PIXMAP_WIDTH * 8) == 0 && |pixmap.data| < U32
    requires var n := 0x30 + |widths| + |pixmap.data| / 4; 16 + n + (n + 7) / 8 <= U32
    ensures var w := pixmap.width / 8;
            var font := GenerateFnt(kind, widths, Image(Packed(pixmap.data, w, Blocks(|pixmap.data|, w * 64)), w * 8));
            FntToBmpOf(Yay0Tokens.Compressed(font))
            == Ok(BmpHeader(Image(QuantisedAll(pixmap.data), PIXMAP_WIDTH)) + QuantisedAll(pixmap.data))
    ensures |QuantisedAll(pixmap.data)| == |pixmap.data|
            && forall i :: 0 <= i < |pixmap.data| ==> QuantisedAll(pixmap.data)[i] as int == pixmap.data[i] as int / 64 * 85
  {
    var data, w := pixmap.data, pixmap.width / 8;
    var h := Blocks(|data|, w * 64);
    assert |data| == h * (w * 64);
    var tiles := Image(Packed(data, w, h), w * 8);
    var font := GenerateFnt(kind, widths, tiles);
    assert |font| == 0x30 + |widths| + |data| / 4;
    RoundTripBySize(font);
    FntFields(kind, widths, tiles);
    ViewOfPacked(data, w, h);
    PackedSize(h, w);
  }

  /** Packed data of whole blocks unpacks to as many pixels as were packed. */
  lemma PackedSize(h: nat, w: nat)
    requires w > 0
    ensures PictureSize(h * (w * 16), w * 8) == h * (w * 64)
  {
    assert (w * 8 + 7) / 8 == w;
    BlocksExact(h, w * 16);
  }
}
