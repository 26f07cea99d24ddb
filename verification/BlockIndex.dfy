/** Mixed-radix arithmetic for the two pixel layouts. */
module BlockIndex {

  import opened Arithmetic

  /** A place in a picture of blocks that is w blocks wide: block row, block,
      row inside the block, column inside the block. */
  datatype Place = Place(blockRow: nat, block: nat, row: nat, column: nat)

  predicate Inside(p: Place, w: nat, h: nat) {
    p.blockRow < h && p.block < w && p.row < 8 && p.column < 8
  }

  /** Index of a pixel in the plain row-by-row picture. */
  function PixelIndex(p: Place, w: nat): nat {
    p.blockRow * (w * 64) + (p.row * (w * 8) + (p.block * 8 + p.column))
  }

  /** Index of the packed byte that holds a pixel. */
  function PackedIndex(p: Place, w: nat): nat {
    p.blockRow * (w * 16) + (p.block * 16 + (p.row * 2 + p.column / 4))
  }

  function PlaceOfPixel(i: nat, w: nat): Place
    requires w > 0
  {
    Place(i / (w * 64), i % (w * 64) % (w * 8) / 8, i % (w * 64) / (w * 8), i % (w * 64) % (w * 8) % 8)
  }

  /** The place of slot s (0 to 3) of packed byte k. */
  function PlaceOfSlot(k: nat, s: nat, w: nat): Place
    requires w > 0
  {
    Place(k / (w * 16), k % (w * 16) / 16, k % (w * 16) % 16 / 2, k % (w * 16) % 16 % 2 * 4 + s)
  }

  lemma PixelOfPlace(p: Place, w: nat, h: nat)
    requires Inside(p, w, h)
    ensures PixelIndex(p, w) < h * (w * 64)
    ensures PlaceOfPixel(PixelIndex(p, w), w) == p
  {
    var inRow := p.block * 8 + p.column;
    assert inRow < w * 8 by { MulStep(p.block, w, 8); }
    var inBlockRow := p.row * (w * 8) + inRow;
    assert inBlockRow < w * 64 by { MulStep(p.row, 8, w * 8); }
    MulStep(p.blockRow, h, w * 64);
    DivMod(p.blockRow, w * 64, inBlockRow);
    DivMod(p.row, w * 8, inRow);
    DivMod(p.block, 8, p.column);
  }

  lemma PlaceOfPixelInside(i: nat, w: nat, h: nat)
    requires w > 0 && i < h * (w * 64)
    ensures Inside(PlaceOfPixel(i, w), w, h)
    ensures PixelIndex(PlaceOfPixel(i, w), w) == i
  {
    var q, r := i / (w * 64), i % (w * 64);
    assert i == q * (w * 64) + r;
    if q >= h { MulMono(h, q, w * 64); }
    assert r == r / (w * 8) * (w * 8) + r % (w * 8);
    if r / (w * 8) >= 8 { MulMono(8, r / (w * 8), w * 8); }
  }

  lemma PackedOfPlace(p: Place, w: nat, h: nat)
    requires Inside(p, w, h)
    ensures PackedIndex(p, w) < h * (w * 16)
    ensures PlaceOfSlot(PackedIndex(p, w), p.column % 4, w) == p
  {
    var inBlock := p.row * 2 + p.column / 4;
    var inBlockRow := p.block * 16 + inBlock;
    assert inBlockRow < w * 16 by { MulStep(p.block, w, 16); }
    MulStep(p.blockRow, h, w * 16);
    DivMod(p.blockRow, w * 16, inBlockRow);
    DivMod(p.block, 16, inBlock);
    DivMod(p.row, 2, p.column / 4);
  }

  lemma PlaceOfSlotInside(k: nat, s: nat, w: nat, h: nat)
    requires w > 0 && k < h * (w * 16) && s < 4
    ensures Inside(PlaceOfSlot(k, s, w), w, h)
    ensures PackedIndex(PlaceOfSlot(k, s, w), w) == k && PlaceOfSlot(k, s, w).column % 4 == s
  {
    var q, r := k / (w * 16), k % (w * 16);
    assert k == q * (w * 16) + r;
    if q >= h { MulMono(h, q, w * 16); }
    assert r == r / 16 * 16 + r % 16;
  }

  /** The packed byte of pixel i, and the first pixel of packed byte k. */
  function ByteOf(i: nat, w: nat): nat
    requires w > 0
  {
    PackedIndex(PlaceOfPixel(i, w), w)
  }

  function FirstPixel(k: nat, w: nat): nat
    requires w > 0
  {
    PixelIndex(PlaceOfSlot(k, 0, w), w)
  }

  /** Packing is one-to-one: pixel i is slot i mod 4 of byte ByteOf(i), and that
      byte's four pixels are consecutive. */
  lemma {:induction false} PixelSlot(i: nat, w: nat, h: nat)
    requires w > 0 && i < h * (w * 64)
    ensures ByteOf(i, w) < h * (w * 16)
    ensures FirstPixel(ByteOf(i, w), w) + i % 4 == i
  {
    PlaceOfPixelInside(i, w, h);
    var p := PlaceOfPixel(i, w);
    PackedOfPlace(p, w, h);
    var k := PackedIndex(p, w);
    assert PlaceOfSlot(k, p.column % 4, w) == p;
    ColumnOfPixel(p, w);
  }

  lemma ColumnOfPixel(p: Place, w: nat)
    requires p.column < 8
    ensures PixelIndex(p, w) % 8 == p.column && PixelIndex(p, w) % 4 == p.column % 4
  {
    var t := p.blockRow * (w * 8) + (p.row * w + p.block);
    TimesEight(p.blockRow, p.row, p.block, w);
    DivMod(t, 8, p.column);
    DivMod(2 * t + p.column / 4, 4, p.column % 4);
  }

  lemma TimesEight(a: nat, b: nat, c: nat, w: nat)
    ensures a * (w * 64) + b * (w * 8) + c * 8 == (a * (w * 8) + (b * w + c)) * 8
  {
    assert a * (w * 64) == a * (w * 8) * 8 by { assert a * (w * 64) == (a * w) * 64; assert a * (w * 8) == (a * w) * 8; }
    assert b * (w * 8) == (b * w) * 8;
  }

  lemma {:induction false} SlotPixel(k: nat, s: nat, w: nat, h: nat)
    requires w > 0 && k < h * (w * 16) && s < 4
    ensures FirstPixel(k, w) + s < h * (w * 64)
    ensures ByteOf(FirstPixel(k, w) + s, w) == k && (FirstPixel(k, w) + s) % 4 == s
  {
    PlaceOfSlotInside(k, s, w, h);
    var p := PlaceOfSlot(k, s, w);
    assert PixelIndex(p, w) == FirstPixel(k, w) + s;
    PixelOfPlace(p, w, h);
    ColumnOfPixel(p, w);
  }
}
