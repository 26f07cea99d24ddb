/** In-place Floyd-Steinberg dithering to four grey levels. */
module Dither {
  import opened Arithmetic
  import opened Bytes
  import opened ByteBits

  /** dither_add_clamp on one pixel value. */
  function AddClamp(pixel: byte, error: int): byte {
    if pixel as int + error < 0 then 0
    else if pixel as int + error > 255 then 255
    else (pixel as int + error) as byte
  }

  /** The grey level at or below a pixel value. */
  function Level(pixel: byte): byte { (pixel as int / 64 * 64) as byte }

  lemma TopBitsMask(v: bv8)
    ensures (v & 0xC0) as int == (v >> 6) as int * 64
  {
  }

  /** Masking off the lower six bits. */
  function TopBits(pixel: byte): (r: byte)
    ensures r == Level(pixel)
  {
    AsBitsIs(pixel);
    ValueByFields(AsBits(pixel));
    TopBitsMask(AsBits(pixel));
    (AsBits(pixel) & 0xC0) as int as byte
  }

  predicate IsLevel(pixel: byte) { pixel == 0 || pixel == 0x40 || pixel == 0x80 || pixel == 0xC0 }

  function Spread(s: seq<byte>, j: nat, error: int): (r: seq<byte>)
    requires j < |s|
    ensures |r| == |s|
  {
    s[j := AddClamp(s[j], error)]
  }

  function SpreadIf(s: seq<byte>, there: bool, j: int, error: int): (r: seq<byte>)
    requires there ==> 0 <= j < |s|
    ensures |r| == |s|
  {
    if there then Spread(s, j, error) else s
  }

  /** The neighbours of pixel i that exist, in a picture w wide. */
  datatype Site = Site(i: nat, w: nat, right: bool, down: bool, left: bool)

  /** The neighbours' indices stay below n. */
  predicate Within(p: Site, n: nat) {
    && p.w > 0 && p.i < n && (p.left ==> p.w > 1) && (p.right ==> p.i + 1 < n)
    && (p.down ==> p.i + p.w < n) && (p.down && p.right ==> p.i + p.w + 1 < n)
  }

  /** The shares of an error: to the right, below, below left, below right. */
  function Diffuse(s: seq<byte>, p: Site, e1: int, e2: int, e3: int, e4: int): (r: seq<byte>)
    requires Within(p, |s|)
    ensures |r| == |s|
  {
    var s2 := SpreadIf(s, p.right, p.i + 1, e1);
    var s3 := SpreadIf(s2, p.down, p.i + p.w, e2);
    var s4 := SpreadIf(s3, p.down && p.left, p.i + p.w - 1, e3);
    SpreadIf(s4, p.down && p.right, p.i + p.w + 1, e4)
  }

  function SiteOf(w: nat, h: nat, y: nat, x: nat): (p: Site)
    requires x < w && y < h
    ensures Within(p, h * w)
  {
    RowBounds(w, h, y, x);
    Site(y * w + x, w, x + 1 < w, y + 1 < h, x > 0)
  }

  /** One turn of the inner loop at pixel y * w + x of a picture h rows high. */
  function DitherPixel(s: seq<byte>, w: nat, h: nat, y: nat, x: nat): (r: seq<byte>)
    requires x < w && y < h && h * w <= |s|
    ensures |r| == |s|
  {
    var p := SiteOf(w, h, y, x);
    DitherSite(s, p)
  }

  function DitherSite(s: seq<byte>, p: Site): (r: seq<byte>)
    requires Within(p, |s|)
    ensures |r| == |s|
  {
    var error := s[p.i] as int - Level(s[p.i]) as int;
    Diffuse(s[p.i := Level(s[p.i])], p, error * 7 / 16, error * 5 / 16, error * 3 / 16, error / 16)
  }

  lemma RowBounds(w: nat, h: nat, y: nat, x: nat)
    requires x < w && y < h
    ensures y * w + x < h * w
    ensures y + 1 < h ==> y * w + x + w < h * w && (x + 1 < w ==> y * w + x + w + 1 < h * w)
  {
    MulMono(y + 1, h, w);
    assert (y + 1) * w == y * w + w;
    if y + 1 < h {
      MulMono(y + 2, h, w);
      assert (y + 2) * w == y * w + w + w;
    }
  }

  /** Pixels x, x + 1, ... of row y. */
  function DitherRow(s: seq<byte>, w: nat, h: nat, y: nat, x: nat): (r: seq<byte>)
    requires x <= w && y < h && h * w <= |s|
    ensures |r| == |s|
    decreases w - x
  {
    if x == w then s else DitherRow(DitherPixel(s, w, h, y, x), w, h, y, x + 1)
  }

  /** Rows y, y + 1, ... */
  function DitherRows(s: seq<byte>, w: nat, h: nat, y: nat): (r: seq<byte>)
    requires y <= h && h * w <= |s|
    ensures |r| == |s|
    decreases h - y
  {
    if y == h then s else DitherRows(DitherRow(s, w, h, y, 0), w, h, y + 1)
  }

  function Height(n: nat, w: nat): (h: nat)
    requires w > 0
    ensures h * w <= n
  {
    assert n == n / w * w + n % w;
    n / w
  }

  function Dithered(s: seq<byte>, w: nat): (r: seq<byte>)
    requires w > 0
    ensures |r| == |s|
  {
    DitherRows(s, w, Height(|s|, w), 0)
  }

  method AddClampAt(data: array<byte>, j: nat, error: int)
    requires j < data.Length
    modifies data
    ensures data[..] == Spread(old(data[..]), j, error)
  {
    if data[j] as int + error < 0 {
      data[j] := 0;
    } else if data[j] as int + error > 255 {
      data[j] := 255;
    } else {
      data[j] := (data[j] as int + error) as byte;
    }
  }

  /** dither_4colour.  A width of 0 makes the source divide by zero; the size
      bound keeps its 32-bit index arithmetic exact. */
  method DitherFourColour(data: array<byte>, width: nat)
    requires width > 0 && Height(data.Length, width) * width <= U32
    modifies data
    ensures data[..] == Dithered(old(data[..]), width)
  {
    ghost var s := data[..];
    var height := Height(data.Length, width);
    for y := 0 to height
      invariant DitherRows(data[..], width, height, y) == Dithered(s, width)
    {
      for x := 0 to width
        invariant DitherRows(DitherRow(data[..], width, height, y, x), width, height, y + 1) == Dithered(s, width)
      {
        DitherAt(data, width, height, y, x);
      }
    }
  }

  /** The body of the inner loop. */
  method DitherAt(data: array<byte>, width: nat, height: nat, y: nat, x: nat)
    requires x < width && y < height && height * width <= data.Length
    modifies data
    ensures data[..] == DitherPixel(old(data[..]), width, height, y, x)
  {
    var p := SiteOf(width, height, y, x);
    var oldPixel := data[p.i];
    var newPixel := TopBits(oldPixel);
    var error := oldPixel as int - newPixel as int;
    data[p.i] := newPixel;
    SpreadError(data, p, error);
  }

  method SpreadError(data: array<byte>, p: Site, error: int)
    requires Within(p, data.Length)
    modifies data
    ensures data[..] == Diffuse(old(data[..]), p, error * 7 / 16, error * 5 / 16, error * 3 / 16, error / 16)
  {
    if p.right { AddClampAt(data, p.i + 1, error * 7 / 16); }
    if p.down {
      AddClampAt(data, p.i + p.w, error * 5 / 16);
      if p.left { AddClampAt(data, p.i + p.w - 1, error * 3 / 16); }
      if p.right { AddClampAt(data, p.i + p.w + 1, error / 16); }
    }
  }

  function SumTo(s: seq<byte>, n: nat): nat
    requires n <= |s|
  {
    if n == 0 then 0 else SumTo(s, n - 1) + s[n - 1] as int
  }

  /** Total intensity. */
  function Sum(s: seq<byte>): nat { SumTo(s, |s|) }

  lemma {:induction false} SumToUpdate(s: seq<byte>, i: nat, v: byte, n: nat)
    requires i < |s| && n <= |s|
    ensures SumTo(s[i := v], n) == SumTo(s, n) + if i < n then v as int - s[i] as int else 0
    decreases n
  {
    if n > 0 { SumToUpdate(s, i, v, n - 1); }
  }

  lemma SumUpdate(s: seq<byte>, i: nat, v: byte)
    requires i < |s|
    ensures Sum(s[i := v]) == Sum(s) - s[i] as int + v as int
  {
    SumToUpdate(s, i, v, |s|);
  }

  lemma SpreadSum(s: seq<byte>, there: bool, j: int, error: int)
    requires (there ==> 0 <= j < |s|) && error >= 0
    ensures Sum(SpreadIf(s, there, j, error)) <= Sum(s) + error
  {
    if there { SumUpdate(s, j, AddClamp(s[j], error)); }
  }

  /** The four shares never add up to more than the error. */
  lemma Shares(error: int)
    requires 0 <= error
    ensures error * 7 / 16 + error * 5 / 16 + error * 3 / 16 + error / 16 <= error
  {
  }

  lemma DiffuseSum(s: seq<byte>, p: Site, e1: int, e2: int, e3: int, e4: int)
    requires Within(p, |s|) && e1 >= 0 && e2 >= 0 && e3 >= 0 && e4 >= 0
    ensures Sum(Diffuse(s, p, e1, e2, e3, e4)) <= Sum(s) + e1 + e2 + e3 + e4
  {
    var s2 := SpreadIf(s, p.right, p.i + 1, e1);
    var s3 := SpreadIf(s2, p.down, p.i + p.w, e2);
    var s4 := SpreadIf(s3, p.down && p.left, p.i + p.w - 1, e3);
    SpreadSum(s, p.right, p.i + 1, e1);
    SpreadSum(s2, p.down, p.i + p.w, e2);
    SpreadSum(s3, p.down && p.left, p.i + p.w - 1, e3);
    SpreadSum(s4, p.down && p.right, p.i + p.w + 1, e4);
  }

  lemma DiffuseFrame(s: seq<byte>, p: Site, e1: int, e2: int, e3: int, e4: int, n: nat)
    requires n <= |s| && Within(p, n)
    ensures var r := Diffuse(s, p, e1, e2, e3, e4);
            forall j :: 0 <= j < |s| && (j <= p.i || n <= j) ==> r[j] == s[j]
  {
  }

  lemma SiteSum(s: seq<byte>, p: Site)
    requires Within(p, |s|)
    ensures Sum(DitherSite(s, p)) <= Sum(s)
  {
    var error := s[p.i] as int - Level(s[p.i]) as int;
    SumUpdate(s, p.i, Level(s[p.i]));
    DiffuseSum(s[p.i := Level(s[p.i])], p, error * 7 / 16, error * 5 / 16, error * 3 / 16, error / 16);
    Shares(error);
  }

  /** A pixel, once passed, is a grey level and is not touched again; whatever
      lies behind the last whole row is never touched. */
  lemma SiteFrame(s: seq<byte>, p: Site, n: nat)
    requires n <= |s| && Within(p, n)
    ensures IsLevel(DitherSite(s, p)[p.i])
    ensures forall j :: 0 <= j < |s| && (j < p.i || n <= j) ==> DitherSite(s, p)[j] == s[j]
  {
    var error := s[p.i] as int - Level(s[p.i]) as int;
    DiffuseFrame(s[p.i := Level(s[p.i])], p, error * 7 / 16, error * 5 / 16, error * 3 / 16, error / 16, n);
  }

  // ---- in rows and columns -----------------------------------------------------

  /** The Floyd-Steinberg weights, in sixteenths, of the pixels dy rows down and dx
      columns to the right. */
  function Weight(dy: int, dx: int): nat {
    if dy == 0 && dx == 1 then 7
    else if dy == 1 && dx == -1 then 3
    else if dy == 1 && dx == 0 then 5
    else if dy == 1 && dx == 1 then 1
    else 0
  }

  function Share(error: int, dy: int, dx: int): int { error * Weight(dy, dx) / 16 }

  lemma LevelIs(pixel: byte)
    ensures Level(pixel) as int == pixel as int - pixel as int % 64
  {
  }

  lemma SamePlace(w: nat, v: nat, u: nat, y: nat, x: nat)
    requires u < w && x < w
    ensures v * w + u == y * w + x <==> v == y && u == x
  {
    DivMod(v, w, u);
    DivMod(y, w, x);
  }

  /** Where the four neighbours are. */
  lemma Neighbours(w: nat, y: nat, x: nat, v: nat, u: nat)
    requires x < w && u < w
    ensures var (i, j) := (y * w + x, v * w + u);
            && (j == i <==> (v - y, u - x) == (0, 0))
            && (x + 1 < w ==> (j == i + 1 <==> (v - y, u - x) == (0, 1)))
            && (j == i + w <==> (v - y, u - x) == (1, 0))
            && (x > 0 ==> (j == i + w - 1 <==> (v - y, u - x) == (1, -1)))
            && (x + 1 < w ==> (j == i + w + 1 <==> (v - y, u - x) == (1, 1)))
  {
    assert (y + 1) * w == y * w + w;
    SamePlace(w, v, u, y, x);
    if x + 1 < w { SamePlace(w, v, u, y, x + 1); SamePlace(w, v, u, y + 1, x + 1); }
    SamePlace(w, v, u, y + 1, x);
    if x > 0 { SamePlace(w, v, u, y + 1, x - 1); }
  }

  /** The turn at row y, column x leaves a grey level there and adds to every other
      pixel of the picture its weight's share of the error, up to white. */
  lemma PixelEffect(s: seq<byte>, w: nat, h: nat, y: nat, x: nat, v: nat, u: nat)
    requires x < w && y < h && h * w <= |s| && u < w && v < h
    ensures v * w + u < |s| && y * w + x < |s|
    ensures var before, after := s[v * w + u] as int, DitherPixel(s, w, h, y, x)[v * w + u] as int;
            var here := s[y * w + x] as int;
            after == if (v, u) == (y, x) then here - here % 64
                     else Min(255, before + Share(here % 64, v - y, u - x))
  {
    RowBounds(w, h, y, x);
    RowBounds(w, h, v, u);
    Neighbours(w, y, x, v, u);
    var p, j := SiteOf(w, h, y, x), v * w + u;
    assert p == Site(y * w + x, w, x + 1 < w, y + 1 < h, x > 0) && Placed(p, j, y, x, v, u);
    SiteEffect(s, p, j, y, x, v, u, h);
  }

  /** How the place (v, u), at index j, lies to the site at (y, x). */
  predicate Placed(p: Site, j: nat, y: nat, x: nat, v: nat, u: nat) {
    && (j == p.i <==> (v - y, u - x) == (0, 0))
    && (p.right ==> (j == p.i + 1 <==> (v - y, u - x) == (0, 1)))
    && (j == p.i + p.w <==> (v - y, u - x) == (1, 0))
    && (p.left ==> (j == p.i + p.w - 1 <==> (v - y, u - x) == (1, -1)))
    && (p.right ==> (j == p.i + p.w + 1 <==> (v - y, u - x) == (1, 1)))
  }

  lemma SiteEffect(s: seq<byte>, p: Site, j: nat, y: nat, x: nat, v: nat, u: nat, h: nat)
    requires Within(p, |s|) && j < |s| && x < p.w && u < p.w && v < h && Placed(p, j, y, x, v, u)
    requires p.left == (x > 0) && p.right == (x + 1 < p.w) && p.down == (y + 1 < h)
    ensures DitherSite(s, p)[j] as int
         == if (v, u) == (y, x) then s[p.i] as int - s[p.i] as int % 64
            else Min(255, s[j] as int + Share(s[p.i] as int % 64, v - y, u - x))
  {
    var error, s' := s[p.i] as int % 64, s[p.i := Level(s[p.i])];
    LevelIs(s[p.i]);
    DitherSiteIs(s, p, error);
    DiffuseAt(s', p, error, j, y, x, v, u, h);
    if (v, u) == (y, x) { NoShare(error); } else { assert s'[j] == s[j]; }
  }

  lemma NoShare(error: int)
    ensures Share(error, 0, 0) == 0
  {
  }

  lemma DitherSiteIs(s: seq<byte>, p: Site, error: int)
    requires Within(p, |s|) && error == s[p.i] as int % 64
    ensures DitherSite(s, p) == Diffuse(s[p.i := Level(s[p.i])], p, error * 7 / 16, error * 5 / 16, error * 3 / 16, error / 16)
  {
    LevelIs(s[p.i]);
  }

  function Min(a: int, b: int): int { if a <= b then a else b }

  lemma DiffuseAt(s: seq<byte>, p: Site, error: int, j: nat, y: nat, x: nat, v: nat, u: nat, h: nat)
    requires Within(p, |s|) && j < |s| && 0 <= error < 64 && x < p.w && u < p.w && v < h
    requires p.left == (x > 0) && p.right == (x + 1 < p.w) && p.down == (y + 1 < h)
    requires Placed(p, j, y, x, v, u)
    ensures Diffuse(s, p, error * 7 / 16, error * 5 / 16, error * 3 / 16, error / 16)[j] as int
         == Min(255, s[j] as int + Share(error, v - y, u - x))
  {
  }

  /** All pixels before number n are grey levels. */
  ghost predicate LevelsUpTo(s: seq<byte>, n: int) {
    forall j :: 0 <= j < |s| && j < n ==> IsLevel(s[j])
  }

  ghost predicate SameTail(s: seq<byte>, r: seq<byte>, n: int) {
    |s| == |r| && forall j :: 0 <= j < |s| && n <= j ==> r[j] == s[j]
  }

  lemma {:induction false} RowEffect(s: seq<byte>, w: nat, h: nat, y: nat, x: nat)
    requires x <= w && y < h && h * w <= |s| && LevelsUpTo(s, y * w + x)
    ensures var r := DitherRow(s, w, h, y, x);
            LevelsUpTo(r, y * w + w) && SameTail(s, r, h * w) && Sum(r) <= Sum(s)
    decreases w - x
  {
    if x < w {
      SiteFrame(s, SiteOf(w, h, y, x), h * w);
      SiteSum(s, SiteOf(w, h, y, x));
      RowEffect(DitherPixel(s, w, h, y, x), w, h, y, x + 1);
    }
  }

  lemma {:induction false} RowsEffect(s: seq<byte>, w: nat, h: nat, y: nat)
    requires y <= h && h * w <= |s| && LevelsUpTo(s, y * w)
    ensures var r := DitherRows(s, w, h, y);
            LevelsUpTo(r, h * w) && SameTail(s, r, h * w) && Sum(r) <= Sum(s)
    decreases h - y
  {
    if y < h {
      RowEffect(s, w, h, y, 0);
      assert y * w + w == (y + 1) * w;
      RowsEffect(DitherRow(s, w, h, y, 0), w, h, y + 1);
    }
  }

  /** Dithering leaves only the four levels in the whole rows, leaves the rest of
      the buffer alone, and never brightens the picture as a whole. */
  lemma DitherEffect(s: seq<byte>, w: nat)
    requires w > 0
    ensures LevelsUpTo(Dithered(s, w), Height(|s|, w) * w)
    ensures SameTail(s, Dithered(s, w), Height(|s|, w) * w)
    ensures Sum(Dithered(s, w)) <= Sum(s)
  {
    RowsEffect(s, w, Height(|s|, w), 0);
  }

  lemma PixelIdle(s: seq<byte>, w: nat, h: nat, y: nat, x: nat)
    requires x < w && y < h && h * w <= |s| && LevelsUpTo(s, h * w)
    ensures DitherPixel(s, w, h, y, x) == s
  {
    var p := SiteOf(w, h, y, x);
    assert IsLevel(s[p.i]) && s[p.i := Level(s[p.i])] == s;
    DiffuseNothing(s, p);
  }

  lemma DiffuseNothing(s: seq<byte>, p: Site)
    requires Within(p, |s|)
    ensures Diffuse(s, p, 0, 0, 0, 0) == s
  {
    assert forall j :: 0 <= j < |s| ==> Spread(s, j, 0) == s;
  }

  lemma {:induction false} RowsIdle(s: seq<byte>, w: nat, h: nat, y: nat, x: nat)
    requires w > 0 && y < h && x <= w && h * w <= |s| && LevelsUpTo(s, h * w)
    ensures DitherRow(s, w, h, y, x) == s && DitherRows(s, w, h, y) == s
    decreases h - y, w - x
  {
    if x < w {
      PixelIdle(s, w, h, y, x);
      RowsIdle(s, w, h, y, x + 1);
    } else if y + 1 < h {
      RowsIdle(s, w, h, y + 1, 0);
    }
    RowIdle(s, w, h, y, 0);
  }

  lemma {:induction false} RowIdle(s: seq<byte>, w: nat, h: nat, y: nat, x: nat)
    requires y < h && x <= w && h * w <= |s| && LevelsUpTo(s, h * w)
    ensures DitherRow(s, w, h, y, x) == s
    decreases w - x
  {
    if x < w {
      PixelIdle(s, w, h, y, x);
      RowIdle(s, w, h, y, x + 1);
    }
  }

  /** Dithering a dithered picture changes nothing. */
  lemma DitherIdempotent(s: seq<byte>, w: nat)
    requires w > 0
    ensures Dithered(Dithered(s, w), w) == Dithered(s, w)
  {
    DitherEffect(s, w);
    if Height(|s|, w) > 0 { RowsIdle(Dithered(s, w), w, Height(|s|, w), 0, 0); }
  }
}
