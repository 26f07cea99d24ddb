/** What dithering makes of a picture, pixel by pixel: the value each pixel holds when
    its turn comes. */
module DitherValues {
  import opened Bytes
  import opened Dither

  /** The pixel at row v, column u. */
  function At(s: seq<byte>, w: nat, v: nat, u: nat): int
    requires v * w + u < |s|
  {
    s[v * w + u] as int
  }

  /** Rows and columns of whole rows. */
  predicate InPicture(s: seq<byte>, w: nat, h: nat) { w > 0 && h * w <= |s| }

  lemma Inside(s: seq<byte>, w: nat, h: nat, v: nat, u: nat)
    requires InPicture(s, w, h) && v < h && u < w
    ensures v * w + u < |s|
  {
    RowBounds(w, h, v, u);
  }

  /** What the pixel holds when its turn comes: its own value, and the shares of the
      errors of its upper left, upper, upper right and left neighbours, up to white. */
  function Held(s: seq<byte>, w: nat, h: nat, v: nat, u: nat): int
    requires InPicture(s, w, h) && v < h && u < w
    decreases v, u
  {
    Inside(s, w, h, v, u);
    var upperLeft := if v > 0 && u > 0 then Held(s, w, h, v - 1, u - 1) % 64 / 16 else 0;
    var upper := if v > 0 then Held(s, w, h, v - 1, u) % 64 * 5 / 16 else 0;
    var upperRight := if v > 0 && u + 1 < w then Held(s, w, h, v - 1, u + 1) % 64 * 3 / 16 else 0;
    var left := if u > 0 then Held(s, w, h, v, u - 1) % 64 * 7 / 16 else 0;
    Min(255, At(s, w, v, u) + upperLeft + upper + upperRight + left)
  }

  // ---- on the way --------------------------------------------------------------

  predicate Done(v: int, u: int, y: nat, x: nat) { v < y || (v == y && u < x) }

  /** The share from the neighbour dy rows up and dx columns to the left, if its turn
      has come before that of row y, column x. */
  function From(s: seq<byte>, w: nat, h: nat, v: nat, u: nat, dy: int, dx: int, y: nat, x: nat): (r: int)
    requires InPicture(s, w, h) && v < h && u < w && 0 <= dy && (dy == 0 ==> dx > 0)
    ensures r >= 0
  {
    if 0 <= v - dy && 0 <= u - dx < w && Done(v - dy, u - dx, y, x) then Share(Held(s, w, h, v - dy, u - dx) % 64, dy, dx)
    else 0
  }

  /** What a pixel holds that is still to come, before the turn at row y, column x. */
  function SoFar(s: seq<byte>, w: nat, h: nat, v: nat, u: nat, y: nat, x: nat): int
    requires InPicture(s, w, h) && v < h && u < w
  {
    Inside(s, w, h, v, u);
    Min(255, At(s, w, v, u) + From(s, w, h, v, u, 1, 1, y, x) + From(s, w, h, v, u, 1, 0, y, x)
             + From(s, w, h, v, u, 1, -1, y, x) + From(s, w, h, v, u, 0, 1, y, x))
  }

  /** The picture c, before the turn at row y, column x. */
  ghost predicate Halfway(s: seq<byte>, c: seq<byte>, w: nat, h: nat, y: nat, x: nat)
    requires InPicture(s, w, h)
  {
    |c| == |s| && forall v: nat, u: nat :: v < h && u < w ==> PixelHalfway(s, c, w, h, v, u, y, x)
  }

  ghost predicate PixelHalfway(s: seq<byte>, c: seq<byte>, w: nat, h: nat, v: nat, u: nat, y: nat, x: nat)
    requires InPicture(s, w, h) && |c| == |s| && v < h && u < w
  {
    Inside(s, w, h, v, u);
    At(c, w, v, u) == if Done(v, u, y, x) then Held(s, w, h, v, u) - Held(s, w, h, v, u) % 64 else SoFar(s, w, h, v, u, y, x)
  }

  /** When its turn comes all four neighbours are done. */
  lemma HeldSoFar(s: seq<byte>, w: nat, h: nat, y: nat, x: nat)
    requires InPicture(s, w, h) && y < h && x < w
    ensures SoFar(s, w, h, y, x, y, x) == Held(s, w, h, y, x)
  {
  }

  /** The turn at row y, column x adds one share. */
  lemma OneShare(s: seq<byte>, w: nat, h: nat, v: nat, u: nat, y: nat, x: nat)
    requires InPicture(s, w, h) && v < h && u < w && y < h && x < w && !Done(v, u, y, x + 1)
    ensures SoFar(s, w, h, v, u, y, x + 1) == Min(255, SoFar(s, w, h, v, u, y, x) + Share(Held(s, w, h, y, x) % 64, v - y, u - x))
  {
    OneFrom(s, w, h, v, u, 1, 1, y, x);
    OneFrom(s, w, h, v, u, 1, 0, y, x);
    OneFrom(s, w, h, v, u, 1, -1, y, x);
    OneFrom(s, w, h, v, u, 0, 1, y, x);
  }

  lemma OneFrom(s: seq<byte>, w: nat, h: nat, v: nat, u: nat, dy: int, dx: int, y: nat, x: nat)
    requires InPicture(s, w, h) && v < h && u < w && 0 <= dy && (dy == 0 ==> dx > 0) && y < h && x < w
    ensures From(s, w, h, v, u, dy, dx, y, x + 1)
         == From(s, w, h, v, u, dy, dx, y, x)
            + if (v - y, u - x) == (dy, dx) then Share(Held(s, w, h, y, x) % 64, dy, dx) else 0
  {
  }

  lemma Turn(s: seq<byte>, c: seq<byte>, w: nat, h: nat, y: nat, x: nat)
    requires InPicture(s, w, h) && y < h && x < w && Halfway(s, c, w, h, y, x)
    ensures Halfway(s, DitherPixel(c, w, h, y, x), w, h, y, x + 1)
  {
    var c', x' := DitherPixel(c, w, h, y, x), x + 1;
    forall v: nat, u: nat | v < h && u < w ensures PixelHalfway(s, c', w, h, v, u, y, x') {
      PixelTurn(s, c, w, h, y, x, v, u);
    }
  }

  lemma PixelTurn(s: seq<byte>, c: seq<byte>, w: nat, h: nat, y: nat, x: nat, v: nat, u: nat)
    requires InPicture(s, w, h) && y < h && x < w && Halfway(s, c, w, h, y, x) && v < h && u < w
    ensures PixelHalfway(s, DitherPixel(c, w, h, y, x), w, h, v, u, y, x + 1)
  {
    assert PixelHalfway(s, c, w, h, v, u, y, x) && PixelHalfway(s, c, w, h, y, x, y, x);
    HeldSoFar(s, w, h, y, x);
    PixelEffect(c, w, h, y, x, v, u);
    if Done(v, u, y, x) {
      assert Share(Held(s, w, h, y, x) % 64, v - y, u - x) == 0;
    } else if (v, u) != (y, x) {
      OneShare(s, w, h, v, u, y, x);
    }
  }

  lemma {:induction false} RowTurns(s: seq<byte>, c: seq<byte>, w: nat, h: nat, y: nat, x: nat)
    requires InPicture(s, w, h) && y < h && x <= w && Halfway(s, c, w, h, y, x)
    ensures Halfway(s, DitherRow(c, w, h, y, x), w, h, y, w)
    decreases w - x
  {
    if x < w {
      Turn(s, c, w, h, y, x);
      RowTurns(s, DitherPixel(c, w, h, y, x), w, h, y, x + 1);
    }
  }

  /** The end of a row is the start of the next. */
  lemma NextRow(s: seq<byte>, c: seq<byte>, w: nat, h: nat, y: nat)
    requires InPicture(s, w, h) && y < h && Halfway(s, c, w, h, y, w)
    ensures Halfway(s, c, w, h, y + 1, 0)
  {
    var y' := y + 1;
    forall v: nat, u: nat | v < h && u < w ensures PixelHalfway(s, c, w, h, v, u, y', 0) {
      assert PixelHalfway(s, c, w, h, v, u, y, w);
      PixelNextRow(s, c, w, h, y, v, u);
    }
  }

  lemma PixelNextRow(s: seq<byte>, c: seq<byte>, w: nat, h: nat, y: nat, v: nat, u: nat)
    requires InPicture(s, w, h) && |c| == |s| && y < h && v < h && u < w && PixelHalfway(s, c, w, h, v, u, y, w)
    ensures PixelHalfway(s, c, w, h, v, u, y + 1, 0)
  {
    FromNextRow(s, w, h, v, u, 1, 1, y);
    FromNextRow(s, w, h, v, u, 1, 0, y);
    FromNextRow(s, w, h, v, u, 1, -1, y);
    FromNextRow(s, w, h, v, u, 0, 1, y);
  }

  lemma FromNextRow(s: seq<byte>, w: nat, h: nat, v: nat, u: nat, dy: int, dx: int, y: nat)
    requires InPicture(s, w, h) && v < h && u < w && 0 <= dy && (dy == 0 ==> dx > 0)
    ensures From(s, w, h, v, u, dy, dx, y + 1, 0) == From(s, w, h, v, u, dy, dx, y, w)
  {
  }

  lemma {:induction false} RowsTurns(s: seq<byte>, c: seq<byte>, w: nat, h: nat, y: nat)
    requires InPicture(s, w, h) && y <= h && Halfway(s, c, w, h, y, 0)
    ensures Halfway(s, DitherRows(c, w, h, y), w, h, h, 0)
    decreases h - y
  {
    if y < h {
      RowTurns(s, c, w, h, y, 0);
      NextRow(s, DitherRow(c, w, h, y, 0), w, h, y);
      RowsTurns(s, DitherRow(c, w, h, y, 0), w, h, y + 1);
    }
  }

  lemma AtStart(s: seq<byte>, w: nat, h: nat)
    requires InPicture(s, w, h)
    ensures Halfway(s, s, w, h, 0, 0)
  {
    forall v: nat, u: nat | v < h && u < w ensures PixelHalfway(s, s, w, h, v, u, 0, 0) { PixelAtStart(s, w, h, v, u); }
  }

  lemma PixelAtStart(s: seq<byte>, w: nat, h: nat, v: nat, u: nat)
    requires InPicture(s, w, h) && v < h && u < w
    ensures PixelHalfway(s, s, w, h, v, u, 0, 0)
  {
    Inside(s, w, h, v, u);
    assert !Done(v, u, 0, 0) && SoFar(s, w, h, v, u, 0, 0) == Min(255, At(s, w, v, u));
  }

  /** The dithered picture: every pixel of the whole rows is the grey level at or below
      what it held when its turn came. */
  lemma DitheredValue(s: seq<byte>, w: nat, v: nat, u: nat)
    requires w > 0 && u < w && v < |s| / w
    ensures InPicture(s, w, |s| / w) && v * w + u < |s|
    ensures Dithered(s, w)[v * w + u] as int == Held(s, w, |s| / w, v, u) - Held(s, w, |s| / w, v, u) % 64
  {
    var h := |s| / w;
    assert Height(|s|, w) == h;
    Inside(s, w, h, v, u);
    AtStart(s, w, h);
    RowsTurns(s, s, w, h, 0);
    assert PixelHalfway(s, Dithered(s, w), w, h, v, u, h, 0);
  }
}
