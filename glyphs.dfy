/**
 * Glyph drawing of the line renderer (FontRenderer::render_glyphs in
 * src/text.rs), stated as functions on the pixel buffer's contents: which
 * pixels one call writes, where it stops, and the offset it returns.
 *
 * The font layout is foreign: a call receives the glyphs it lays out as a
 * sequence, each with its bounding box and the pixels its draw callback reports.
 */
module Glyphs {
  import opened Colors

  /** A pixel value, as the visual's pixel layout encodes it. */
  type Pixel = nat

  /** One call of the draw callback: a position inside the glyph's bounding box and a coverage. */
  datatype Coverage = Coverage(px: nat, py: nat, v: real)

  /**
   * A positioned glyph: either one with a pixel bounding box (its left, top and
   * right edge and the pixels it covers, in drawing order), or one without a
   * visible box, such as a space, of which only its pen position counts.
   */
  datatype Glyph =
    | Bounded(minX: int, minY: int, maxX: int, pixels: seq<Coverage>)
    | Unbounded(posX: real)

  /**
   * What the renderer draws into: image width and height and the margin (all
   * 16-bit), and the pixel layout's encoding of a colour scaled by a coverage.
   */
  datatype Target = Target(width: nat, height: nat, margin: nat, encode: (Color, real) -> Pixel)

  const U16_LIMIT: nat := 0x1_0000

  /** The low 16 bits of an integer: a wrapping 16-bit addition, or an integer cast `as u16`. */
  function U16(n: int): nat {
    n % U16_LIMIT
  }

  /** A float cast `as u16`: truncation toward zero, saturating at 0 and 65535. */
  function F32ToU16(r: real): (n: nat)
    ensures n < U16_LIMIT
    ensures 0.0 <= r < 65535.0 ==> n as real <= r < n as real + 1.0
  {
    if r < 0.0 then 0 else if r >= 65535.0 then 65535 else r.Floor
  }

  /** Dimensions fit in 16 bits and `width - margin * 2` does not underflow. */
  predicate ValidTarget(t: Target) {
    t.width < U16_LIMIT && t.height < U16_LIMIT && 2 * t.margin <= t.width
  }

  /** The clipping column `width - margin * 2`: no pixel at or right of it is written. */
  function ClipX(t: Target): nat
    requires ValidTarget(t)
  {
    t.width - 2 * t.margin
  }

  /** The image column of a covered pixel of a glyph drawn at `offset`. */
  function Column(t: Target, offset: nat, minX: int, c: Coverage): nat {
    U16(U16(t.margin + offset + U16(minX)) + U16(c.px))
  }

  /** The image row of a covered pixel. */
  function Row(t: Target, minY: int, c: Coverage): nat {
    U16(U16(t.margin + U16(minY)) + U16(c.py))
  }

  /** Position of pixel (x, y) in the row-major image buffer. */
  function Index(t: Target, x: nat, y: nat): nat {
    y * t.width + x
  }

  lemma IndexInBounds(w: nat, h: nat, x: nat, y: nat)
    requires x < w && y < h
    ensures y * w + x < w * h
  {
    assert y * w + x < y * w + w == (y + 1) * w;
    assert (y + 1) * w <= h * w by {
      assert y + 1 <= h;
    }
  }

  lemma RowStartsApart(w: nat, x: nat, ya: nat, yb: nat)
    requires x < w
    ensures ya < yb ==> ya * w + x < yb * w
  {
    if ya < yb {
      assert (ya + 1) * w <= yb * w by {
        assert ya + 1 <= yb;
      }
    }
  }

  lemma IndexInjective(w: nat, x1: nat, y1: nat, x2: nat, y2: nat)
    requires x1 < w && x2 < w && y1 * w + x1 == y2 * w + x2
    ensures x1 == x2 && y1 == y2
  {
    RowStartsApart(w, x1, y1, y2);
    RowStartsApart(w, x2, y2, y1);
  }

  /** Every row a glyph's pixels land on lies inside the image (`put_pixel` demands it). */
  predicate FitsRows(t: Target, g: Glyph) {
    g.Bounded? ==> forall j :: 0 <= j < |g.pixels| ==> Row(t, g.minY, g.pixels[j]) < t.height
  }

  predicate GlyphsFit(t: Target, gs: seq<Glyph>) {
    forall i :: 0 <= i < |gs| ==> FitsRows(t, gs[i])
  }

  /** True iff drawing `g` at `offset` meets a pixel at or right of the clipping column. */
  predicate Clipped(t: Target, offset: nat, g: Glyph)
    requires ValidTarget(t)
  {
    g.Bounded? && exists j :: 0 <= j < |g.pixels| && Column(t, offset, g.minX, g.pixels[j]) >= ClipX(t)
  }

  /** True iff drawing `g` at `offset` writes pixel (x, y). */
  predicate Hits(t: Target, offset: nat, g: Glyph, x: nat, y: nat)
    requires ValidTarget(t)
  {
    g.Bounded? && x < ClipX(t) &&
    exists j :: 0 <= j < |g.pixels| && Column(t, offset, g.minX, g.pixels[j]) == x && Row(t, g.minY, g.pixels[j]) == y
  }

  /** The image after the draw callback has run over `ps` in order, writing only the pixels left of the clipping column. */
  function PaintPixels(t: Target, color: Color, img: seq<Pixel>, offset: nat, minX: int, minY: int, ps: seq<Coverage>): (r: seq<Pixel>)
    requires ValidTarget(t) && |img| == t.width * t.height
    requires forall j :: 0 <= j < |ps| ==> Row(t, minY, ps[j]) < t.height
    ensures |r| == |img|
    decreases |ps|
  {
    if ps == [] then img
    else
      var c := ps[|ps| - 1];
      var prev := PaintPixels(t, color, img, offset, minX, minY, ps[..|ps| - 1]);
      var x := Column(t, offset, minX, c);
      var y := Row(t, minY, c);
      if x < ClipX(t) then
        IndexInBounds(t.width, t.height, x, y);
        prev[Index(t, x, y) := t.encode(color, c.v)]
      else
        prev
  }

  /** The image after one glyph is drawn at `offset`; a glyph without a box draws nothing. */
  function PaintGlyph(t: Target, color: Color, img: seq<Pixel>, offset: nat, g: Glyph): (r: seq<Pixel>)
    requires ValidTarget(t) && |img| == t.width * t.height && FitsRows(t, g)
    ensures |r| == |img|
  {
    match g
    case Bounded(minX, minY, _, ps) => PaintPixels(t, color, img, offset, minX, minY, ps)
    case Unbounded(_) => img
  }

  /** The image after every glyph of `gs` is drawn at `offset`, in order. */
  function PaintGlyphs(t: Target, color: Color, img: seq<Pixel>, offset: nat, gs: seq<Glyph>): (r: seq<Pixel>)
    requires ValidTarget(t) && |img| == t.width * t.height && GlyphsFit(t, gs)
    ensures |r| == |img|
    decreases |gs|
  {
    if gs == [] then img
    else PaintGlyph(t, color, PaintGlyphs(t, color, img, offset, gs[..|gs| - 1]), offset, gs[|gs| - 1])
  }

  /** The position of the first glyph with a clipped pixel, or the number of glyphs if there is none. */
  function FirstClipped(t: Target, offset: nat, gs: seq<Glyph>): (k: nat)
    requires ValidTarget(t)
    ensures k <= |gs|
    ensures forall i :: 0 <= i < k ==> !Clipped(t, offset, gs[i])
    ensures k < |gs| ==> Clipped(t, offset, gs[k])
  {
    if gs == [] then 0
    else if Clipped(t, offset, gs[0]) then 0
    else 1 + FirstClipped(t, offset, gs[1..])
  }

  /** How many glyphs one call draws: all of them up to and including the first clipped one. */
  function DrawnCount(t: Target, offset: nat, gs: seq<Glyph>): nat
    requires ValidTarget(t)
  {
    var k := FirstClipped(t, offset, gs);
    if k < |gs| then k + 1 else k
  }

  /** The offset after a glyph is drawn in full: its right edge, or its pen position if it has no box. */
  function Advance(offset: nat, g: Glyph): nat {
    match g
    case Bounded(_, _, maxX, _) => U16(offset + U16(maxX))
    case Unbounded(posX) => U16(offset + F32ToU16(posX))
  }

  /** The image after one call of the glyph loop. */
  function Painted(t: Target, color: Color, img: seq<Pixel>, offset: nat, gs: seq<Glyph>): (r: seq<Pixel>)
    requires ValidTarget(t) && |img| == t.width * t.height && GlyphsFit(t, gs)
    ensures |r| == |img|
  {
    PaintGlyphs(t, color, img, offset, gs[..DrawnCount(t, offset, gs)])
  }

  /**
   * The offset one call returns: the advance of the last glyph drawn in full
   * before the first clipped one, or `offset` itself if there is no such glyph.
   */
  function NextOffset(t: Target, offset: nat, gs: seq<Glyph>): (x: nat)
    requires ValidTarget(t)
    ensures offset < U16_LIMIT ==> x < U16_LIMIT
  {
    var k := FirstClipped(t, offset, gs);
    if k == 0 then offset else Advance(offset, gs[k - 1])
  }

  /** Glyphs after the first clipped one change neither the image nor the returned offset. */
  lemma {:induction false} LaterGlyphsIgnored(t: Target, color: Color, img: seq<Pixel>, offset: nat, gs: seq<Glyph>, rest: seq<Glyph>)
    requires ValidTarget(t) && |img| == t.width * t.height && GlyphsFit(t, gs + rest)
    requires FirstClipped(t, offset, gs) < |gs|
    ensures GlyphsFit(t, gs)
    ensures Painted(t, color, img, offset, gs + rest) == Painted(t, color, img, offset, gs)
    ensures NextOffset(t, offset, gs + rest) == NextOffset(t, offset, gs)
  {
    assert forall i :: 0 <= i < |gs| ==> gs[i] == (gs + rest)[i];
    var k := FirstClipped(t, offset, gs);
    FirstClippedPrefix(t, offset, gs, rest);
    assert (gs + rest)[..k + 1] == gs[..k + 1];
  }

  lemma {:induction false} FirstClippedPrefix(t: Target, offset: nat, gs: seq<Glyph>, rest: seq<Glyph>)
    requires ValidTarget(t) && FirstClipped(t, offset, gs) < |gs|
    ensures FirstClipped(t, offset, gs + rest) == FirstClipped(t, offset, gs)
  {
    assert (gs + rest)[0] == gs[0];
    if !Clipped(t, offset, gs[0]) {
      assert (gs + rest)[1..] == gs[1..] + rest;
      FirstClippedPrefix(t, offset, gs[1..], rest);
    }
  }

  lemma {:induction false} PaintPixelsElsewhere(t: Target, color: Color, img: seq<Pixel>, offset: nat, minX: int, minY: int,
                                                ps: seq<Coverage>, x: nat, y: nat)
    requires ValidTarget(t) && |img| == t.width * t.height
    requires forall j :: 0 <= j < |ps| ==> Row(t, minY, ps[j]) < t.height
    requires x < t.width && y < t.height
    requires x >= ClipX(t) || forall j :: 0 <= j < |ps| ==> Column(t, offset, minX, ps[j]) != x || Row(t, minY, ps[j]) != y
    ensures Index(t, x, y) < |img|
    ensures PaintPixels(t, color, img, offset, minX, minY, ps)[Index(t, x, y)] == img[Index(t, x, y)]
    decreases |ps|
  {
    IndexInBounds(t.width, t.height, x, y);
    if ps != [] {
      var init := ps[..|ps| - 1];
      assert forall j :: 0 <= j < |init| ==> init[j] == ps[j];
      PaintPixelsElsewhere(t, color, img, offset, minX, minY, init, x, y);
      var c := ps[|ps| - 1];
      var cx, cy := Column(t, offset, minX, c), Row(t, minY, c);
      if cx < ClipX(t) && Index(t, cx, cy) == Index(t, x, y) {
        IndexInjective(t.width, cx, cy, x, y);
        assert false;
      }
    }
  }

  lemma {:induction false} PaintGlyphsElsewhere(t: Target, color: Color, img: seq<Pixel>, offset: nat, gs: seq<Glyph>, x: nat, y: nat)
    requires ValidTarget(t) && |img| == t.width * t.height && GlyphsFit(t, gs)
    requires x < t.width && y < t.height
    requires forall i :: 0 <= i < |gs| ==> !Hits(t, offset, gs[i], x, y)
    ensures Index(t, x, y) < |img|
    ensures PaintGlyphs(t, color, img, offset, gs)[Index(t, x, y)] == img[Index(t, x, y)]
    decreases |gs|
  {
    IndexInBounds(t.width, t.height, x, y);
    if gs != [] {
      var init := gs[..|gs| - 1];
      assert forall i :: 0 <= i < |init| ==> init[i] == gs[i];
      PaintGlyphsElsewhere(t, color, img, offset, init, x, y);
      var g := gs[|gs| - 1];
      assert !Hits(t, offset, g, x, y);
      if g.Bounded? {
        PaintPixelsElsewhere(t, color, PaintGlyphs(t, color, img, offset, init), offset, g.minX, g.minY, g.pixels, x, y);
      }
    }
  }

  /** One call leaves every pixel unchanged that no glyph it draws covers left of the clipping column. */
  lemma PaintedOnlyHits(t: Target, color: Color, img: seq<Pixel>, offset: nat, gs: seq<Glyph>, x: nat, y: nat)
    requires ValidTarget(t) && |img| == t.width * t.height && GlyphsFit(t, gs)
    requires x < t.width && y < t.height
    requires forall i :: 0 <= i < DrawnCount(t, offset, gs) ==> !Hits(t, offset, gs[i], x, y)
    ensures Index(t, x, y) < |img|
    ensures Painted(t, color, img, offset, gs)[Index(t, x, y)] == img[Index(t, x, y)]
  {
    var n := DrawnCount(t, offset, gs);
    PaintGlyphsElsewhere(t, color, img, offset, gs[..n], x, y);
  }

  /** One call never writes a pixel at or right of column `width - 2 * margin`. */
  lemma ClipBound(t: Target, color: Color, img: seq<Pixel>, offset: nat, gs: seq<Glyph>, x: nat, y: nat)
    requires ValidTarget(t) && |img| == t.width * t.height && GlyphsFit(t, gs)
    requires ClipX(t) <= x < t.width && y < t.height
    ensures Index(t, x, y) < |img|
    ensures Painted(t, color, img, offset, gs)[Index(t, x, y)] == img[Index(t, x, y)]
  {
    PaintedOnlyHits(t, color, img, offset, gs, x, y);
  }

  /** The draw callback leaves a pixel left of the clipping column with the encoded coverage of its last pixel report. */
  lemma {:induction false} PaintPixelsLast(t: Target, color: Color, img: seq<Pixel>, offset: nat, minX: int, minY: int,
                                           ps: seq<Coverage>, j: nat, x: nat, y: nat)
    requires ValidTarget(t) && |img| == t.width * t.height
    requires forall j' :: 0 <= j' < |ps| ==> Row(t, minY, ps[j']) < t.height
    requires j < |ps| && x < ClipX(t) && Column(t, offset, minX, ps[j]) == x && Row(t, minY, ps[j]) == y
    requires forall j' :: j < j' < |ps| ==> Column(t, offset, minX, ps[j']) != x || Row(t, minY, ps[j']) != y
    ensures Index(t, x, y) < |img|
    ensures PaintPixels(t, color, img, offset, minX, minY, ps)[Index(t, x, y)] == t.encode(color, ps[j].v)
    decreases |ps|
  {
    IndexInBounds(t.width, t.height, x, y);
    var n := |ps| - 1;
    if j < n {
      var init := ps[..n];
      assert forall j' :: 0 <= j' < n ==> init[j'] == ps[j'];
      PaintPixelsLast(t, color, img, offset, minX, minY, init, j, x, y);
      var c := ps[n];
      var cx, cy := Column(t, offset, minX, c), Row(t, minY, c);
      if cx < ClipX(t) && Index(t, cx, cy) == Index(t, x, y) {
        IndexInjective(t.width, cx, cy, x, y);
        assert false;
      }
    }
  }

  /**
   * Drawing a run of glyphs leaves a pixel left of the clipping column with the
   * encoded coverage of the last report for it: pixel `j` of glyph `i`, when no
   * later pixel of that glyph and no later glyph writes there.
   */
  lemma {:induction false} PaintGlyphsLast(t: Target, color: Color, img: seq<Pixel>, offset: nat, gs: seq<Glyph>,
                                           i: nat, j: nat, x: nat, y: nat)
    requires ValidTarget(t) && |img| == t.width * t.height && GlyphsFit(t, gs)
    requires i < |gs| && gs[i].Bounded? && j < |gs[i].pixels| && x < ClipX(t)
    requires Column(t, offset, gs[i].minX, gs[i].pixels[j]) == x && Row(t, gs[i].minY, gs[i].pixels[j]) == y
    requires forall j' :: j < j' < |gs[i].pixels| ==>
      Column(t, offset, gs[i].minX, gs[i].pixels[j']) != x || Row(t, gs[i].minY, gs[i].pixels[j']) != y
    requires forall i' :: i < i' < |gs| ==> !Hits(t, offset, gs[i'], x, y)
    ensures Index(t, x, y) < |img|
    ensures PaintGlyphs(t, color, img, offset, gs)[Index(t, x, y)] == t.encode(color, gs[i].pixels[j].v)
    decreases |gs|
  {
    IndexInBounds(t.width, t.height, x, y);
    var n := |gs| - 1;
    var init := gs[..n];
    assert forall i' :: 0 <= i' < n ==> init[i'] == gs[i'];
    var before := PaintGlyphs(t, color, img, offset, init);
    var g := gs[n];
    assert FitsRows(t, g);
    if i == n {
      PaintPixelsLast(t, color, before, offset, g.minX, g.minY, g.pixels, j, x, y);
    } else {
      PaintGlyphsLast(t, color, img, offset, init, i, j, x, y);
      assert !Hits(t, offset, g, x, y);
      if g.Bounded? {
        PaintPixelsElsewhere(t, color, before, offset, g.minX, g.minY, g.pixels, x, y);
      }
    }
  }

  /**
   * One call leaves a pixel left of the clipping column that a drawn glyph
   * covers with the encoded coverage of the last report for it in drawing order.
   */
  lemma PaintedLast(t: Target, color: Color, img: seq<Pixel>, offset: nat, gs: seq<Glyph>, i: nat, j: nat, x: nat, y: nat)
    requires ValidTarget(t) && |img| == t.width * t.height && GlyphsFit(t, gs)
    requires i < DrawnCount(t, offset, gs) && gs[i].Bounded? && j < |gs[i].pixels| && x < ClipX(t)
    requires Column(t, offset, gs[i].minX, gs[i].pixels[j]) == x && Row(t, gs[i].minY, gs[i].pixels[j]) == y
    requires forall j' :: j < j' < |gs[i].pixels| ==>
      Column(t, offset, gs[i].minX, gs[i].pixels[j']) != x || Row(t, gs[i].minY, gs[i].pixels[j']) != y
    requires forall i' :: i < i' < DrawnCount(t, offset, gs) ==> !Hits(t, offset, gs[i'], x, y)
    ensures Index(t, x, y) < |img|
    ensures Painted(t, color, img, offset, gs)[Index(t, x, y)] == t.encode(color, gs[i].pixels[j].v)
  {
    var n := DrawnCount(t, offset, gs);
    var drawn := gs[..n];
    assert forall i' :: 0 <= i' < n ==> drawn[i'] == gs[i'];
    PaintGlyphsLast(t, color, img, offset, drawn, i, j, x, y);
  }

  /** The horizontal distance a glyph advances the offset does not wrap around 16 bits. */
  predicate AdvanceFits(offset: nat, g: Glyph) {
    match g
    case Bounded(_, _, maxX, _) => 0 <= maxX && offset + maxX < U16_LIMIT
    case Unbounded(posX) => offset + F32ToU16(posX) < U16_LIMIT
  }

  /** When no advance wraps, the offset a call returns is never left of the one it started at. */
  lemma NextOffsetMonotone(t: Target, offset: nat, gs: seq<Glyph>)
    requires ValidTarget(t)
    requires forall i :: 0 <= i < |gs| ==> AdvanceFits(offset, gs[i])
    ensures NextOffset(t, offset, gs) >= offset
  {
    var k := FirstClipped(t, offset, gs);
    if k > 0 {
      assert AdvanceFits(offset, gs[k - 1]);
    }
  }
}
