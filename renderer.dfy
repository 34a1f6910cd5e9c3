/**
 * The line renderer object (FontRenderer in src/text.rs): it owns an image
 * buffer that every render pass clears and then draws the composed line into.
 */
module Renderer {
  import opened Options
  import opened Colors
  import opened Glyphs
  import opened Compositor

  class FontRenderer {
    /** Image size, margin and the visual's pixel encoding. */
    const target: Target
    /** The font at its scale and baseline: the glyphs it lays a text out as. */
    const layout: string -> seq<Glyph>
    const color: Color
    const colorSecondary: Color
    /** The image buffer, one pixel value per element, row by row. */
    const image: array<Pixel>

    ghost predicate Valid()
      reads this
    {
      ValidTarget(target) && image.Length == target.width * target.height && FontFits(target, layout)
    }

    /** A renderer with a freshly allocated, zeroed image; the secondary colour is derived from the primary one. */
    constructor (width: nat, height: nat, margin: nat, layout: string -> seq<Glyph>, encode: (Color, real) -> Pixel, color: Color)
      requires ValidTarget(Target(width, height, margin, encode)) && FontFits(Target(width, height, margin, encode), layout)
      ensures Valid()
      ensures target.width == width && target.height == height && target.margin == margin && target.encode == encode
      ensures this.layout == layout && this.color == color && colorSecondary == Secondary(color)
      ensures fresh(image) && image[..] == Blank(width * height)
    {
      target := Target(width, height, margin, encode);
      this.layout := layout;
      this.color := color;
      colorSecondary := Secondary(color);
      image := new Pixel[width * height](_ => 0);
    }

    /** The clear at the start of a render pass: every element of the buffer becomes 0. */
    method Clear()
      requires Valid()
      modifies image
      ensures image[..] == Blank(image.Length)
    {
      for i := 0 to image.Length
        invariant forall j :: 0 <= j < i ==> image[j] == 0
      {
        image[i] := 0;
      }
    }

    /**
     * The draw callback run over one glyph's covered pixels: each pixel left of
     * column `width - 2 * margin` is written with the colour scaled by its
     * coverage; `outside` tells whether any pixel fell at or right of it.
     */
    method DrawGlyph(offset: nat, minX: int, minY: int, pixels: seq<Coverage>, c: Color) returns (outside: bool)
      requires Valid()
      requires forall j :: 0 <= j < |pixels| ==> Row(target, minY, pixels[j]) < target.height
      modifies image
      ensures image[..] == PaintPixels(target, c, old(image[..]), offset, minX, minY, pixels)
      ensures outside <==> Clipped(target, offset, Bounded(minX, minY, 0, pixels))
    {
      outside := false;
      var dstX := U16(target.margin + offset + U16(minX));
      var dstY := U16(target.margin + U16(minY));
      var clip := target.width - target.margin * 2;
      var j := 0;
      while j < |pixels|
        invariant j <= |pixels|
        invariant image[..] == PaintPixels(target, c, old(image[..]), offset, minX, minY, pixels[..j])
        invariant outside <==> exists j' :: 0 <= j' < j && Column(target, offset, minX, pixels[j']) >= ClipX(target)
      {
        assert pixels[..j + 1][..j] == pixels[..j];
        var p := pixels[j];
        var x := U16(dstX + U16(p.px));
        var y := U16(dstY + U16(p.py));
        assert x == Column(target, offset, minX, p) && y == Row(target, minY, p);
        if x < clip {
          IndexInBounds(target.width, target.height, x, y);
          var idx := y * target.width + x;
          assert idx == Index(target, x, y) < image.Length;
          image[idx] := target.encode(c, p.v);
        } else {
          outside := true;
        }
        j := j + 1;
      }
      assert pixels[..j] == pixels;
    }

    /**
     * Draws one text at `offset`: the glyphs of the text with a trailing space,
     * in order, stopping after the first glyph that had a clipped pixel.
     * Returns the new offset.
     */
    method RenderGlyphs(offset: nat, text: string, c: Color) returns (next: nat)
      requires Valid()
      modifies image
      ensures image[..] == Painted(target, c, old(image[..]), offset, layout(text + " "))
      ensures next == NextOffset(target, offset, layout(text + " "))
    {
      var glyphs := layout(text + " ");
      assert GlyphsFit(target, glyphs);
      ghost var start := image[..];
      ghost var k := FirstClipped(target, offset, glyphs);
      next := offset;
      var i := 0;
      while i < |glyphs|
        invariant i <= k
        invariant image[..] == PaintGlyphs(target, c, start, offset, glyphs[..i])
        invariant next == if i == 0 then offset else Advance(offset, glyphs[i - 1])
      {
        assert glyphs[..i + 1][..i] == glyphs[..i];
        match glyphs[i] {
          case Bounded(minX, minY, maxX, pixels) =>
            assert FitsRows(target, glyphs[i]);
            var outside := DrawGlyph(offset, minX, minY, pixels, c);
            if outside {
              assert Clipped(target, offset, glyphs[i]);
              break;
            }
            next := U16(offset + U16(maxX));
          case Unbounded(posX) =>
            next := U16(offset + F32ToU16(posX));
        }
        i := i + 1;
      }
      assert glyphs[..|glyphs|] == glyphs;
    }

    /**
     * One step of the match loop: the separating space at `x`, then match `i`
     * in the primary colour iff it is the selected one. Returns the offset after it.
     */
    method RenderMatch(x: nat, matches: seq<string>, i: nat, matchesI: Option<nat>) returns (next: nat)
      requires Valid() && i < |matches|
      modifies image
      ensures image[..] == PaintDrawn(target, layout, old(image[..]),
                                      MatchPair(RasterAdvance(target, layout), x, matches, i, matchesI, color, colorSecondary))
      ensures next == SegmentEnd(RasterAdvance(target, layout),
                                 MatchPair(RasterAdvance(target, layout), x, matches, i, matchesI, color, colorSecondary)[1])
    {
      ghost var adv := RasterAdvance(target, layout);
      ghost var img0 := image[..];
      ghost var sep := Placed(Segment(" ", colorSecondary), x);
      next := RenderGlyphs(x, " ", colorSecondary);
      var mc := match matchesI {
        case Some(mI) => if mI == i then color else colorSecondary
        case None => colorSecondary
      };
      assert mc == MatchColor(i, matchesI, color, colorSecondary);
      ghost var m := Placed(Segment(matches[i], mc), next);
      ghost var img1 := image[..];
      next := RenderGlyphs(next, matches[i], mc);
      assert MatchPair(adv, x, matches, i, matchesI, color, colorSecondary) == [sep] + ([m] + []);
      PaintDrawnCons(target, layout, img0, sep, [m] + []);
      PaintDrawnCons(target, layout, img1, m, []);
    }

    /**
     * One render pass: clears the image, then draws the placeholder, or the
     * input followed by a separator and each match, threading the offset and
     * stopping after the first match that ends past the image width.
     */
    method RenderText(input: string, matches: seq<string>, matchesI: Option<nat>)
      requires Valid()
      modifies image
      ensures image[..] == Rendered(target, layout, input, matches, matchesI, color, colorSecondary)
    {
      Clear();
      ghost var goal := Rendered(target, layout, input, matches, matchesI, color, colorSecondary);
      ghost var blank := image[..];
      assert blank == Blank(target.width * target.height);
      ghost var adv := RasterAdvance(target, layout);
      if |input| == 0 {
        var _ := RenderGlyphs(0, "_", color);
        PaintDrawnCons(target, layout, blank, Placed(Segment("_", color), 0), []);
        assert [Placed(Segment("_", color), 0)] + [] == [Placed(Segment("_", color), 0)];
      } else {
        var x: nat := 0;
        var c := if matchesI.None? then color else colorSecondary;
        x := RenderGlyphs(x, input, c);
        assert c == InputColor(matchesI, color, colorSecondary);
        assert x == SegmentEnd(adv, Placed(Segment(input, c), 0));
        assert Drawn(adv, target.width, input, matches, matchesI, color, colorSecondary)
            == [Placed(Segment(input, c), 0)] + DrawnMatches(adv, target.width, x, matches, 0, matchesI, color, colorSecondary);
        PaintDrawnCons(target, layout, blank, Placed(Segment(input, c), 0),
                       DrawnMatches(adv, target.width, x, matches, 0, matchesI, color, colorSecondary));
        var i := 0;
        while i < |matches|
          invariant i <= |matches|
          invariant PaintDrawn(target, layout, image[..], DrawnMatches(adv, target.width, x, matches, i, matchesI, color, colorSecondary)) == goal
        {
          ghost var img0 := image[..];
          ghost var pair := MatchPair(adv, x, matches, i, matchesI, color, colorSecondary);
          x := RenderMatch(x, matches, i, matchesI);
          ghost var rest := if x > target.width then [] else DrawnMatches(adv, target.width, x, matches, i + 1, matchesI, color, colorSecondary);
          PaintDrawnAppend(target, layout, img0, pair, rest);
          if x > target.width {
            break;
          }
          i := i + 1;
        }
      }
    }
  }
}
