/**
 * The launcher's own text display (FontRender and render_text in src/main.rs):
 * the prompt line it shows, the zeroed image memory it starts from, and the
 * render pass that clears the image and draws the laid-out glyphs of the line.
 *
 * The image is kept one value per pixel, indexed by column and row; the font
 * layout and the coverage-to-pixel conversion are inputs.
 */
module Display {
  import opened Options
  import opened Colors
  import opened Glyphs

  /** The text shown for the current input: a prompt, the input, and an underscore for the cursor. */
  function DisplayLine(input: string): string {
    "> " + input + "_"
  }

  /** The displayed line is the prompt "> ", then the input, then the cursor. */
  lemma DisplayLineParts(input: string)
    ensures |DisplayLine(input)| == |input| + 3
    ensures DisplayLine(input)[..2] == "> " && DisplayLine(input)[2..|input| + 2] == input && DisplayLine(input)[|input| + 2] == '_'
  {
    var line := DisplayLine(input);
    assert line[2..|input| + 2] == input;
  }

  /** Reads the input back off a displayed line, if the line has the prompt's shape. */
  function InputOfLine(line: string): (r: Option<string>)
    ensures r.Some? ==> |r.value| + 3 == |line|
  {
    if |line| >= 3 && line[..2] == "> " && line[|line| - 1] == '_' then Some(line[2..|line| - 1]) else None
  }

  /** A displayed line determines the input it shows, and only displayed lines have one. */
  lemma DisplayLineRoundTrip(input: string, line: string)
    ensures InputOfLine(DisplayLine(input)) == Some(input)
    ensures InputOfLine(line) == Some(input) <==> line == DisplayLine(input)
  {
    DisplayLineParts(input);
    if InputOfLine(line) == Some(input) {
      assert line == line[..2] + line[2..|line| - 1] + [line[|line| - 1]];
    }
  }

  const U32_LIMIT: nat := 0x1_0000_0000

  /**
   * The image memory for a `width` by `height` image at four bytes per pixel,
   * all zero. The product is a 32-bit multiplication, so it wraps.
   */
  function CreateHeapMemory(width: nat, height: nat): (mem: seq<u8>)
    requires width < U32_LIMIT && height < U32_LIMIT
    ensures |mem| == (width * height) % U32_LIMIT * 4
    ensures forall i :: 0 <= i < |mem| ==> mem[i] == 0
  {
    seq((width * height) % U32_LIMIT * 4, _ => 0)
  }

  lemma ProductBound(width: nat, height: nat)
    requires width < U16_LIMIT && height < U16_LIMIT
    ensures width * height < U32_LIMIT
  {
    MulMonotone(width, height, 0xFFFF);
    MulMonotone(0xFFFF, width, 0xFFFF);
  }

  lemma MulMonotone(a: nat, b: nat, c: nat)
    requires b <= c
    ensures a * b <= a * c
  {
    assert a * c == a * b + a * (c - b);
  }

  /** For window dimensions, which are 16-bit, the product does not wrap: four bytes for every pixel. */
  lemma HeapMemoryFitsImage(width: nat, height: nat)
    requires width < U16_LIMIT && height < U16_LIMIT
    ensures |CreateHeapMemory(width, height)| == width * height * 4
  {
    ProductBound(width, height);
  }

  /** One call of the draw callback, at image column `x` and row `y`, with coverage `v`. */
  datatype Write = Write(x: int, y: int, v: real)

  /** The writes of one glyph: each covered pixel offset by the glyph's bounding box, in drawing order. */
  function GlyphWrites(g: Glyph): (ws: seq<Write>)
    ensures g.Unbounded? ==> ws == []
    ensures g.Bounded? ==> |ws| == |g.pixels| && forall k :: 0 <= k < |ws| ==>
      ws[k] == Write(g.minX + g.pixels[k].px, g.minY + g.pixels[k].py, g.pixels[k].v)
  {
    match g
    case Unbounded(_) => []
    case Bounded(minX, minY, _, pixels) =>
      seq(|pixels|, k requires 0 <= k < |pixels| => Write(minX + pixels[k].px, minY + pixels[k].py, pixels[k].v))
  }

  /** The writes of a line's glyphs, glyph after glyph. */
  function Writes(gs: seq<Glyph>): seq<Write>
    decreases |gs|
  {
    if gs == [] then [] else Writes(gs[..|gs| - 1]) + GlyphWrites(gs[|gs| - 1])
  }

  /** Every write lands inside a `width` by `height` image. */
  predicate WritesInside(width: nat, height: nat, ws: seq<Write>) {
    forall k :: 0 <= k < |ws| ==> 0 <= ws[k].x < width && 0 <= ws[k].y < height
  }

  /** The coverage of the last write to pixel (x, y), if any write reaches it. */
  function LastCoverage(ws: seq<Write>, x: int, y: int): Option<real>
    decreases |ws|
  {
    if ws == [] then None
    else if ws[|ws| - 1].x == x && ws[|ws| - 1].y == y then Some(ws[|ws| - 1].v)
    else LastCoverage(ws[..|ws| - 1], x, y)
  }

  /** A pixel has no last coverage exactly when no write reaches it. */
  lemma {:induction false} LastCoverageNone(ws: seq<Write>, x: int, y: int)
    ensures LastCoverage(ws, x, y).None? <==> forall k :: 0 <= k < |ws| ==> !(ws[k].x == x && ws[k].y == y)
    decreases |ws|
  {
    if ws != [] {
      var n := |ws| - 1;
      LastCoverageNone(ws[..n], x, y);
      assert forall k :: 0 <= k < n ==> ws[..n][k] == ws[k];
    }
  }

  /** A pixel's last coverage is that of a write reaching it after which no other write reaches it. */
  lemma {:induction false} LastCoverageSome(ws: seq<Write>, x: int, y: int)
    requires LastCoverage(ws, x, y).Some?
    ensures exists k :: 0 <= k < |ws| && ws[k].x == x && ws[k].y == y && LastCoverage(ws, x, y).value == ws[k].v
                        && (forall k' :: k < k' < |ws| ==> !(ws[k'].x == x && ws[k'].y == y))
    decreases |ws|
  {
    var n := |ws| - 1;
    if !(ws[n].x == x && ws[n].y == y) {
      var init := ws[..n];
      LastCoverageSome(init, x, y);
      var k :| 0 <= k < n && init[k].x == x && init[k].y == y && LastCoverage(init, x, y).value == init[k].v
        && forall k' :: k < k' < n ==> !(init[k'].x == x && init[k'].y == y);
      assert ws[k] == init[k];
      assert forall k' :: k < k' < n ==> ws[k'] == init[k'];
    }
  }

  /** The pixel a render pass leaves at (x, y): the encoded last coverage there, or the cleared 0. */
  function Shown(ws: seq<Write>, encode: real -> Pixel, x: int, y: int): Pixel {
    Overlay(LastCoverage(ws, x, y), encode, 0)
  }

  /** A pixel after drawing: the encoded coverage of the last write there, else what it was. */
  function Overlay(c: Option<real>, encode: real -> Pixel, before: Pixel): Pixel {
    match c
    case None => before
    case Some(v) => encode(v)
  }

  /** The launcher's text renderer: image size, font layout and pixel encoding, and the image itself. */
  class FontRender {
    const width: nat
    const height: nat
    /** The font at its scale and start position: the positioned glyphs it lays a text out as. */
    const layout: string -> seq<Glyph>
    /** The primary colour scaled by a coverage, as a pixel value. */
    const encode: real -> Pixel
    const image: array2<Pixel>

    ghost predicate Valid()
    {
      width < U16_LIMIT && height < U16_LIMIT && image.Length0 == width && image.Length1 == height
    }

    /** Every pixel the layout of `text` writes lies inside the image. */
    ghost predicate Fits(text: string)
    {
      WritesInside(width, height, Writes(layout(text)))
    }

    /** The image shows `text`: every pixel holds what a render pass of its glyphs leaves there. */
    ghost predicate Showing(text: string)
      reads image
    {
      Valid() && forall x, y :: 0 <= x < width && 0 <= y < height ==> image[x, y] == Shown(Writes(layout(text)), encode, x, y)
    }

    /** A renderer over image memory from CreateHeapMemory: every pixel starts at 0. */
    constructor (width: nat, height: nat, layout: string -> seq<Glyph>, encode: real -> Pixel)
      requires width < U16_LIMIT && height < U16_LIMIT
      ensures Valid()
      ensures this.width == width && this.height == height && this.layout == layout && this.encode == encode
      ensures fresh(image)
      ensures forall x, y :: 0 <= x < width && 0 <= y < height ==> image[x, y] == 0
    {
      this.width := width;
      this.height := height;
      this.layout := layout;
      this.encode := encode;
      image := new Pixel[width, height]((x, y) => 0);
    }

    /** The clear loop: column by column, every pixel of the image is set to 0. */
    method ClearImage()
      requires Valid()
      modifies image
      ensures forall x, y :: 0 <= x < width && 0 <= y < height ==> image[x, y] == 0
    {
      for x := 0 to width
        invariant forall x', y' :: 0 <= x' < x && 0 <= y' < height ==> image[x', y'] == 0
      {
        for y := 0 to height
          invariant forall x', y' :: 0 <= x' < x && 0 <= y' < height ==> image[x', y'] == 0
          invariant forall y' :: 0 <= y' < y ==> image[x, y'] == 0
        {
          image[x, y] := 0;
        }
      }
    }

    /** The draw callback run over one glyph: each covered pixel is set to its encoded coverage. */
    method DrawGlyph(g: Glyph)
      requires Valid() && g.Bounded? && WritesInside(width, height, GlyphWrites(g))
      modifies image
      ensures forall x, y :: 0 <= x < width && 0 <= y < height ==>
        image[x, y] == Overlay(LastCoverage(GlyphWrites(g), x, y), encode, old(image[x, y]))
    {
      ghost var gw := GlyphWrites(g);
      var pixels := g.pixels;
      for j := 0 to |pixels|
        invariant forall x, y :: 0 <= x < width && 0 <= y < height ==>
          image[x, y] == Overlay(LastCoverage(gw[..j], x, y), encode, old(image[x, y]))
      {
        assert gw[..j + 1][..j] == gw[..j] && gw[..j + 1][j] == gw[j];
        image[g.minX + pixels[j].px, g.minY + pixels[j].py] := encode(pixels[j].v);
      }
      assert gw[..|pixels|] == gw;
    }

    /** The glyph loop: every glyph with a bounding box is drawn in order; glyphs without one are skipped. */
    method DrawGlyphs(glyphs: seq<Glyph>)
      requires Valid() && WritesInside(width, height, Writes(glyphs))
      modifies image
      ensures forall x, y :: 0 <= x < width && 0 <= y < height ==>
        image[x, y] == Overlay(LastCoverage(Writes(glyphs), x, y), encode, old(image[x, y]))
    {
      for i := 0 to |glyphs|
        invariant forall x, y :: 0 <= x < width && 0 <= y < height ==>
          image[x, y] == Overlay(LastCoverage(Writes(glyphs[..i]), x, y), encode, old(image[x, y]))
      {
        ghost var done := Writes(glyphs[..i]);
        ghost var gw := GlyphWrites(glyphs[i]);
        NextGlyphWrites(width, height, glyphs, i);
        if glyphs[i].Bounded? {
          label before:
          DrawGlyph(glyphs[i]);
          forall x, y | 0 <= x < width && 0 <= y < height
            ensures image[x, y] == Overlay(LastCoverage(done + gw, x, y), encode, old(image[x, y]))
          {
            assert old@before(image[x, y]) == Overlay(LastCoverage(done, x, y), encode, old(image[x, y]));
            assert image[x, y] == Overlay(LastCoverage(gw, x, y), encode, old@before(image[x, y]));
            OverlayAppend(done, gw, encode, old(image[x, y]), x, y);
          }
        } else {
          assert done + gw == done;
        }
      }
      assert glyphs[..|glyphs|] == glyphs;
    }

    /**
     * One render pass for the current input: lays out the displayed line,
     * clears the image and draws the line's glyphs into it. Returns the line.
     */
    method RenderText(input: string) returns (text: string)
      requires Valid() && Fits(DisplayLine(input))
      modifies image
      ensures text == DisplayLine(input)
      ensures Showing(text)
    {
      text := "> " + input + "_";
      var glyphs := layout(text);
      ClearImage();
      DrawGlyphs(glyphs);
    }
  }

  /** The writes of a prefix of the glyphs are a prefix of all the writes, so they land inside too. */
  lemma {:induction false} WritesPrefix(gs: seq<Glyph>, n: nat)
    requires n <= |gs|
    ensures Writes(gs[..n]) <= Writes(gs)
    decreases |gs| - n
  {
    if n < |gs| {
      WritesPrefix(gs, n + 1);
      assert gs[..n + 1][..n] == gs[..n];
    } else {
      assert gs[..n] == gs;
    }
  }

  lemma WritesPrefixInside(width: nat, height: nat, gs: seq<Glyph>, n: nat)
    requires n <= |gs| && WritesInside(width, height, Writes(gs))
    ensures WritesInside(width, height, Writes(gs[..n]))
  {
    WritesPrefix(gs, n);
  }

  /** Glyph `i` adds its own writes after those of the glyphs before it, and they land inside too. */
  lemma NextGlyphWrites(width: nat, height: nat, gs: seq<Glyph>, i: nat)
    requires i < |gs| && WritesInside(width, height, Writes(gs))
    ensures Writes(gs[..i + 1]) == Writes(gs[..i]) + GlyphWrites(gs[i])
    ensures WritesInside(width, height, Writes(gs[..i + 1])) && WritesInside(width, height, GlyphWrites(gs[i]))
  {
    assert gs[..i + 1][..i] == gs[..i];
    WritesPrefixInside(width, height, gs, i + 1);
    var done := Writes(gs[..i]);
    var gw := GlyphWrites(gs[i]);
    assert forall k :: 0 <= k < |gw| ==> gw[k] == (done + gw)[|done| + k];
  }

  lemma OverlayAppend(a: seq<Write>, b: seq<Write>, encode: real -> Pixel, before: Pixel, x: int, y: int)
    ensures Overlay(LastCoverage(a + b, x, y), encode, before)
         == Overlay(LastCoverage(b, x, y), encode, Overlay(LastCoverage(a, x, y), encode, before))
  {
    LastCoverageAppend(a, b, x, y);
  }

  /** Drawing two runs of writes one after the other: a pixel shows the later run's write if it has one. */
  lemma {:induction false} LastCoverageAppend(a: seq<Write>, b: seq<Write>, x: int, y: int)
    ensures LastCoverage(a + b, x, y) == if LastCoverage(b, x, y).Some? then LastCoverage(b, x, y) else LastCoverage(a, x, y)
    decreases |b|
  {
    if b == [] {
      assert a + b == a;
    } else {
      var n := |b| - 1;
      assert (a + b)[..|a + b| - 1] == a + b[..n] && (a + b)[|a + b| - 1] == b[n];
      LastCoverageAppend(a, b[..n], x, y);
    }
  }

  /** Pixels of a rendered line that no glyph covers keep the background 0. */
  lemma BackgroundStaysClear(ws: seq<Write>, encode: real -> Pixel, x: int, y: int)
    requires forall k :: 0 <= k < |ws| ==> !(ws[k].x == x && ws[k].y == y)
    ensures Shown(ws, encode, x, y) == 0
  {
    LastCoverageNone(ws, x, y);
  }
}
