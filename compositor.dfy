/**
 * Line composition of the renderer (FontRenderer::render_text in src/text.rs):
 * the input and the matches become coloured segments, drawn left to right with
 * the running offset threaded through, until a match ends past the image width.
 */
module Compositor {
  import opened Options
  import opened Colors
  import opened Glyphs

  /** A piece of the rendered line: its text and the colour it is drawn in. */
  datatype Segment = Segment(text: string, color: Color)

  /** A segment with the horizontal offset it is drawn at. */
  datatype Placed = Placed(seg: Segment, x: nat)

  /** The input is drawn in the primary colour only while no match is selected. */
  function InputColor(selected: Option<nat>, primary: Color, secondary: Color): Color {
    if selected.None? then primary else secondary
  }

  /** Match `i` is drawn in the primary colour iff it is the selected one. */
  function MatchColor(i: nat, selected: Option<nat>, primary: Color, secondary: Color): Color {
    if selected == Some(i) then primary else secondary
  }

  /**
   * Position `k` of what follows the input: even positions hold the separating
   * space, odd position 2 * j + 1 holds match j.
   */
  function MatchSegmentAt(matches: seq<string>, k: nat, selected: Option<nat>, primary: Color, secondary: Color): Segment
    requires k < 2 * |matches|
  {
    if k % 2 == 0 then Segment(" ", secondary)
    else Segment(matches[k / 2], MatchColor(k / 2, selected, primary, secondary))
  }

  lemma MatchSegmentPair(matches: seq<string>, i: nat, selected: Option<nat>, primary: Color, secondary: Color)
    requires i < |matches|
    ensures MatchSegmentAt(matches, 2 * i, selected, primary, secondary) == Segment(" ", secondary)
    ensures MatchSegmentAt(matches, 2 * i + 1, selected, primary, secondary) == Segment(matches[i], MatchColor(i, selected, primary, secondary))
  {
    assert (2 * i) % 2 == 0 && (2 * i + 1) % 2 == 1 && (2 * i + 1) / 2 == i;
  }

  /** A separating space and the match, for every match in list order. */
  function MatchSegments(matches: seq<string>, selected: Option<nat>, primary: Color, secondary: Color): (r: seq<Segment>)
    ensures |r| == 2 * |matches|
    ensures forall k :: 0 <= k < |r| ==> r[k] == MatchSegmentAt(matches, k, selected, primary, secondary)
  {
    seq(2 * |matches|, k requires 0 <= k < 2 * |matches| => MatchSegmentAt(matches, k, selected, primary, secondary))
  }

  /**
   * The whole line before truncation: a cursor placeholder when the input is
   * empty; otherwise the input, then a separator and each match in list order.
   */
  function Segments(input: string, matches: seq<string>, selected: Option<nat>, primary: Color, secondary: Color): (r: seq<Segment>)
    ensures input == [] ==> r == [Segment("_", primary)]
    ensures input != [] ==> |r| == 1 + 2 * |matches| && r[0] == Segment(input, InputColor(selected, primary, secondary))
    ensures input != [] ==> forall k :: 1 <= k < |r| ==> r[k] == MatchSegmentAt(matches, k - 1, selected, primary, secondary)
  {
    if input == [] then [Segment("_", primary)]
    else [Segment(input, InputColor(selected, primary, secondary))] + MatchSegments(matches, selected, primary, secondary)
  }

  /** After a non-empty input, position 2 * j + 1 holds a separator and 2 * j + 2 holds match j. */
  lemma SegmentsInterleave(input: string, matches: seq<string>, selected: Option<nat>, primary: Color, secondary: Color, j: nat)
    requires input != [] && j < |matches|
    ensures Segments(input, matches, selected, primary, secondary)[2 * j + 1] == Segment(" ", secondary)
    ensures Segments(input, matches, selected, primary, secondary)[2 * j + 2] == Segment(matches[j], MatchColor(j, selected, primary, secondary))
  {
    MatchSegmentPair(matches, j, selected, primary, secondary);
  }

  /** At most one segment after the first is drawn in `c`. */
  predicate AtMostOneAfterFirst(r: seq<Segment>, c: Color) {
    forall a, b :: 1 <= a < |r| && 1 <= b < |r| && r[a].color == c && r[b].color == c ==> a == b
  }

  /**
   * When the two colours differ, colour tells the selection apart: the input is
   * primary iff nothing is selected, match j is primary iff it is selected,
   * separators never are, and at most one segment after the input is primary.
   */
  lemma SelectionColours(input: string, matches: seq<string>, selected: Option<nat>, primary: Color, secondary: Color, j: nat)
    requires input != [] && primary != secondary && j < |matches|
    ensures Segments(input, matches, selected, primary, secondary)[0].color == primary <==> selected.None?
    ensures Segments(input, matches, selected, primary, secondary)[2 * j + 2].color == primary <==> selected == Some(j)
    ensures Segments(input, matches, selected, primary, secondary)[2 * j + 1].color == secondary
  {
    SegmentsInterleave(input, matches, selected, primary, secondary, j);
  }

  /** When the two colours differ, at most one segment after the input is in the primary colour. */
  lemma SinglePrimaryMatch(input: string, matches: seq<string>, selected: Option<nat>, primary: Color, secondary: Color)
    requires input != [] && primary != secondary
    ensures AtMostOneAfterFirst(Segments(input, matches, selected, primary, secondary), primary)
  {
    var r := Segments(input, matches, selected, primary, secondary);
    forall a | 1 <= a < |r|
      ensures r[a].color == primary <==> (a - 1) % 2 == 1 && selected == Some((a - 1) / 2)
    {
      MatchSegmentColour(matches, a - 1, selected, primary, secondary);
    }
  }

  lemma MatchSegmentColour(matches: seq<string>, k: nat, selected: Option<nat>, primary: Color, secondary: Color)
    requires k < 2 * |matches| && primary != secondary
    ensures MatchSegmentAt(matches, k, selected, primary, secondary).color == primary <==> k % 2 == 1 && selected == Some(k / 2)
  {
  }

  /**
   * How far drawing a segment at an offset gets: the offset the next segment
   * starts at. Line composition depends on the rasterizer only through this.
   */
  type Advancer = (nat, Segment) -> nat

  /** The rasterizer's advance: the font lays the text out with one trailing space. */
  function RasterAdvance(t: Target, layout: string -> seq<Glyph>): Advancer
    requires ValidTarget(t)
  {
    (x: nat, s: Segment) => NextOffset(t, x, layout(s.text + " "))
  }

  /** The offset after a placed segment is drawn. */
  function SegmentEnd(adv: Advancer, p: Placed): nat {
    adv(p.x, p.seg)
  }

  /** The separator placed at `x` and match `i` placed where the separator ends. */
  function MatchPair(adv: Advancer, x: nat, matches: seq<string>, i: nat,
                     selected: Option<nat>, primary: Color, secondary: Color): seq<Placed>
    requires i < |matches|
  {
    var sep := Placed(Segment(" ", secondary), x);
    [sep, Placed(Segment(matches[i], MatchColor(i, selected, primary, secondary)), SegmentEnd(adv, sep))]
  }

  /**
   * The separators and matches drawn from match `i` on, the first separator at
   * `x`: a pair at a time, and no further pair once a match ends past the width.
   */
  function DrawnMatches(adv: Advancer, width: nat, x: nat, matches: seq<string>, i: nat,
                        selected: Option<nat>, primary: Color, secondary: Color): seq<Placed>
    requires i <= |matches|
    decreases |matches| - i
  {
    if i == |matches| then []
    else
      var pair := MatchPair(adv, x, matches, i, selected, primary, secondary);
      var end := SegmentEnd(adv, pair[1]);
      pair + if end > width then [] else DrawnMatches(adv, width, end, matches, i + 1, selected, primary, secondary)
  }

  /** The segments the renderer draws for one line, in order, each with its offset. */
  function Drawn(adv: Advancer, width: nat, input: string, matches: seq<string>,
                 selected: Option<nat>, primary: Color, secondary: Color): seq<Placed>
  {
    if input == [] then [Placed(Segment("_", primary), 0)]
    else
      var first := Placed(Segment(input, InputColor(selected, primary, secondary)), 0);
      [first] + DrawnMatches(adv, width, SegmentEnd(adv, first), matches, 0, selected, primary, secondary)
  }

  lemma {:induction false} DrawnMatchesLength(adv: Advancer, width: nat, x: nat, matches: seq<string>, i: nat,
                                              selected: Option<nat>, primary: Color, secondary: Color)
    requires i <= |matches|
    ensures |DrawnMatches(adv, width, x, matches, i, selected, primary, secondary)| <= 2 * (|matches| - i)
    ensures |DrawnMatches(adv, width, x, matches, i, selected, primary, secondary)| % 2 == 0
    ensures i < |matches| ==> |DrawnMatches(adv, width, x, matches, i, selected, primary, secondary)| >= 2
    decreases |matches| - i
  {
    if i < |matches| {
      var sep := Placed(Segment(" ", secondary), x);
      var m := Placed(Segment(matches[i], MatchColor(i, selected, primary, secondary)), SegmentEnd(adv, sep));
      var end := SegmentEnd(adv, m);
      if end <= width {
        DrawnMatchesLength(adv, width, end, matches, i + 1, selected, primary, secondary);
      }
    }
  }

  /** The placed segments are those of the untruncated line from position `from` of what follows the input. */
  predicate FollowsMatchSegments(d: seq<Placed>, matches: seq<string>, from: nat, selected: Option<nat>, primary: Color, secondary: Color) {
    forall k :: 0 <= k < |d| ==> from + k < 2 * |matches| && d[k].seg == MatchSegmentAt(matches, from + k, selected, primary, secondary)
  }

  /** Each placed segment starts where the previous one ended, the first at `x`. */
  predicate Threaded(adv: Advancer, d: seq<Placed>, x: nat)
  {
    (|d| > 0 ==> d[0].x == x) && forall k :: 0 <= k < |d| - 1 ==> d[k + 1].x == SegmentEnd(adv, d[k])
  }

  /** Every placed segment at a position `from`, `from + 2`, ... before the last one ends within the width. */
  predicate EndsWithin(adv: Advancer, width: nat, d: seq<Placed>, from: nat)
  {
    forall k :: from <= k < |d| - 1 && k % 2 == from % 2 ==> SegmentEnd(adv, d[k]) <= width
  }

  lemma {:induction false} DrawnMatchesSegments(adv: Advancer, width: nat, x: nat, matches: seq<string>, i: nat,
                                                selected: Option<nat>, primary: Color, secondary: Color)
    requires i <= |matches|
    ensures FollowsMatchSegments(DrawnMatches(adv, width, x, matches, i, selected, primary, secondary), matches, 2 * i, selected, primary, secondary)
    decreases |matches| - i
  {
    DrawnMatchesLength(adv, width, x, matches, i, selected, primary, secondary);
    if i < |matches| {
      var d := DrawnMatches(adv, width, x, matches, i, selected, primary, secondary);
      var sep := Placed(Segment(" ", secondary), x);
      var m := Placed(Segment(matches[i], MatchColor(i, selected, primary, secondary)), SegmentEnd(adv, sep));
      var end := SegmentEnd(adv, m);
      MatchSegmentPair(matches, i, selected, primary, secondary);
      if end <= width {
        var rest := DrawnMatches(adv, width, end, matches, i + 1, selected, primary, secondary);
        DrawnMatchesSegments(adv, width, end, matches, i + 1, selected, primary, secondary);
        assert d == [sep, m] + rest;
        forall k | 2 <= k < |d|
          ensures 2 * i + k < 2 * |matches| && d[k].seg == MatchSegmentAt(matches, 2 * i + k, selected, primary, secondary)
        {
          var k2 := k - 2;
          assert d[k] == rest[k2];
          assert rest[k2].seg == MatchSegmentAt(matches, 2 * (i + 1) + k2, selected, primary, secondary);
          assert 2 * (i + 1) + k2 == 2 * i + k;
        }
      }
    }
  }

  lemma {:induction false} DrawnMatchesOffsets(adv: Advancer, width: nat, x: nat, matches: seq<string>, i: nat,
                                               selected: Option<nat>, primary: Color, secondary: Color)
    requires i <= |matches|
    ensures Threaded(adv, DrawnMatches(adv, width, x, matches, i, selected, primary, secondary), x)
    ensures EndsWithin(adv, width, DrawnMatches(adv, width, x, matches, i, selected, primary, secondary), 1)
    decreases |matches| - i
  {
    if i < |matches| {
      var d := DrawnMatches(adv, width, x, matches, i, selected, primary, secondary);
      var sep := Placed(Segment(" ", secondary), x);
      var m := Placed(Segment(matches[i], MatchColor(i, selected, primary, secondary)), SegmentEnd(adv, sep));
      var end := SegmentEnd(adv, m);
      if end <= width {
        var rest := DrawnMatches(adv, width, end, matches, i + 1, selected, primary, secondary);
        DrawnMatchesOffsets(adv, width, end, matches, i + 1, selected, primary, secondary);
        DrawnMatchesLength(adv, width, end, matches, i + 1, selected, primary, secondary);
        assert d == [sep, m] + rest;
        assert forall k :: 2 <= k < |d| ==> d[k] == rest[k - 2];
        forall k | 0 <= k < |d| - 1
          ensures d[k + 1].x == SegmentEnd(adv, d[k])
          ensures k % 2 == 1 ==> SegmentEnd(adv, d[k]) <= width
        {
          if k >= 2 {
            assert d[k] == rest[k - 2] && d[k + 1] == rest[k - 1];
            assert (k - 2) % 2 == k % 2;
          }
        }
      }
    }
  }

  /** If fewer than `full` segments were placed, the last placed one ends past the width. */
  predicate CutPastWidth(adv: Advancer, width: nat, d: seq<Placed>, full: nat)
  {
    |d| < full ==> |d| >= 2 && SegmentEnd(adv, d[|d| - 1]) > width
  }

  lemma {:induction false} DrawnMatchesCut(adv: Advancer, width: nat, x: nat, matches: seq<string>, i: nat,
                                           selected: Option<nat>, primary: Color, secondary: Color)
    requires i <= |matches|
    ensures CutPastWidth(adv, width, DrawnMatches(adv, width, x, matches, i, selected, primary, secondary), 2 * (|matches| - i))
    decreases |matches| - i
  {
    if i < |matches| {
      var d := DrawnMatches(adv, width, x, matches, i, selected, primary, secondary);
      var sep := Placed(Segment(" ", secondary), x);
      var m := Placed(Segment(matches[i], MatchColor(i, selected, primary, secondary)), SegmentEnd(adv, sep));
      var end := SegmentEnd(adv, m);
      if end <= width {
        var rest := DrawnMatches(adv, width, end, matches, i + 1, selected, primary, secondary);
        DrawnMatchesCut(adv, width, end, matches, i + 1, selected, primary, secondary);
        DrawnMatchesLength(adv, width, end, matches, i + 1, selected, primary, secondary);
        assert d == [sep, m] + rest;
        if |d| < 2 * (|matches| - i) {
          assert d[|d| - 1] == rest[|rest| - 1];
        }
      } else {
        assert d == [sep, m];
      }
    }
  }

  lemma ParityStep(n: nat)
    ensures (n + 1) % 2 == 1 <==> n % 2 == 0
  {
  }

  /** The placed segments are the first ones of `segs`, in order. */
  predicate IsPrefixOf(d: seq<Placed>, segs: seq<Segment>) {
    |d| <= |segs| && forall k :: 0 <= k < |d| ==> d[k].seg == segs[k]
  }

  /**
   * What is drawn is a prefix of the untruncated line that ends after the input
   * or after a match; with a non-empty input, at least the first match is drawn.
   */
  lemma DrawnIsPrefix(adv: Advancer, width: nat, input: string, matches: seq<string>,
                      selected: Option<nat>, primary: Color, secondary: Color)
    ensures 1 <= |Drawn(adv, width, input, matches, selected, primary, secondary)| <= |Segments(input, matches, selected, primary, secondary)|
    ensures |Drawn(adv, width, input, matches, selected, primary, secondary)| % 2 == 1
    ensures input != [] && matches != [] ==> |Drawn(adv, width, input, matches, selected, primary, secondary)| >= 3
    ensures IsPrefixOf(Drawn(adv, width, input, matches, selected, primary, secondary), Segments(input, matches, selected, primary, secondary))
  {
    if input != [] {
      var first := Placed(Segment(input, InputColor(selected, primary, secondary)), 0);
      var x1 := SegmentEnd(adv, first);
      var rest := DrawnMatches(adv, width, x1, matches, 0, selected, primary, secondary);
      var ms := MatchSegments(matches, selected, primary, secondary);
      DrawnMatchesLength(adv, width, x1, matches, 0, selected, primary, secondary);
      DrawnMatchesSegments(adv, width, x1, matches, 0, selected, primary, secondary);
      var d := Drawn(adv, width, input, matches, selected, primary, secondary);
      var segs := Segments(input, matches, selected, primary, secondary);
      assert d == [first] + rest;
      assert |d| == |rest| + 1;
      ParityStep(|rest|);
      assert segs == [first.seg] + ms;
      forall k | 1 <= k < |d|
        ensures d[k].seg == segs[k]
      {
        assert d[k] == rest[k - 1] && segs[k] == ms[k - 1];
      }
    }
  }

  /**
   * The line starts at offset 0, each drawn segment starts where the previous
   * one ended, every drawn match but the last ends within the width, and the
   * line is cut short only right after a match that ends past the width.
   */
  lemma DrawnStopsPastWidth(adv: Advancer, width: nat, input: string, matches: seq<string>,
                            selected: Option<nat>, primary: Color, secondary: Color)
    ensures Threaded(adv, Drawn(adv, width, input, matches, selected, primary, secondary), 0)
    ensures EndsWithin(adv, width, Drawn(adv, width, input, matches, selected, primary, secondary), 2)
    ensures CutPastWidth(adv, width, Drawn(adv, width, input, matches, selected, primary, secondary), |Segments(input, matches, selected, primary, secondary)|)
  {
    if input != [] {
      var first := Placed(Segment(input, InputColor(selected, primary, secondary)), 0);
      var x1 := SegmentEnd(adv, first);
      var rest := DrawnMatches(adv, width, x1, matches, 0, selected, primary, secondary);
      DrawnMatchesLength(adv, width, x1, matches, 0, selected, primary, secondary);
      DrawnMatchesOffsets(adv, width, x1, matches, 0, selected, primary, secondary);
      DrawnMatchesCut(adv, width, x1, matches, 0, selected, primary, secondary);
      var d := Drawn(adv, width, input, matches, selected, primary, secondary);
      assert d == [first] + rest;
      forall k | 0 <= k < |d| - 1
        ensures d[k + 1].x == SegmentEnd(adv, d[k])
        ensures 2 <= k && k % 2 == 0 ==> SegmentEnd(adv, d[k]) <= width
      {
        assert d[k + 1] == rest[k];
        if k >= 1 {
          assert d[k] == rest[k - 1];
          ParityStep(k - 1);
        }
      }
      if |rest| > 0 {
        assert d[|d| - 1] == rest[|rest| - 1];
      }
    }
  }

  /** The font lays out every text within the image's rows. */
  ghost predicate FontFits(t: Target, layout: string -> seq<Glyph>) {
    forall s :: GlyphsFit(t, layout(s))
  }

  /** The image after the placed segments are drawn into `img` in order. */
  function PaintDrawn(t: Target, layout: string -> seq<Glyph>, img: seq<Pixel>, ps: seq<Placed>): (r: seq<Pixel>)
    requires ValidTarget(t) && |img| == t.width * t.height && FontFits(t, layout)
    ensures |r| == |img|
    decreases |ps|
  {
    if ps == [] then img
    else
      var p := ps[0];
      PaintDrawn(t, layout, Painted(t, p.seg.color, img, p.x, layout(p.seg.text + " ")), ps[1..])
  }

  lemma PaintDrawnCons(t: Target, layout: string -> seq<Glyph>, img: seq<Pixel>, p: Placed, rest: seq<Placed>)
    requires ValidTarget(t) && |img| == t.width * t.height && FontFits(t, layout)
    ensures PaintDrawn(t, layout, img, [p] + rest)
         == PaintDrawn(t, layout, Painted(t, p.seg.color, img, p.x, layout(p.seg.text + " ")), rest)
  {
    assert ([p] + rest)[0] == p && ([p] + rest)[1..] == rest;
  }

  /** Drawing two runs of placed segments one after the other is drawing their concatenation. */
  lemma {:induction false} PaintDrawnAppend(t: Target, layout: string -> seq<Glyph>, img: seq<Pixel>, a: seq<Placed>, b: seq<Placed>)
    requires ValidTarget(t) && |img| == t.width * t.height && FontFits(t, layout)
    ensures PaintDrawn(t, layout, img, a + b) == PaintDrawn(t, layout, PaintDrawn(t, layout, img, a), b)
    decreases |a|
  {
    if a != [] {
      var p := a[0];
      assert (a + b)[0] == p && (a + b)[1..] == a[1..] + b;
      PaintDrawnAppend(t, layout, Painted(t, p.seg.color, img, p.x, layout(p.seg.text + " ")), a[1..], b);
    } else {
      assert a + b == b;
    }
  }

  /** An all-zero image of `n` pixels. */
  function Blank(n: nat): (img: seq<Pixel>)
    ensures |img| == n && forall i :: 0 <= i < n ==> img[i] == 0
  {
    seq(n, _ => 0)
  }

  /** The image one render pass leaves: the line drawn into a cleared buffer. */
  function Rendered(t: Target, layout: string -> seq<Glyph>, input: string, matches: seq<string>,
                    selected: Option<nat>, primary: Color, secondary: Color): (r: seq<Pixel>)
    requires ValidTarget(t) && FontFits(t, layout)
    ensures |r| == t.width * t.height
  {
    PaintDrawn(t, layout, Blank(t.width * t.height), Drawn(RasterAdvance(t, layout), t.width, input, matches, selected, primary, secondary))
  }

  lemma {:induction false} PaintDrawnClipped(t: Target, layout: string -> seq<Glyph>, img: seq<Pixel>, ps: seq<Placed>, x: nat, y: nat)
    requires ValidTarget(t) && |img| == t.width * t.height && FontFits(t, layout)
    requires ClipX(t) <= x < t.width && y < t.height
    ensures Index(t, x, y) < |img|
    ensures PaintDrawn(t, layout, img, ps)[Index(t, x, y)] == img[Index(t, x, y)]
    decreases |ps|
  {
    IndexInBounds(t.width, t.height, x, y);
    if ps != [] {
      var p := ps[0];
      var next := Painted(t, p.seg.color, img, p.x, layout(p.seg.text + " "));
      ClipBound(t, p.seg.color, img, p.x, layout(p.seg.text + " "), x, y);
      PaintDrawnClipped(t, layout, next, ps[1..], x, y);
    }
  }

  /** After a render pass every pixel at or right of column `width - 2 * margin` is still zero from the clear. */
  lemma RightOfClipStaysClear(t: Target, layout: string -> seq<Glyph>, input: string, matches: seq<string>,
                              selected: Option<nat>, primary: Color, secondary: Color, x: nat, y: nat)
    requires ValidTarget(t) && FontFits(t, layout)
    requires ClipX(t) <= x < t.width && y < t.height
    ensures Index(t, x, y) < t.width * t.height
    ensures Rendered(t, layout, input, matches, selected, primary, secondary)[Index(t, x, y)] == 0
  {
    PaintDrawnClipped(t, layout, Blank(t.width * t.height), Drawn(RasterAdvance(t, layout), t.width, input, matches, selected, primary, secondary), x, y);
  }
}
