# dmitri: the launcher line, modelled in Dafny

dmitri is a small X11 launcher. It shows one line of text: what the user
typed, followed by matches. Keys edit the typed input. Enter prints the
input and exits; Escape and closing the window exit without printing it. This project models the
drawing and editing core of two source files and proves properties of it.

- **`src/text.rs`, `FontRenderer`.** How one render pass turns the input,
  the match list and the selected index into coloured segments. Each
  segment's glyphs are drawn into the image buffer. Pixels at or right of
  column `width - 2 * margin` are clipped. A segment stops after its first
  glyph with a clipped pixel. The loop over matches stops after the first
  match whose returned offset is past the width.
- **`src/main.rs`, `run`.** The key-event branch of the event loop, which
  edits the input.
- **`src/main.rs`, launcher display.** The zeroed image memory the launcher
  creates. Its `render_text`, which clears the image and draws the line
  `"> " + input + "_"`.

Files:

- `options.dfy` (`Options`): the optional selected index.
- `colors.dfy` (`Colors`): `color_from_u8` and the secondary colour.
- `glyphs.dfy` (`Glyphs`): what one `render_glyphs` call writes and returns, as functions on the buffer's contents. This covers 16-bit wrap-around, clipping, and the glyph after which drawing stops.
- `compositor.dfy` (`Compositor`): the segments of a line, where each is drawn, and where the match loop stops.
- `renderer.dfy` (`Renderer`): the class `FontRenderer`, whose methods update an image array. Each method is proved equal to the functions above.
- `display.dfy` (`Display`): the launcher's prompt line, `create_heap_memory`, and the class `FontRender` with its clear loop and glyph loop.
- `editor.dfy` (`Editor`): the key-event state machine as a function over event sequences, and the imperative event loop proved against it.

Inputs the model takes as given, instead of computing them:

- **Font layout.** The font library's layout of a text is an input function from strings to positioned glyphs. A glyph either has a pixel bounding box, with its covered pixels and coverages, or it has only a pen position.
- **Pixel encoding.** How a colour scaled by a coverage becomes a pixel is a function-valued field.
- **Events.** The events the launcher waits for arrive as a finite sequence with key codes already decoded.

Behaviour of the code worth noting:

- **Clipping within a glyph.** A clipped pixel does not stop the glyph it belongs to. The callback keeps drawing that glyph's other pixels left of the clip. Only the later glyphs of the same call are abandoned.
- **Clipping does not stop the line.** In particular, the match loop does not stop because of clipping. It stops only when the offset returned after a match exceeds `width`. The offsets after the input and after a separator are never compared.
- **Vertical bounds.** Only the horizontal direction is clipped. A pixel below the image is passed to `put_pixel`, which requires the row to be inside. The model states this as a precondition on the font (`FontFits`).
- **No navigation keys.** `run` in `src/main.rs` has no keys that move the selection. It handles only character keys, Backspace, Enter and Escape.

## Model

| member | source | states |
|---|---|---|
| Colors.Shl8U16 | src/text.rs:13-15 | a channel shifted left by 8 in `u16`, dropping the bits above 16 (a definition; ColorFromU8 states that no bits are lost) |
| Colors.AddU16 | src/text.rs:13-15 | a wrapping `u16` addition, as in `+ 0xFF` (a definition; ColorFromU8 states that it does not wrap) |
| Colors.ColorFromU8 | src/text.rs:11-17 | red is `r * 256 + 255`, green `g * 256`, blue `b * 256`; every channel fits in 16 bits, so neither the shift nor the addition loses bits |
| Colors.Secondary | src/text.rs:58 | every channel of the secondary colour is exactly half the primary one (twice it gives the primary back) |
| Colors.SecondaryDimmer | src/text.rs:11-58 | for a colour made by `color_from_u8` (lines 11-17) and its secondary colour (line 58), the secondary colour differs from the primary one and is nowhere brighter |
| Glyphs.U16 | src/text.rs:175-198 | the low 16 bits of an integer: an `as u16` cast or a wrapping 16-bit addition (a definition; Column, Row, Advance and NextOffset are built on it) |
| Glyphs.F32ToU16 | src/text.rs:198 | a float `as u16` lands in 16 bits and, in range, is the float truncated toward zero |
| Glyphs.Column | src/text.rs:175-179 | the image column of a covered pixel: margin, offset, the box's left edge and the pixel's column, each sum wrapping at 16 bits (a definition; PaintedLast and ClipBound state what lands there) |
| Glyphs.Row | src/text.rs:176-180 | the image row of a covered pixel: margin, the box's top edge and the pixel's row, each sum wrapping at 16 bits (a definition) |
| Glyphs.PaintPixels | src/text.rs:178-191 | the draw callback over a glyph's pixels keeps the buffer size; PaintPixelsLast and PaintedOnlyHits state what each pixel becomes |
| Glyphs.PaintPixelsLast | src/text.rs:178-191 | a pixel left of the clip column that the callback reports gets the colour encoded at the coverage of the last report for it |
| Glyphs.PaintGlyph | src/text.rs:173-191 | a glyph with a bounding box is drawn pixel by pixel, one without draws nothing; the buffer size is kept |
| Glyphs.PaintGlyphs | src/text.rs:172-200 | drawing a run of glyphs keeps the buffer size |
| Glyphs.PaintGlyphsLast | src/text.rs:172-200 | after a run of glyphs, a pixel left of the clip column shows the encoded coverage of the last report for it, whichever glyph made it |
| Glyphs.Clipped | src/text.rs:174-189 | the `outside` flag: some pixel of the glyph falls at or right of the clip column (a definition; FirstClipped and Renderer.FontRenderer.DrawGlyph state its role) |
| Glyphs.Hits | src/text.rs:179-187 | which pixels the callback writes: a reported pixel left of the clip column (a definition; PaintedOnlyHits and PaintedLast state its effect) |
| Glyphs.FirstClipped | src/text.rs:172-194 | the glyph loop's stopping point: no glyph before it has a pixel at or right of the clip column, and the glyph at it does |
| Glyphs.DrawnCount | src/text.rs:172-194 | how many glyphs one call draws: all of them up to and including the first clipped one (a definition; FirstClipped and LaterGlyphsIgnored state its properties) |
| Glyphs.Advance | src/text.rs:195-198 | the offset after a glyph drawn in full: its right edge, or its pen position cast `as u16` if it has no box, added with 16-bit wrap-around (a definition) |
| Glyphs.Painted | src/text.rs:171-200 | one call draws exactly the glyphs up to and including the first clipped one, and keeps the buffer size |
| Glyphs.NextOffset | src/text.rs:171-201 | the returned offset is the advance of the last glyph drawn in full, or the start offset if none was; it stays within 16 bits |
| Glyphs.NextOffsetMonotone | src/text.rs:171-201 | when no glyph's advance wraps around 16 bits, the returned offset is at least the start offset |
| Glyphs.LaterGlyphsIgnored | src/text.rs:192-194 | glyphs after the first clipped one change neither the image nor the returned offset |
| Glyphs.PaintedOnlyHits | src/text.rs:178-191 | a pixel that no drawn glyph covers left of the clip column keeps its value |
| Glyphs.ClipX | src/text.rs:177 | the clip column `width - margin * 2` (a definition; ClipBound and PaintedLast state what is written on either side of it) |
| Glyphs.ClipBound | src/text.rs:177-190 | no pixel at or right of column `width - 2 * margin` is ever written |
| Glyphs.PaintedLast | src/text.rs:171-200 | after one call, a pixel left of the clip column that a drawn glyph covers holds the colour encoded at the coverage of the last report for it |
| Compositor.MatchSegments | src/text.rs:126-137 | two segments per match, in list order: a separator at every even position and the match after it |
| Compositor.InputColor | src/text.rs:119-123 | the input's colour: primary iff no match is selected (a definition; SelectionColours states it) |
| Compositor.MatchColor | src/text.rs:128-136 | a match's colour: primary iff it is the selected one (a definition; SelectionColours states it) |
| Compositor.Segments | src/text.rs:115-137 | empty input gives the single placeholder `"_"` in the primary colour; otherwise the input in the primary colour iff nothing is selected, then a separator and each match |
| Compositor.SegmentsInterleave | src/text.rs:126-137 | after the input, position `2j+1` is a secondary-coloured space and position `2j+2` is match `j`, primary iff it is selected |
| Compositor.MatchSegmentColour | src/text.rs:127-136 | a segment after the input is primary iff it is a match and its index is the selected one |
| Compositor.SelectionColours | src/text.rs:119-136 | with distinct colours, the input is primary iff nothing is selected, match `j` is primary iff `j` is selected, and separators are secondary |
| Compositor.SinglePrimaryMatch | src/text.rs:126-137 | with distinct colours, at most one segment after the input is primary |
| Compositor.RasterAdvance | src/text.rs:161-202 | the offset after drawing a segment is NextOffset of the segment's text laid out with a trailing space (a definition) |
| Compositor.MatchPair | src/text.rs:127-137 | one step of the match loop: the separator at the current offset, then the match in its selection colour where the separator ended (a definition) |
| Compositor.DrawnMatches | src/text.rs:126-141 | the pairs the match loop draws from match `i` on, stopping after the first match that ends past the width (a definition; the DrawnMatches lemmas state its properties) |
| Compositor.Drawn | src/text.rs:115-141 | the placed segments of one render pass (a definition; DrawnIsPrefix and DrawnStopsPastWidth state its properties) |
| Compositor.DrawnMatchesLength | src/text.rs:126-141 | the match loop draws whole separator-and-match pairs, no more pairs than matches, and at least one pair if a match remains |
| Compositor.DrawnMatchesSegments | src/text.rs:126-137 | the drawn pairs are the untruncated line's separators and matches, in order |
| Compositor.DrawnMatchesOffsets | src/text.rs:126-140 | each drawn segment starts where the previous one ended, and every match before the last drawn one ends within the width |
| Compositor.DrawnMatchesCut | src/text.rs:137-140 | if fewer pairs are drawn than there are matches, the last drawn match ends past the width |
| Compositor.DrawnIsPrefix | src/text.rs:115-141 | what is drawn is a non-empty prefix of the untruncated line that ends after the input or after a match; with input and matches, the first match is always drawn |
| Compositor.DrawnStopsPastWidth | src/text.rs:115-141 | the line starts at offset 0, the offset is threaded through every segment, and the line is cut only right after a match that ends past the width |
| Compositor.PaintDrawn | src/text.rs:115-141 | drawing the placed segments in order keeps the buffer size |
| Compositor.PaintDrawnAppend | src/text.rs:126-141 | drawing two runs of segments one after the other is drawing their concatenation |
| Compositor.Blank | src/text.rs:110-113 | the cleared buffer: every pixel 0 |
| Compositor.Rendered | src/text.rs:109-142 | the image one render pass leaves: the drawn line over a cleared buffer, of the full image size |
| Compositor.PaintDrawnClipped | src/text.rs:177-190 | no drawn segment changes a pixel at or right of the clip column |
| Compositor.RightOfClipStaysClear | src/text.rs:109-142 | after a render pass every pixel at or right of column `width - 2 * margin` is still 0 from the clear |
| Renderer.FontRenderer.constructor | src/text.rs:44-77 | a renderer with a fresh zeroed image, the given colour, and the secondary colour derived from it |
| Renderer.FontRenderer.Clear | src/text.rs:109-113 | after the clear loop every element of the image is 0 |
| Renderer.FontRenderer.DrawGlyph | src/text.rs:173-191 | the callback writes exactly what PaintPixels describes, and `outside` is set iff some pixel fell at or right of the clip column |
| Renderer.FontRenderer.RenderGlyphs | src/text.rs:161-202 | the image after the call and the returned offset are Painted and NextOffset of the text's glyphs |
| Renderer.FontRenderer.RenderMatch | src/text.rs:127-137 | one step of the match loop draws the separator and then the match in its selection colour, and returns the offset after them |
| Renderer.FontRenderer.RenderText | src/text.rs:97-142 | the image after a render pass is exactly Rendered of the input, matches and selection |
| Display.DisplayLine | src/main.rs:294 | the text shown for an input (a definition; DisplayLineParts and DisplayLineRoundTrip state its shape) |
| Display.DisplayLineParts | src/main.rs:294 | the displayed line is `"> "`, then the input, then `"_"` |
| Display.DisplayLineRoundTrip | src/main.rs:294 | the input can be read back off the displayed line, and only a displayed line reads back as that input |
| Display.InputOfLine | src/main.rs:294 | the inverse of the line format, used for the round trip; it models no code of its own, and an input read back is three characters shorter than the line |
| Display.CreateHeapMemory | src/main.rs:191-195 | `(width * height) mod 2^32 * 4` bytes, every one 0 |
| Display.HeapMemoryFitsImage | src/main.rs:191-195 | for 16-bit window dimensions the product does not wrap: exactly four bytes per pixel |
| Display.GlyphWrites | src/main.rs:310-326 | a glyph with a bounding box writes each covered pixel offset by the box's corner, in order; one without writes nothing |
| Display.Writes | src/main.rs:309-327 | the pixel writes of the glyph loop, glyph after glyph (a definition) |
| Display.LastCoverage | src/main.rs:309-327 | the coverage of the last write to a pixel (a definition; LastCoverageNone and LastCoverageSome characterise it) |
| Display.Shown | src/main.rs:301-327 | what a render pass leaves at a pixel: the encoded last coverage, or the cleared 0 (a definition; BackgroundStaysClear states the second case) |
| Display.LastCoverageNone | src/main.rs:309-327 | a pixel has no last write exactly when no write reaches it |
| Display.LastCoverageSome | src/main.rs:309-327 | otherwise its value comes from a write that reaches it and is not followed by another write to it |
| Display.LastCoverageAppend | src/main.rs:309-327 | after two runs of writes a pixel shows the second run's write if it has one, else the first's |
| Display.BackgroundStaysClear | src/main.rs:301-327 | a pixel of the rendered line that no glyph covers stays 0 |
| Display.FontRender.constructor | src/main.rs:208-251 | a renderer for any font, with the given size, font layout and encoding, over image memory that is all zero |
| Display.FontRender.ClearImage | src/main.rs:301-306 | the nested clear loop sets every pixel with `x < width` and `y < height` to 0 |
| Display.FontRender.DrawGlyph | src/main.rs:312-325 | each covered pixel of the glyph shows its encoded coverage, by last write, and every other pixel is unchanged |
| Display.FontRender.DrawGlyphs | src/main.rs:309-327 | after the glyph loop each pixel shows the encoded coverage of the last write to it, and pixels no glyph covers are unchanged |
| Display.FontRender.RenderText | src/main.rs:284-327 | for a line whose glyphs land inside the image, lays out `"> " + input + "_"` and returns it as the record of the frame that `Trace` collects (`render_text` itself returns only a `Result`), and the image shows that line's glyphs over a cleared background |
| Editor.Lower | src/main.rs:161-163 | lowercasing maps each capital letter to its small letter, keeps every other character, and never yields a capital |
| Editor.Edit | src/main.rs:154-165 | the input after an editing key (a definition; EditEffect states its effect) |
| Editor.EditEffect | src/main.rs:154-165 | Backspace removes exactly the last character and leaves an empty input empty; a key with a character appends exactly that character, lowercased unless Shift is held, keeping the prefix; a key without one changes nothing |
| Editor.BackspaceUndoesTyping | src/main.rs:154-165 | Backspace right after typing a character gives back the input from before |
| Editor.Step | src/main.rs:129-185 | one event handled while editing: its status, input and renders (a definition; HandleEvent is proved against it) |
| Editor.Replay | src/main.rs:119-186 | the loop from an input over a sequence of events (a definition; the lemmas below and EventLoop are about it) |
| Editor.EndedIgnoresLater | src/main.rs:130-153 | once Escape, Enter or a close request has ended the loop, later events change nothing |
| Editor.ReplayAppend | src/main.rs:119-186 | the loop over two stretches of events is the second stretch run from the input the first one leaves, after the first one's renders |
| Editor.NoRenderNoEdit | src/main.rs:154-174 | the input changes only through a key that is followed by a render |
| Editor.LastFrameShowsInput | src/main.rs:168-174 | while the loop is still editing, the last render shows the current input |
| Editor.Typed | src/main.rs:159-165 | the characters of a word as typed: each lowercased unless Shift is held |
| Editor.TypingAppends | src/main.rs:159-168 | typing a word appends it as typed, renders once per key, and the last render shows the new input |
| Editor.TypeAndEnter | src/main.rs:150-153 | typing a word and then pressing Enter prints exactly the typed word, whatever follows |
| Editor.HandleEvent | src/main.rs:129-185 | handling one event gives exactly Step's status, input and renders; with no render the image is untouched, otherwise it shows the render |
| Editor.LoopStep | src/main.rs:119-186 | one turn of the loop: a step that ends the loop completes the trace, any other continues it from the step's input, and, since the step's renders are among the loop's, each of them fits in the image when all of the loop's renders do |
| Editor.LoopDone | src/main.rs:119-186 | when the events run out while editing, the trace is the renders so far, and the last of them shows the current input |
| Editor.EventLoop | src/main.rs:119-186 | the loop's exit status, final input, and the text of every render it does are exactly those Replay computes from the empty input; the image is untouched if nothing was rendered, otherwise it shows the last render, which while still editing is the current input's line |

## Left out

- **X11 plumbing.** Window creation, focus handling, waiting for events, and putting and copying the image to the server are I/O. The whole of `src/x11rb.rs` is I/O as well.
- **Font discovery, loading and layout.** These live in foreign libraries. A layout is an input function from a text to positioned glyphs.
- **Coverage to pixel value.** The floating-point product and cast `(color * v) as u16` or `as u8`, and the visual's pixel encoding, are one opaque function-valued field.
- **`check_visual`.** It inspects the server's visuals and may exit the process.
- **Key-code decoding.** This is a foreign library. Keys arrive decoded, with the character they produce if any.
- **Ranking and selection cycling.** Neither is in these files. The matches and the selected index are inputs of a render pass.
- **Non-ASCII input.** Only ASCII characters are modelled. That makes the byte slice on Backspace and Unicode lowercasing agree with dropping one character and ASCII lowercasing.
- **Byte layout of the image.** Both images are kept at one value per pixel. The byte order and stride of the image libraries are not modelled. The text.rs clear zeroes bytes and the model zeroes pixels; for the value 0 these agree.
- **Integer overflow.** 16-bit additions in `render_glyphs` and the 32-bit product `width * height` in `create_heap_memory` are modelled with wrap-around, which is the release-build behaviour; a debug build would panic instead.
- Glyphs.ValidTarget: the model requires `2 * margin <= width`. `src/text.rs:177` computes `width - margin * 2` in `u16` without a guard, so a larger margin wraps the clip column to a large value in a release build (nothing is clipped) and panics in a debug build. The model does not cover this case. In the release build, when `margin * 2` exceeds `width`, two things can happen. If `margin >= 2^15`, the product `margin * 2` wraps first. Otherwise the subtraction wraps. Either way the clip column can land past the image's right edge. A pixel at or past that edge then reaches `put_pixel`, whose bounds check fails in a release build as well.
- **Colour arithmetic.** Colour channels are exact reals where the source has `f32`. Halving a channel is exact in `f32` too, since every channel from `color_from_u8` is below 2^24.
- **Window size line.** `run` prints `Window is [W x H]` to standard output before its loop (`src/main.rs:106`). That line is output I/O and is not part of `Trace`; the printed line of `Printed` is only what Enter prints.
- **Fit of each render.** The display's glyph writes must land inside the image, so `EventLoop` requires it of each line it renders and `RenderText` of its line. Long inputs whose glyphs fall outside the image are not modelled.
- **Error paths of the constructors.** Image allocation, font loading and the X server can fail. Those failures are left out; the constructors model only the success path.
- Renderer.FontRenderer.RenderText: the model requires the font's glyphs to fit within the image's rows (`FontFits`), because `put_pixel` demands it. An out-of-range row, which would abort the program, is not modelled.
- Display.FontRender.DrawGlyphs: the model requires every glyph position to fall inside the image. `(x + min.x) as usize` on a negative sum and the image library's handling of positions outside the image are not modelled.
- Display.FontRender.constructor: width and height are taken as 16-bit, as the window geometry passed in is. The `as u16` truncation of larger values is not modelled.
- Editor.EventLoop: Escape also releases the key grab and unmaps the window. These are I/O, and the model records only that the loop ended. A failed event wait ends the process; it is not modelled, because events are a finite sequence. `run` also returns early with an error in other cases, all of which are I/O not modelled here. These are when `render_text` fails after a key or an expose (`src/main.rs:168`, `174`), when the Escape requests fail (`src/main.rs:142-147`), and when the focus request on FocusOut fails (`src/main.rs:178-182`).
