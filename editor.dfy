/**
 * The launcher's event loop (run in src/main.rs): key presses edit the input
 * line, which is rendered after every handled key and on every expose; Enter
 * prints the input and ends, Escape and closing the window end without output.
 *
 * Events arrive as a finite sequence; key codes are already decoded.
 */
module Editor {
  import opened Options
  import opened Display

  /** The characters a key can produce; the model is restricted to ASCII. */
  type Ascii = c: char | c as int < 0x80 witness 'a'

  predicate IsUpper(c: char) {
    'A' <= c <= 'Z'
  }

  /** Lowercasing of an ASCII character: capital letters map to small ones, the rest stays. */
  function Lower(c: Ascii): (r: Ascii)
    ensures !IsUpper(r)
    ensures IsUpper(c) ==> r as int == c as int + 32
    ensures !IsUpper(c) ==> r == c
  {
    if IsUpper(c) then (c as int + 32) as char else c
  }

  /** A decoded key: the three keys the loop acts on, or another key with the character it produces, if any. */
  datatype Key = Escape | Enter | Backspace | Other(ch: Option<Ascii>)

  /**
   * What the loop waits for: a key press (with its key if the code decodes,
   * and whether Shift is held), the window manager asking to close the window,
   * an expose, or anything else.
   */
  datatype Event = KeyPress(key: Option<Key>, shift: bool) | CloseRequest | Expose | Ignored

  /** Where the loop is: still editing, ended printing a line, ended on Escape, or ended by a close request. */
  datatype Status = Editing | Printed(line: string) | Cancelled | Closed

  /** The loop's status and input, and the text of every render it did, in order. */
  datatype Trace = Trace(status: Status, input: string, frames: seq<string>)

  /** The input after an editing key: Backspace drops the last character, another key appends its character. */
  function Edit(input: string, key: Key, shift: bool): string
    requires key.Backspace? || key.Other?
  {
    if key.Backspace? then
      if |input| > 0 then input[..|input| - 1] else input
    else if key.ch.Some? then
      input + [if shift then key.ch.value else Lower(key.ch.value)]
    else input
  }

  /**
   * Backspace removes exactly the last character, and does nothing to an empty
   * input; a key with a character appends exactly that character, lowercased
   * unless Shift is held, keeping what was there; a key without one does nothing.
   */
  lemma EditEffect(input: string, key: Key, shift: bool)
    requires key.Backspace? || key.Other?
    ensures key.Backspace? && input == [] ==> Edit(input, key, shift) == []
    ensures key.Backspace? && input != [] ==> Edit(input, key, shift) + [input[|input| - 1]] == input
    ensures key.Other? && key.ch.None? ==> Edit(input, key, shift) == input
    ensures key.Other? && key.ch.Some? ==>
      |Edit(input, key, shift)| == |input| + 1 && Edit(input, key, shift)[..|input|] == input
      && Edit(input, key, shift)[|input|] == (if shift then key.ch.value else Lower(key.ch.value))
  {
    if key.Backspace? && input != [] {
      assert input[..|input| - 1] + [input[|input| - 1]] == input;
    }
  }

  /** Backspace right after typing a character restores the input. */
  lemma BackspaceUndoesTyping(input: string, c: Ascii, shift: bool, shift': bool)
    ensures Edit(Edit(input, Other(Some(c)), shift), Backspace, shift') == input
  {
    var typed := Edit(input, Other(Some(c)), shift);
    assert typed[..|typed| - 1] == input;
  }

  /** One event handled while editing. */
  function Step(input: string, e: Event): Trace {
    match e
    case KeyPress(None, _) => Trace(Editing, input, [])
    case KeyPress(Some(Escape), _) => Trace(Cancelled, input, [])
    case KeyPress(Some(Enter), _) => Trace(Printed(input), input, [])
    case KeyPress(Some(key), shift) =>
      var next := Edit(input, key, shift);
      Trace(Editing, next, [DisplayLine(next)])
    case CloseRequest => Trace(Closed, input, [])
    case Expose => Trace(Editing, input, [DisplayLine(input)])
    case Ignored => Trace(Editing, input, [])
  }

  /** The renders of `earlier` followed by a trace. */
  function After(earlier: seq<string>, t: Trace): Trace {
    Trace(t.status, t.input, earlier + t.frames)
  }

  /** The whole loop from `input`: events are handled in order until one ends it. */
  function Replay(input: string, events: seq<Event>): Trace
    decreases |events|
  {
    if events == [] then Trace(Editing, input, [])
    else
      var s := Step(input, events[0]);
      if s.status != Editing then s else After(s.frames, Replay(s.input, events[1..]))
  }

  /** Once the loop has ended, later events change nothing. */
  lemma {:induction false} EndedIgnoresLater(input: string, events: seq<Event>, later: seq<Event>)
    requires Replay(input, events).status != Editing
    ensures Replay(input, events + later) == Replay(input, events)
    decreases |events|
  {
    var s := Step(input, events[0]);
    assert (events + later)[0] == events[0] && (events + later)[1..] == events[1..] + later;
    if s.status == Editing {
      EndedIgnoresLater(s.input, events[1..], later);
    }
  }

  /** Events after a stretch that leaves the loop editing continue from the input it leaves behind. */
  lemma {:induction false} ReplayAppend(input: string, events: seq<Event>, later: seq<Event>)
    requires Replay(input, events).status == Editing
    ensures Replay(input, events + later) == After(Replay(input, events).frames, Replay(Replay(input, events).input, later))
    decreases |events|
  {
    if events == [] {
      assert events + later == later;
    } else {
      var s := Step(input, events[0]);
      var r1 := Replay(s.input, events[1..]);
      assert s.status == Editing && Replay(input, events) == After(s.frames, r1);
      assert (events + later)[0] == events[0] && (events + later)[1..] == events[1..] + later;
      assert Replay(input, events + later) == After(s.frames, Replay(s.input, events[1..] + later));
      ReplayAppend(s.input, events[1..], later);
      AfterAfter(s.frames, r1.frames, Replay(r1.input, later));
    }
  }

  /** While the loop is editing, the last render shows the current input. */
  lemma {:induction false} LastFrameShowsInput(input: string, events: seq<Event>)
    requires Replay(input, events).status == Editing && Replay(input, events).frames != []
    ensures Replay(input, events).frames[|Replay(input, events).frames| - 1] == DisplayLine(Replay(input, events).input)
    decreases |events|
  {
    var s := Step(input, events[0]);
    if Replay(s.input, events[1..]).frames != [] {
      LastFrameShowsInput(s.input, events[1..]);
    } else {
      NoRenderNoEdit(s.input, events[1..]);
      assert Replay(input, events).frames == s.frames + [];
    }
  }

  /** Key presses typing the characters of `w`, with Shift held or not. */
  function Typing(w: seq<Ascii>, shift: bool): (es: seq<Event>)
    ensures |es| == |w|
  {
    seq(|w|, k requires 0 <= k < |w| => KeyPress(Some(Other(Some(w[k]))), shift))
  }

  /** The characters `w` as typed: each one lowercased unless Shift is held. */
  function Typed(w: seq<Ascii>, shift: bool): (r: string)
    ensures |r| == |w|
    ensures forall k :: 0 <= k < |w| ==> r[k] == if shift then w[k] else Lower(w[k])
  {
    seq(|w|, k requires 0 <= k < |w| => if shift then w[k] else Lower(w[k]))
  }

  /** Typing a word appends it, lowercased unless Shift is held, and renders once per key, the last render showing the new input. */
  lemma {:induction false} TypingAppends(input: string, w: seq<Ascii>, shift: bool)
    ensures Replay(input, Typing(w, shift)).status == Editing
    ensures Replay(input, Typing(w, shift)).input == input + Typed(w, shift)
    ensures |Replay(input, Typing(w, shift)).frames| == |w|
    ensures w != [] ==> Replay(input, Typing(w, shift)).frames[|w| - 1] == DisplayLine(input + Typed(w, shift))
    decreases |w|
  {
    if w != [] {
      var n := |w| - 1;
      var front := Typing(w[..n], shift);
      assert Typing(w, shift) == front + [KeyPress(Some(Other(Some(w[n]))), shift)];
      TypingAppends(input, w[..n], shift);
      ReplayAppend(input, front, [KeyPress(Some(Other(Some(w[n]))), shift)]);
      var mid := input + Typed(w[..n], shift);
      assert mid + [if shift then w[n] else Lower(w[n])] == input + Typed(w, shift);
    }
  }

  /** Typing a word and pressing Enter prints exactly the typed word, whatever follows. */
  lemma TypeAndEnter(w: seq<Ascii>, shift: bool, later: seq<Event>)
    ensures Replay([], Typing(w, shift) + [KeyPress(Some(Enter), false)] + later).status == Printed(Typed(w, shift))
  {
    TypingAppends([], w, shift);
    var typing := Typing(w, shift);
    var enter := [KeyPress(Some(Enter), false)];
    ReplayAppend([], typing, enter);
    assert [] + Typed(w, shift) == Typed(w, shift);
    EndedIgnoresLater([], typing + enter, later);
  }

  /** The loop from position `i` on handles event `i` first. */
  lemma ReplayFirst(input: string, events: seq<Event>, i: nat)
    requires i < |events|
    ensures Replay(input, events[i..]) ==
      if Step(input, events[i]).status != Editing then Step(input, events[i])
      else After(Step(input, events[i]).frames, Replay(Step(input, events[i]).input, events[i + 1..]))
  {
    assert events[i..][0] == events[i] && events[i..][1..] == events[i + 1..];
  }

  lemma AfterAfter(a: seq<string>, b: seq<string>, t: Trace)
    ensures After(a, After(b, t)) == After(a + b, t)
  {
    assert a + (b + t.frames) == (a + b) + t.frames;
  }

  /** A stretch of events that renders nothing leaves the input as it was. */
  lemma {:induction false} NoRenderNoEdit(input: string, events: seq<Event>)
    requires Replay(input, events).frames == []
    ensures Replay(input, events).input == input
    decreases |events|
  {
    if events != [] {
      var s := Step(input, events[0]);
      if s.status == Editing {
        NoRenderNoEdit(s.input, events[1..]);
      }
    }
  }

  /**
   * One event handled while editing: a decoded key edits the input and
   * renders it, an expose renders it, Escape, Enter and a close request end
   * the loop, and anything else is ignored.
   */
  method HandleEvent(font: FontRender, input: string, e: Event, ghost earlier: seq<string>) returns (step: Trace)
    requires font.Valid()
    requires forall f :: f in Step(input, e).frames ==> font.Fits(f)
    requires earlier != [] ==> font.Showing(earlier[|earlier| - 1])
    modifies font.image
    ensures step == Step(input, e)
    ensures step.frames == [] ==> unchanged(font.image)
    ensures step.frames != [] ==> font.Showing(step.frames[|step.frames| - 1])
    ensures earlier + step.frames != [] ==> font.Showing((earlier + step.frames)[|earlier + step.frames| - 1])
  {
    match e {
      case CloseRequest =>
        step := Trace(Closed, input, []);
      case KeyPress(key, shift) =>
        if key.Some? {
          var next := input;
          match key.value {
            case Escape =>
              return Trace(Cancelled, input, []);
            case Enter =>
              return Trace(Printed(input), input, []);
            case Backspace =>
              if |next| > 0 {
                next := next[..|next| - 1];
              }
            case Other(ch) =>
              if ch.Some? {
                var c := ch.value;
                if !shift {
                  c := Lower(c);
                }
                next := next + [c];
              }
          }
          assert next == Step(input, e).input;
          var line := font.RenderText(next);
          step := Trace(Editing, next, [line]);
        } else {
          step := Trace(Editing, input, []);
        }
      case Expose =>
        var line := font.RenderText(input);
        step := Trace(Editing, input, [line]);
      case Ignored =>
        step := Trace(Editing, input, []);
    }
    if step.frames == [] {
      assert earlier + step.frames == earlier;
    }
  }

  /**
   * One turn of the loop from position `i`: if the step ends the loop, the
   * whole trace is the renders so far and that step; otherwise the loop goes
   * on from the step's input. Either way the step's renders are among the
   * loop's, so they fit when all of those do.
   */
  lemma LoopStep(font: FontRender, events: seq<Event>, i: nat, input: string, earlier: seq<string>)
    requires i < |events| && After(earlier, Replay(input, events[i..])) == Replay([], events)
    requires forall f :: f in Replay([], events).frames ==> font.Fits(f)
    ensures Step(input, events[i]).status != Editing ==> After(earlier, Step(input, events[i])) == Replay([], events)
    ensures Step(input, events[i]).status == Editing ==>
      After(earlier + Step(input, events[i]).frames, Replay(Step(input, events[i]).input, events[i + 1..])) == Replay([], events)
    ensures forall f :: f in Step(input, events[i]).frames ==> font.Fits(f)
  {
    var s := Step(input, events[i]);
    var rest := Replay(s.input, events[i + 1..]);
    ReplayFirst(input, events, i);
    if s.status == Editing {
      AfterAfter(earlier, s.frames, rest);
      assert Replay([], events).frames == earlier + (s.frames + rest.frames);
    } else {
      assert Replay([], events).frames == earlier + s.frames;
    }
  }

  /** When the events run out with the loop still editing, the trace is the renders so far, the last one showing the input. */
  lemma LoopDone(events: seq<Event>, input: string, frames: seq<string>)
    requires After(frames, Replay(input, events[|events|..])) == Replay([], events)
    ensures Trace(Editing, input, frames) == Replay([], events)
    ensures frames != [] ==> frames[|frames| - 1] == DisplayLine(input)
  {
    assert events[|events|..] == [];
    assert frames + [] == frames;
    if frames != [] {
      LastFrameShowsInput([], events);
    }
  }

  /**
   * The loop itself: handles the events in order on one renderer, editing the
   * input and rendering after every decoded key and on every expose, until an
   * event ends it. Returns how it ended, the input, and the text of each
   * render; the image shows the last render, or is untouched if there was none.
   */
  method EventLoop(font: FontRender, events: seq<Event>) returns (status: Status, input: string, frames: seq<string>)
    requires font.Valid()
    requires forall f :: f in Replay([], events).frames ==> font.Fits(f)
    modifies font.image
    ensures Trace(status, input, frames) == Replay([], events)
    ensures frames == [] ==> forall x, y :: 0 <= x < font.width && 0 <= y < font.height ==> font.image[x, y] == old(font.image[x, y])
    ensures frames != [] ==> font.Showing(frames[|frames| - 1])
    ensures status == Editing && frames != [] ==> font.Showing(DisplayLine(input))
  {
    input := "";
    frames := [];
    status := Editing;
    var i := 0;
    while i < |events|
      invariant i <= |events| && status == Editing
      invariant After(frames, Replay(input, events[i..])) == Replay([], events)
      invariant frames == [] ==> forall x, y :: 0 <= x < font.width && 0 <= y < font.height ==> font.image[x, y] == old(font.image[x, y])
      invariant frames != [] ==> font.Showing(frames[|frames| - 1])
    {
      LoopStep(font, events, i, input, frames);
      ghost var earlier := frames;
      var step := HandleEvent(font, input, events[i], frames);
      frames := frames + step.frames;
      input := step.input;
      status := step.status;
      if status != Editing {
        assert Trace(status, input, frames) == After(earlier, step);
        break;
      }
      i := i + 1;
    }
    if status == Editing {
      LoopDone(events, input, frames);
      if frames != [] {
        ghost var last := frames[|frames| - 1];
        assert font.Showing(last) && last == DisplayLine(input);
      }
    }
  }
}
