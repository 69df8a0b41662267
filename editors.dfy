/** The editor's cursor logic (src/editor.rs): moving the cursor over the
    document's rows, keeping it inside the viewport, turning keystrokes
    into document edits, the quit counter, and the line-input prompt. */
module Editors {
  import opened Common
  import opened Rows
  import opened Documents

  /** How many extra Ctrl-C presses a dirty document asks for. */
  const QUIT_TIMES: u8 := 3

  /** The key codes the editor distinguishes; every other code (Tab,
      function keys, Insert, ...) is `OtherKey`. */
  datatype KeyCode =
    | Char(c: char)
    | Enter | Backspace | Delete | Esc
    | Left | Right | Up | Down | Home | End | PageUp | PageDown
    | OtherKey

  /** A key press. `control` holds when the modifiers are exactly CONTROL,
      which is what the source's patterns compare against. */
  datatype KeyEvent = KeyEvent(code: KeyCode, control: bool)

  /** A terminal event: a key press, or anything else (resize, mouse,
      focus, paste). */
  datatype Event = Key(key: KeyEvent) | OtherEvent

  // ---------------------------------------------------------------------------
  // `process_move`
  // ---------------------------------------------------------------------------

  /** Where a cursor may rest: on an existing row, at most one past its last
      cluster; on an empty document only at the origin. */
  predicate CursorValid(p: Position, lines: seq<seq<Cluster>>)
  {
    if lines == [] then p == Position(0, 0) else p.y < |lines| && p.x <= |lines[p.y]|
  }

  /** The size of row `y`, or 0 when there is no such row. */
  function SizeOrZero(lines: seq<seq<Cluster>>, y: nat): nat
  {
    if y < |lines| then |lines[y]| else 0
  }

  /** The first half of `process_move`: the raw step a key takes, before
      clamping. */
  function Step(key: KeyCode, p: Position, lines: seq<seq<Cluster>>, height: u16): (r: Position)
    ensures key in {Up, Down, PageUp, PageDown} ==> r.x == p.x
    ensures key in {Home, End} ==> r.y == p.y
    ensures key in {Left, Right} ==> p.y <= r.y + 1 && r.y <= p.y + 1
    ensures key in {Up, PageUp, Home} ==> r.x <= p.x && r.y <= p.y
    ensures key in {Down, PageDown} && p.y <= USIZE_MAX ==> r.y >= p.y
    ensures key !in {Left, Right, Up, Down, Home, End, PageUp, PageDown} ==> r == p
  {
    match key
    case Left =>
      if p.x > 0 then Position(p.x - 1, p.y)
      else if p.y > 0 then Position(SizeOrZero(lines, p.y - 1), p.y - 1)
      else p
    case Right =>
      if p.y < |lines| then
        if p.x < |lines[p.y]| then Position(SatAdd(p.x, 1), p.y)
        else if p.y < SatSub(|lines|, 1) then Position(0, p.y + 1)
        else p
      else Position(0, p.y)
    case Up => Position(p.x, SatSub(p.y, 1))
    case Down => Position(p.x, SatAdd(p.y, 1))
    case Home => Position(0, p.y)
    case End => Position(SizeOrZero(lines, p.y), p.y)
    case PageDown => Position(p.x, SatAdd(p.y, SatSub(height, 1)))
    case PageUp => Position(p.x, SatSub(p.y, SatSub(height, 1)))
    case _ => p
  }

  /** The second half of `process_move`: x is clamped against the row at the
      stepped (not yet clamped) y, then y is clamped to the last row. */
  function Clamp(p: Position, lines: seq<seq<Cluster>>): (r: Position)
    ensures CursorValid(r, lines)
  {
    var x := if p.y < |lines| then Min(p.x, |lines[p.y]|) else 0;
    Position(x, Min(p.y, SatSub(|lines|, 1)))
  }

  /** `process_move`: where the cursor lands, always a valid position
      whatever position it started from. */
  function Moved(key: KeyCode, p: Position, lines: seq<seq<Cluster>>, height: u16): (r: Position)
    ensures CursorValid(r, lines)
    ensures r.y <= SatSub(|lines|, 1)
    ensures lines == [] ==> r == Position(0, 0)
  {
    Clamp(Step(key, p, lines, height), lines)
  }

  /** Left at the start of a row wraps to the end of the previous row, and
      Left at the origin stays put. */
  lemma {:induction false} MoveLeftWraps(p: Position, lines: seq<seq<Cluster>>, height: u16)
    requires CursorValid(p, lines) && p.x == 0
    ensures p.y > 0 ==> Moved(Left, p, lines, height) == Position(|lines[p.y - 1]|, p.y - 1)
    ensures p.y == 0 ==> Moved(Left, p, lines, height) == p
  {
  }

  /** Right at the end of a row that has a successor goes to the start of the
      next row; at the end of the last row it stays put; elsewhere it moves
      one cluster right. */
  lemma {:induction false} MoveRightWraps(p: Position, lines: seq<seq<Cluster>>, height: u16)
    requires CursorValid(p, lines) && lines != []
    ensures p.x == |lines[p.y]| && p.y + 1 < |lines| ==> Moved(Right, p, lines, height) == Position(0, p.y + 1)
    ensures p.x == |lines[p.y]| && p.y + 1 == |lines| ==> Moved(Right, p, lines, height) == p
    ensures p.x < |lines[p.y]| && p.x < USIZE_MAX ==> Moved(Right, p, lines, height) == Position(p.x + 1, p.y)
  {
  }

  /** Down or PageDown that overshoots the last row lands on the last row at
      column 0, because x is clamped against the row that does not exist. */
  lemma {:induction false} MoveDownOvershootResetsColumn(key: KeyCode, p: Position, lines: seq<seq<Cluster>>, height: u16)
    requires key == Down || key == PageDown
    requires lines != [] && Step(key, p, lines, height).y >= |lines|
    ensures Moved(key, p, lines, height) == Position(0, |lines| - 1)
  {
  }

  /** Up and PageUp never go above row 0, keep the column where the target
      row is long enough, and otherwise stop at its end. */
  lemma {:induction false} MoveUpSaturates(key: KeyCode, p: Position, lines: seq<seq<Cluster>>, height: u16)
    requires key == Up || key == PageUp
    requires CursorValid(p, lines) && lines != []
    ensures var r := Moved(key, p, lines, height);
      && r.y == SatSub(p.y, if key == Up then 1 else SatSub(height, 1))
      && r.x == Min(p.x, |lines[r.y]|)
  {
  }

  // ---------------------------------------------------------------------------
  // `scroll`
  // ---------------------------------------------------------------------------

  /** One axis of `scroll`: an offset that the cursor has reached or passed
      at the trailing edge is pulled forward, one the cursor is before is
      pulled back to it, otherwise it stays. */
  function ScrollAxis(pos: nat, off: nat, extent: u16): (r: nat)
    ensures off <= pos < SatAdd(off, extent) ==> r == off
    ensures extent >= 1 ==> r <= pos
    ensures extent >= 1 && pos <= USIZE_MAX ==> r <= pos < r + extent
  {
    if pos >= SatAdd(off, extent) then SatAdd(SatSub(pos, extent), 1)
    else if pos < off then pos
    else off
  }

  /** `scroll`: the new viewport offset; the text area is `width` columns by
      `height - 2` rows (the last two lines hold the status and message
      bars). */
  function Scrolled(cursor: Position, offset: Position, width: u16, height: u16): (r: Position)
    ensures (offset.x <= cursor.x < SatAdd(offset.x, width)
      && offset.y <= cursor.y < SatAdd(offset.y, SatSub(height, 2))) ==> r == offset
    ensures width >= 1 && SatSub(height, 2) >= 1 && cursor.x <= USIZE_MAX && cursor.y <= USIZE_MAX ==>
      && r.x <= cursor.x < r.x + width
      && r.y <= cursor.y < r.y + SatSub(height, 2)
  {
    Position(ScrollAxis(cursor.x, offset.x, width), ScrollAxis(cursor.y, offset.y, SatSub(height, 2)))
  }

  /** Scrolling moves the offset as little as possible: it is the old offset
      clamped into the range of offsets that show the cursor. */
  lemma {:induction false} ScrollIsNearestVisible(pos: nat, off: nat, extent: u16)
    requires extent >= 1 && pos < USIZE_MAX
    ensures ScrollAxis(pos, off, extent) == Max(Min(off, pos), pos - extent + 1)
  {
  }

  /** Scrolling twice is scrolling once. */
  lemma {:induction false} ScrollIdempotent(pos: nat, off: nat, extent: u16)
    requires extent >= 1 && pos <= USIZE_MAX && off <= USIZE_MAX
    ensures ScrollAxis(pos, ScrollAxis(pos, off, extent), extent) == ScrollAxis(pos, off, extent)
  {
  }

  // ---------------------------------------------------------------------------
  // `process_keyboard`: from key to command, and what each command does to
  // the document's rows and the cursor.
  // ---------------------------------------------------------------------------

  datatype Command =
    | NewLine | Quit | Save | Search | GoToEnd | GoToStart
    | Type(c: char) | DeleteBack | DeleteForward | Move(key: KeyCode) | NoOp

  /** The arm of `process_keyboard` a key press takes, in the order the arms
      are tried. A `Char` with any other modifiers is typed. */
  function CommandOf(e: KeyEvent): (r: Command)
    ensures e.code == Enter ==> r == NewLine
    ensures r == Quit <==> e.control && e.code == Char('c')
    ensures r == Save <==> e.control && e.code == Char('s')
    ensures r == Search <==> e.control && e.code == Char('f')
    ensures !e.control && e.code.Char? ==> r == Type(e.code.c)
    ensures r.Type? ==> e.code == Char(r.c)
    ensures r.Move? ==> r.key == e.code && !(e.control && e.code in {Home, End})
    ensures e.code in {Esc, OtherKey} ==> r == NoOp
  {
    if (e.control && e.code == Char('j')) || e.code == Enter then NewLine
    else if e.control && e.code == Char('c') then Quit
    else if e.control && e.code == Char('s') then Save
    else if e.control && e.code == Char('f') then Search
    else if e.control && e.code == End then GoToEnd
    else if e.control && e.code == Home then GoToStart
    else
      match e.code
      case Char(c) => Type(c)
      case Backspace => DeleteBack
      case Delete => DeleteForward
      case Up => Move(Up)
      case Down => Move(Down)
      case Left => Move(Left)
      case Right => Move(Right)
      case Home => Move(Home)
      case End => Move(End)
      case PageDown => Move(PageDown)
      case PageUp => Move(PageUp)
      case _ => NoOp
  }

  /** The document's rows together with the cursor. */
  datatype Screen = Screen(lines: seq<seq<Cluster>>, cursor: Position)

  /** What a command does to the rows and the cursor. Saving changes
      neither. Searching is not part of this model; it is given the value
      of a command that changes nothing, and the editor's contracts say
      nothing about it. */
  function Edited(cmd: Command, s: Screen, height: u16): (r: Screen)
    ensures cmd in {Quit, Save, Search, NoOp} ==> r == s
    ensures cmd.Move? || cmd.GoToEnd? || cmd.GoToStart? ==> r.lines == s.lines
    ensures cmd.DeleteBack? || cmd.DeleteForward? ==> |r.lines| <= |s.lines|
    ensures cmd.DeleteForward? ==> r.cursor == s.cursor
    ensures cmd.DeleteBack? && s.cursor == Position(0, 0) ==> r == s
  {
    match cmd
    case NewLine =>
      var lines := Inserted(s.lines, s.cursor, '\n');
      Screen(lines, Moved(Right, s.cursor, lines, height))
    case Type(c) =>
      var lines := Inserted(s.lines, s.cursor, c);
      Screen(lines, Moved(Right, s.cursor, lines, height))
    case DeleteBack =>
      if s.cursor == Position(0, 0) then s
      else
        var p := Moved(Left, s.cursor, s.lines, height);
        Screen(Deleted(s.lines, p), p)
    case DeleteForward => Screen(Deleted(s.lines, s.cursor), s.cursor)
    case Move(key) => Screen(s.lines, Moved(key, s.cursor, s.lines, height))
    case GoToEnd =>
      var last := SatSub(|s.lines|, 1);
      if last < |s.lines| then Screen(s.lines, Position(|s.lines[last]|, last)) else s
    case GoToStart => Screen(s.lines, Position(0, 0))
    case _ => s
  }

  /** Typing is an insert at the cursor followed by a move Right over the
      edited rows: the `Type` arm of `Edited` unfolded once, kept as a lemma
      so that the editor's proofs stay cheap. */
  lemma {:induction false} TypedIsInsertThenRight(c: char, s: Screen, height: u16)
    ensures var lines := Inserted(s.lines, s.cursor, c);
      Edited(Type(c), s, height) == Screen(lines, Moved(Right, s.cursor, lines, height))
  {
  }

  /** Every command leaves a valid cursor valid. */
  lemma {:induction false} EditedKeepsCursorValid(cmd: Command, s: Screen, height: u16)
    requires CursorValid(s.cursor, s.lines)
    ensures CursorValid(Edited(cmd, s, height).cursor, Edited(cmd, s, height).lines)
  {
    match cmd
    case DeleteBack =>
      if s.cursor != Position(0, 0) {
        DeletePreservesCursorValid(s.lines, Moved(Left, s.cursor, s.lines, height));
      }
    case DeleteForward =>
      DeletePreservesCursorValid(s.lines, s.cursor);
    case _ =>
  }

  /** Deleting at a valid cursor leaves the cursor valid. */
  lemma {:induction false} DeletePreservesCursorValid(lines: seq<seq<Cluster>>, p: Position)
    requires CursorValid(p, lines)
    ensures CursorValid(p, Deleted(lines, p))
  {
  }

  /** Typing a character and then pressing Backspace gives back the rows and
      the cursor, anywhere in a non-empty document. */
  lemma {:induction false} TypeThenBackspaceRestores(s: Screen, c: char, height: u16)
    requires CursorValid(s.cursor, s.lines) && s.lines != [] && c != '\n'
    requires s.cursor.x < USIZE_MAX
    ensures Edited(DeleteBack, Edited(Type(c), s, height), height) == s
  {
    var p := s.cursor;
    var typed := Edited(Type(c), s, height);
    var t := s.lines[p.y];
    assert typed.lines[p.y] == InsertAt(t, p.x, Utf8(c));
    assert typed.cursor == Position(p.x + 1, p.y);
    var back := Edited(DeleteBack, typed, height);
    assert back.cursor == p;
    assert RemoveAt(InsertAt(t, p.x, Utf8(c)), p.x) == t by {
      InsertThenRemoveRestores(t, p.x, Utf8(c));
    }
    assert back.lines == s.lines;
  }

  /** Pressing Enter and then Backspace gives back the rows and the cursor,
      on any document, the empty one included. */
  lemma {:induction false} EnterThenBackspaceRestores(s: Screen, height: u16)
    requires CursorValid(s.cursor, s.lines)
    ensures Edited(DeleteBack, Edited(NewLine, s, height), height) == s
  {
    if s.lines == [] {
      return;
    }
    var p := s.cursor;
    var split := Edited(NewLine, s, height);
    assert split.lines[p.y] == s.lines[p.y][..p.x];
    assert split.cursor == Position(0, p.y + 1);
    assert Moved(Left, split.cursor, split.lines, height) == p;
    SplitThenDeleteRestores(s.lines, p);
  }

  /** Backspace at the start of a row (not the first) joins the row onto the
      previous one and leaves the cursor at the seam. */
  lemma {:induction false} BackspaceAtLineStartJoins(s: Screen, height: u16)
    requires CursorValid(s.cursor, s.lines) && s.cursor.x == 0 && s.cursor.y > 0
    ensures var y := s.cursor.y;
      Edited(DeleteBack, s, height)
        == Screen(s.lines[..y - 1] + [s.lines[y - 1] + s.lines[y]] + s.lines[y + 1..],
                  Position(|s.lines[y - 1]|, y - 1))
  {
  }

  // ---------------------------------------------------------------------------
  // The quit counter.
  // ---------------------------------------------------------------------------

  datatype QuitState = QuitState(quitTimes: u8, shouldQuit: bool)

  /** The quit counter after one key press: Ctrl-C on a dirty document with
      presses left uses one up and returns at once; otherwise Ctrl-C quits,
      and the counter is topped back up. */
  function AfterKey(s: QuitState, ctrlC: bool, dirty: bool): (r: QuitState)
    ensures r.shouldQuit <==> s.shouldQuit || (ctrlC && !(s.quitTimes > 0 && dirty))
    ensures r.quitTimes < s.quitTimes <==> ctrlC && s.quitTimes > 0 && dirty
    ensures r.quitTimes < s.quitTimes ==> r.quitTimes + 1 == s.quitTimes
  {
    if ctrlC && s.quitTimes > 0 && dirty then QuitState(s.quitTimes - 1, s.shouldQuit)
    else QuitState(if s.quitTimes < QUIT_TIMES then QUIT_TIMES else s.quitTimes, s.shouldQuit || ctrlC)
  }

  /** The counter after `k` Ctrl-C presses in a row. */
  function CtrlCPresses(s: QuitState, k: nat, dirty: bool): QuitState
    decreases k
  {
    if k == 0 then s else CtrlCPresses(AfterKey(s, true, dirty), k - 1, dirty)
  }

  /** With `q` presses left on a dirty document, `k` presses quit exactly
      when `k > q`. */
  lemma {:induction false} PressesNeeded(q: u8, k: nat)
    ensures CtrlCPresses(QuitState(q, false), k, true).shouldQuit <==> k > q
  {
    if k > 0 {
      if q > 0 {
        PressesNeeded(q - 1, k - 1);
      } else {
        AlreadyQuit(AfterKey(QuitState(q, false), true, true), k - 1);
      }
    }
  }

  /** Once set, `should_quit` stays set under further Ctrl-C presses. */
  lemma {:induction false} AlreadyQuit(s: QuitState, k: nat)
    requires s.shouldQuit
    ensures CtrlCPresses(s, k, true).shouldQuit
    decreases k
  {
    if k > 0 {
      AlreadyQuit(AfterKey(s, true, true), k - 1);
    }
  }

  /** A fresh editor on a dirty document quits on the fourth Ctrl-C and not
      before; on a clean document the first Ctrl-C quits. */
  lemma {:induction false} QuitNeedsFourPressesWhenDirty(k: nat)
    ensures CtrlCPresses(QuitState(QUIT_TIMES, false), k, true).shouldQuit <==> k >= 4
    ensures AfterKey(QuitState(QUIT_TIMES, false), true, false).shouldQuit
  {
    PressesNeeded(QUIT_TIMES, k);
  }

  /** Any key other than Ctrl-C tops the counter back up and never quits. */
  lemma {:induction false} OtherKeyResetsCounter(s: QuitState, dirty: bool)
    requires s.quitTimes <= QUIT_TIMES
    ensures AfterKey(s, false, dirty) == QuitState(QUIT_TIMES, s.shouldQuit)
  {
  }

  // ---------------------------------------------------------------------------
  // `prompt`: the line being typed and whether the prompt is still open.
  // ---------------------------------------------------------------------------

  datatype PromptState = PromptState(text: seq<char>, running: bool)

  /** One pass of the prompt loop over what `read_event` returned (None when
      the poll timed out). */
  function PromptStep(s: PromptState, e: Option<Event>): (r: PromptState)
    ensures r.running ==> s.running
    ensures s.running && !r.running ==>
      e.Some? && e.value.Key? && (e.value.key.code in {Enter, Esc} || (e.value.key.control && e.value.key.code == Char('j')))
    ensures || r.text == s.text
            || r.text == []
            || (|r.text| == |s.text| + 1 && r.text[..|s.text|] == s.text)
            || (s.text != [] && r.text == s.text[..|s.text| - 1])
  {
    match e
    case Some(Key(k)) =>
      if (k.control && k.code == Char('j')) || k.code == Enter then PromptState(s.text, false)
      else
        (match k.code
         case Char(c) => PromptState(s.text + [c], s.running)
         case Backspace => PromptState(if s.text == [] then [] else s.text[..|s.text| - 1], s.running)
         case Esc => PromptState([], false)
         case _ => s)
    case _ => s
  }

  /** The prompt loop over a stream of polls: the state it ends in and how
      many polls it used. It stops at the first poll that closes it. */
  function RunPrompt(s: PromptState, input: seq<Option<Event>>): (r: (PromptState, nat))
    ensures r.1 <= |input|
    ensures r.0.running ==> s.running && r.1 == |input|
    ensures !s.running ==> r == (s, 0)
    decreases |input|
  {
    if !s.running || input == [] then (s, 0)
    else
      var rest := RunPrompt(PromptStep(s, input[0]), input[1..]);
      (rest.0, rest.1 + 1)
  }

  /** One poll of an open prompt, then the rest of the run: the recursive
      case of `RunPrompt` unfolded once, kept as a lemma so that the proofs
      about longer runs stay cheap. */
  lemma {:induction false} RunPromptStep(s: PromptState, input: seq<Option<Event>>)
    requires s.running && input != []
    ensures RunPrompt(s, input)
      == (RunPrompt(PromptStep(s, input[0]), input[1..]).0, RunPrompt(PromptStep(s, input[0]), input[1..]).1 + 1)
  {
  }

  /** What `prompt` returns for the final text: nothing when it is empty. */
  function Answer(text: seq<char>): (r: Option<seq<char>>)
    ensures r.None? <==> text == []
    ensures r.Some? ==> r.value == text
  {
    if text == [] then None else Some(text)
  }

  /** The key presses that type `s`. */
  function Typing(s: seq<char>): seq<Option<Event>>
  {
    seq(|s|, i requires 0 <= i < |s| => Some(Key(KeyEvent(Char(s[i]), false))))
  }

  /** Typing characters into an open prompt appends them and keeps it open. */
  lemma {:induction false} TypingAppends(t: seq<char>, s: seq<char>)
    ensures RunPrompt(PromptState(t, true), Typing(s)) == (PromptState(t + s, true), |s|)
    decreases |s|
  {
    if s != [] {
      var e := Some(Key(KeyEvent(Char(s[0]), false)));
      assert Typing(s)[0] == e && Typing(s)[1..] == Typing(s[1..]);
      assert PromptStep(PromptState(t, true), e) == PromptState(t + [s[0]], true);
      RunPromptStep(PromptState(t, true), Typing(s));
      TypingAppends(t + [s[0]], s[1..]);
      assert t + [s[0]] + s[1..] == t + s;
    } else {
      assert t + s == t;
    }
  }

  /** Typing a line and pressing Enter (with any modifiers) or Ctrl-J answers
      that line, or nothing when the line is empty. */
  lemma {:induction false} TypeThenEnterAnswers(s: seq<char>, k: KeyEvent)
    requires k.code == Enter || (k.control && k.code == Char('j'))
    ensures var r := RunPrompt(PromptState([], true), Typing(s) + [Some(Key(k))]);
      && r == (PromptState(s, false), |s| + 1)
      && Answer(r.0.text) == (if s == [] then None else Some(s))
  {
    var enter := [Some(Key(k))];
    PromptRunsAppend(PromptState([], true), Typing(s), enter);
    TypingAppends([], s);
    assert [] + s == s;
  }

  /** Running the prompt over two streams in turn is running it over their
      concatenation. */
  lemma {:induction false} PromptRunsAppend(s: PromptState, a: seq<Option<Event>>, b: seq<Option<Event>>)
    ensures var first := RunPrompt(s, a);
      first.0.running ==>
        RunPrompt(s, a + b) == (RunPrompt(first.0, b).0, |a| + RunPrompt(first.0, b).1)
    decreases |a|
  {
    if s.running {
      if a == [] {
        assert a + b == b;
      } else {
        assert (a + b)[0] == a[0];
        assert (a + b)[1..] == a[1..] + b;
        PromptRunsAppend(PromptStep(s, a[0]), a[1..], b);
      }
    }
  }

  /** Esc closes the prompt with nothing, whatever was typed. */
  lemma {:induction false} EscCancels(t: seq<char>, control: bool, rest: seq<Option<Event>>)
    ensures var r := RunPrompt(PromptState(t, true), [Some(Key(KeyEvent(Esc, control)))] + rest);
      r == (PromptState([], false), 1) && Answer(r.0.text).None?
  {
    assert ([Some(Key(KeyEvent(Esc, control)))] + rest)[1..] == rest;
  }

  /** Backspace removes the last character typed, and does nothing to an
      empty line. */
  lemma {:induction false} BackspacePops(t: seq<char>, c: char, control: bool)
    ensures PromptStep(PromptState(t + [c], true), Some(Key(KeyEvent(Backspace, control))))
      == PromptState(t, true)
    ensures PromptStep(PromptState([], true), Some(Key(KeyEvent(Backspace, control))))
      == PromptState([], true)
  {
    assert (t + [c])[..|t + [c]| - 1] == t;
  }

  // ---------------------------------------------------------------------------
  // The editor object.
  // ---------------------------------------------------------------------------

  class Editor {
    var shouldQuit: bool
    /** The terminal's size, in columns and rows. */
    var width: u16
    var height: u16
    var cursor: Position
    var offset: Position
    const document: Document
    var quitTimes: u8

    /** The document is well formed, the cursor rests on it, and the quit
        counter never exceeds its start value. */
    ghost predicate Valid()
      reads this, document, document.rows
    {
      && document.Valid()
      && CursorValid(cursor, document.Lines())
      && quitTimes <= QUIT_TIMES
    }

    /** `Editor::default`, given the document it opened (or an empty one)
        and the terminal's size. */
    constructor Default(doc: Document, width: u16, height: u16)
      requires doc.Valid()
      ensures Valid()
      ensures document == doc && this.width == width && this.height == height
      ensures cursor == Position(0, 0) && offset == Position(0, 0)
      ensures quitTimes == QUIT_TIMES && !shouldQuit
    {
      shouldQuit := false;
      this.width := width;
      this.height := height;
      cursor := Position(0, 0);
      offset := Position(0, 0);
      document := doc;
      quitTimes := QUIT_TIMES;
    }

    /** `scroll`. */
    method Scroll()
      modifies this`offset
      ensures offset == Scrolled(cursor, old(offset), width, height)
    {
      var x, y := cursor.x, cursor.y;
      var offsetX, offsetY := offset.x, offset.y;
      var terminalWidth := width;
      var terminalHeight: u16 := SatSub(height, 2);
      var maxX := SatAdd(offsetX, terminalWidth);
      var maxY := SatAdd(offsetY, terminalHeight);
      if x >= maxX {
        offsetX := SatAdd(SatSub(x, terminalWidth), 1);
      } else if x < offsetX {
        offsetX := x;
      }
      if y >= maxY {
        offsetY := SatAdd(SatSub(y, terminalHeight), 1);
      } else if y < offsetY {
        offsetY := y;
      }
      offset := Position(offsetX, offsetY);
    }

    /** `process_move`: step, then clamp onto the document. */
    method ProcessMove(key: KeyCode)
      modifies this`cursor
      ensures cursor == Moved(key, old(cursor), document.Lines(), height)
    {
      var x, y := StepCursor(key);
      var row := document.RowAt(y);
      if row.Some? {
        x := Min(x, row.value.Size());
      } else {
        x := 0;
      }
      y := Min(y, SatSub(document.RowsSize(), 1));
      cursor := Position(x, y);
    }

    /** The `match` at the head of `process_move`: where the key takes the
        cursor before it is clamped. */
    method StepCursor(key: KeyCode) returns (x: nat, y: nat)
      ensures Position(x, y) == Step(key, cursor, document.Lines(), height)
    {
      x, y := cursor.x, cursor.y;
      var terminalHeight := height;
      match key {
        case Left =>
          if x > 0 {
            x := x - 1;
          } else if y > 0 {
            y := y - 1;
            var row := document.RowAt(y);
            if row.Some? {
              x := row.value.Size();
            } else {
              x := 0;
            }
          }
        case Right =>
          var row := document.RowAt(y);
          if row.Some? {
            if x < row.value.Size() {
              x := SatAdd(x, 1);
            } else if y < SatSub(document.RowsSize(), 1) {
              y := y + 1;
              x := 0;
            }
          } else {
            x := 0;
          }
        case Up => y := SatSub(y, 1);
        case Down => y := SatAdd(y, 1);
        case Home => x := 0;
        case End =>
          var row := document.RowAt(y);
          if row.Some? {
            x := row.value.Size();
          } else {
            x := 0;
          }
        case PageDown => y := SatAdd(y, SatSub(terminalHeight, 1));
        case PageUp => y := SatSub(y, SatSub(terminalHeight, 1));
        case _ =>
      }
    }

    /** `process_keyboard`: the key is decoded into the arm it takes, and
        that arm is run. */
    method ProcessKeyboard(event: KeyEvent)
      requires Valid()
      modifies this, document, document.rows
      ensures Valid()
      ensures CommandOf(event) != Search ==>
        Screen(document.Lines(), cursor)
          == Edited(CommandOf(event), Screen(old(document.Lines()), old(cursor)), height)
      ensures QuitState(quitTimes, shouldQuit)
        == AfterKey(old(QuitState(quitTimes, shouldQuit)), CommandOf(event) == Quit, old(document.dirty))
      ensures CommandOf(event) != Save ==>
        && document.dirty == (old(document.dirty)
          || ((CommandOf(event).NewLine? || CommandOf(event).Type?) && old(cursor.y) <= old(|document.rows|)))
        && document.path == old(document.path)
      ensures width == old(width) && height == old(height)
      ensures CommandOf(event) != Search ==>
        offset == if CommandOf(event) == Quit && old(quitTimes) > 0 && old(document.dirty)
          then old(offset) else Scrolled(cursor, old(offset), width, height)
    {
      ProcessCommand(CommandOf(event));
    }

    /** The body of `process_keyboard` once the arm is known: the arm's edit
        and cursor move, then the quit counter reset and a scroll, except
        after a Ctrl-C that only used up one of its presses, which returns
        before both. */
    method ProcessCommand(cmd: Command)
      requires Valid()
      modifies this, document, document.rows
      ensures Valid()
      ensures cmd != Search ==>
        Screen(document.Lines(), cursor) == Edited(cmd, Screen(old(document.Lines()), old(cursor)), height)
      ensures QuitState(quitTimes, shouldQuit)
        == AfterKey(old(QuitState(quitTimes, shouldQuit)), cmd == Quit, old(document.dirty))
      ensures cmd != Save ==>
        && document.dirty == (old(document.dirty)
          || ((cmd.NewLine? || cmd.Type?) && old(cursor.y) <= old(|document.rows|)))
        && document.path == old(document.path)
      ensures width == old(width) && height == old(height)
      ensures cmd != Search ==>
        offset == if cmd == Quit && old(quitTimes) > 0 && old(document.dirty)
          then old(offset) else Scrolled(cursor, old(offset), width, height)
    {
      if cmd == Quit {
        QuitKey();
      } else {
        EditKey(cmd);
      }
    }

    /** The Ctrl-C arm of `process_keyboard` with what follows it: the reset
        and scroll happen only when the press did not merely use up one of
        the remaining warnings. */
    method QuitKey()
      requires Valid()
      modifies this`quitTimes, this`shouldQuit, this`offset
      ensures Valid()
      ensures QuitState(quitTimes, shouldQuit) == AfterKey(old(QuitState(quitTimes, shouldQuit)), true, document.dirty)
      ensures offset == if old(quitTimes) > 0 && document.dirty
        then old(offset) else Scrolled(cursor, old(offset), width, height)
    {
      var warned := CtrlC();
      if !warned {
        Settle();
      }
    }

    /** Every other arm of `process_keyboard`, then the reset and scroll. */
    method EditKey(cmd: Command)
      requires Valid() && cmd != Quit
      modifies this`cursor, this`quitTimes, this`offset, document, document.rows
      ensures Valid()
      ensures cmd != Search ==>
        Screen(document.Lines(), cursor) == Edited(cmd, Screen(old(document.Lines()), old(cursor)), height)
      ensures cmd != Save ==>
        && document.dirty == (old(document.dirty)
          || ((cmd.NewLine? || cmd.Type?) && old(cursor.y) <= old(|document.rows|)))
        && document.path == old(document.path)
      ensures quitTimes == QUIT_TIMES
      ensures cmd != Search ==> offset == Scrolled(cursor, old(offset), width, height)
    {
      Apply(cmd);
      Settle();
    }

    /** The Ctrl-C arm: on a dirty document with presses left, one press is
        used up and `process_keyboard` returns at once (`warned`); otherwise
        the editor is told to quit. */
    method CtrlC() returns (warned: bool)
      requires Valid()
      modifies this`quitTimes, this`shouldQuit
      ensures Valid()
      ensures warned == (old(quitTimes) > 0 && document.dirty)
      ensures QuitState(quitTimes, shouldQuit)
        == if warned then QuitState(old(quitTimes) - 1, old(shouldQuit)) else QuitState(old(quitTimes), true)
    {
      if quitTimes > 0 && document.IsDirty() {
        quitTimes := quitTimes - 1;
        return true;
      }
      shouldQuit := true;
      return false;
    }

    /** The tail of `process_keyboard`: the quit counter is topped back up
        and the viewport follows the cursor. */
    method Settle()
      requires Valid()
      modifies this`quitTimes, this`offset
      ensures Valid()
      ensures quitTimes == QUIT_TIMES
      ensures offset == Scrolled(cursor, old(offset), width, height)
    {
      if quitTimes < QUIT_TIMES {
        quitTimes := QUIT_TIMES;
      }
      Scroll();
    }

    /** What the arms of `process_keyboard` do to the document and the
        cursor (the Ctrl-C arm touches neither). Ctrl-S (`save`) and Ctrl-F
        (`search`) are not part of this model: here they do nothing, and the
        contract is silent on what `save` does to `dirty` and `path` and
        what `search` does to the cursor. */
    method Apply(cmd: Command)
      requires Valid()
      modifies this`cursor, document, document.rows
      ensures Valid()
      ensures cmd != Search ==>
        Screen(document.Lines(), cursor) == Edited(cmd, Screen(old(document.Lines()), old(cursor)), height)
      ensures cmd != Save ==>
        && document.dirty == (old(document.dirty)
          || ((cmd.NewLine? || cmd.Type?) && old(cursor.y) <= old(|document.rows|)))
        && document.path == old(document.path)
    {
      ghost var before := Screen(document.Lines(), cursor);
      match cmd {
        case NewLine =>
          assert Edited(NewLine, before, height) == Edited(Type('\n'), before, height);
          InsertAndAdvance('\n');
        case Type(c) =>
          InsertAndAdvance(c);
        case DeleteBack =>
          if !(cursor.x == 0 && cursor.y == 0) {
            DeleteBefore();
          }
        case DeleteForward =>
          DeleteAtCursor();
        case Save | Search =>
        case Quit | GoToEnd | GoToStart | Move(_) | NoOp =>
          Navigate(cmd);
      }
    }

    /** The arms of `process_keyboard` that only move the cursor (Ctrl-End,
        Ctrl-Home, the navigation keys) or that touch neither document nor
        cursor (Ctrl-C, unbound keys). */
    method Navigate(cmd: Command)
      requires Valid() && (cmd.Quit? || cmd.GoToEnd? || cmd.GoToStart? || cmd.Move? || cmd.NoOp?)
      modifies this`cursor
      ensures Valid()
      ensures Screen(document.Lines(), cursor)
        == Edited(cmd, Screen(old(document.Lines()), old(cursor)), height)
    {
      ghost var before := Screen(document.Lines(), cursor);
      match cmd {
        case GoToEnd =>
          var lastIndex := SatSub(document.RowsSize(), 1);
          var lastRow := document.RowAt(lastIndex);
          if lastRow.Some? {
            cursor := Position(lastRow.value.Size(), lastIndex);
          }
        case GoToStart =>
          cursor := Position(0, 0);
        case Move(key) =>
          ProcessMove(key);
        case _ =>
      }
      assert document.Lines() == before.lines;
      EditedKeepsCursorValid(cmd, before, height);
    }

    /** Delete: delete at the cursor, which stays where it is. */
    method DeleteAtCursor()
      requires Valid()
      modifies document, document.rows
      ensures Valid()
      ensures Screen(document.Lines(), cursor)
        == Edited(DeleteForward, Screen(old(document.Lines()), cursor), height)
      ensures document.dirty == old(document.dirty) && document.path == old(document.path)
    {
      ghost var before := Screen(document.Lines(), cursor);
      document.Delete(cursor);
      DeletePreservesCursorValid(before.lines, before.cursor);
    }

    /** Typing `c` (Enter types a newline): insert at the cursor, then move
        Right over what was inserted. */
    method InsertAndAdvance(c: char)
      requires Valid()
      modifies this`cursor, document, document.rows
      ensures Valid()
      ensures Screen(document.Lines(), cursor)
        == Edited(Type(c), Screen(old(document.Lines()), old(cursor)), height)
      ensures document.dirty == (old(document.dirty) || old(cursor.y) <= old(|document.rows|))
      ensures document.path == old(document.path)
    {
      ghost var before := Screen(document.Lines(), cursor);
      document.Insert(cursor, c);
      ghost var lines := document.Lines();
      ProcessMove(Right);
      TypedIsInsertThenRight(c, before, height);
      assert document.Lines() == lines;
    }

    /** Backspace away from the origin: move Left, then delete there. */
    method DeleteBefore()
      requires Valid() && cursor != Position(0, 0)
      modifies this`cursor, document, document.rows
      ensures Valid()
      ensures Screen(document.Lines(), cursor)
        == Edited(DeleteBack, Screen(old(document.Lines()), old(cursor)), height)
      ensures document.dirty == old(document.dirty) && document.path == old(document.path)
    {
      ghost var start := Screen(document.Lines(), cursor);
      ProcessMove(Left);
      ghost var p := cursor;
      assert p == Moved(Left, start.cursor, start.lines, height) && document.Lines() == start.lines;
      document.Delete(cursor);
      DeletePreservesCursorValid(start.lines, p);
      assert Screen(document.Lines(), cursor) == Edited(DeleteBack, start, height) by {
        assert document.Lines() == Deleted(start.lines, p);
        assert cursor == p;
      }
    }

    /** `prompt`: reads polls from `input` until Enter, Ctrl-J or Esc closes
        the prompt; `closed` is false when the input ran out first. The
        answer is the typed line, or nothing when it is empty. */
    method Prompt(input: seq<Option<Event>>) returns (answer: Option<seq<char>>, closed: bool, used: nat)
      ensures answer == Answer(RunPrompt(PromptState([], true), input).0.text)
      ensures (PromptState(if answer.Some? then answer.value else [], !closed), used)
        == RunPrompt(PromptState([], true), input)
    {
      var result: seq<char> := [];
      var runPrompt := true;
      used := 0;
      while runPrompt && used < |input|
        invariant used <= |input|
        invariant RunPrompt(PromptState(result, runPrompt), input[used..]).0
          == RunPrompt(PromptState([], true), input).0
        invariant used + RunPrompt(PromptState(result, runPrompt), input[used..]).1
          == RunPrompt(PromptState([], true), input).1
      {
        var event := input[used];
        match event {
          case Some(Key(keyEvent)) =>
            if (keyEvent.control && keyEvent.code == Char('j')) || keyEvent.code == Enter {
              runPrompt := false;
            } else {
              match keyEvent.code {
                case Char(c) =>
                  result := result + [c];
                case Backspace =>
                  if |result| > 0 {
                    result := result[..|result| - 1];
                  }
                case Esc =>
                  result := [];
                  runPrompt := false;
                case _ =>
              }
            }
          case _ =>
        }
        assert input[used..][1..] == input[used + 1..];
        used := used + 1;
      }
      closed := !runPrompt;
      answer := Answer(result);
    }
  }
}
