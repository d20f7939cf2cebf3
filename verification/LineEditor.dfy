/** drivers/keyboard.c as a state machine on values, and the line editor it is:
    a finished text, a line being typed, and the input handed to the reader.
    What is said here holds for any character table without a newline;
    Keyboard.dfy puts in the tables of module Keymap. */
module LineEditor {
  import opened Words
  import opened Terminal
  import K = Keymap

  /** The character of a scan code, 0 if it has none. */
  type CharTable = (K.Modifiers, nat) -> byte

  ghost predicate NoNewline(keys: CharTable) {
    forall m: K.Modifiers, code: nat :: keys(m, code) != NEWLINE
  }

  // ------------------------------------------------------- the driver's state machine

  /** `temp` is the used part of tempBuffer, `input` the used part of inputBuffer. */
  datatype Editor = Editor(term: Term, mods: K.Modifiers, temp: seq<byte>, input: seq<byte>)

  function Modify(m: K.Modifiers, code: nat, down: bool): K.Modifiers {
    if code == K.KEY_LSHIFT then m.(lshift := down)
    else if code == K.KEY_RSHIFT then m.(rshift := down)
    else if code == K.KEY_CAPSLOCK && down then m.(capsLock := !m.capsLock)
    else m
  }

  function SysKey(e: Editor, code: nat, down: bool): (r: Editor)
    requires Sane(e.term)
    ensures Sane(r.term)
  {
    if code in {K.KEY_LSHIFT, K.KEY_RSHIFT, K.KEY_CAPSLOCK} then e.(mods := Modify(e.mods, code, down))
    else if !down then e
    else if code == K.KEY_PAGEUP then e.(term := ScrollPageUp(e.term))
    else if code == K.KEY_PAGEDOWN then e.(term := ScrollPageDown(e.term))
    else if code == K.KEY_BACKSPACE && e.temp != [] then
      e.(temp := e.temp[..|e.temp| - 1], term := DelChar(e.term))
    else if code == K.KEY_ENTER then
      e.(input := e.input + e.temp + [NEWLINE], temp := [], term := PutChar(e.term, NEWLINE))
    else e
  }

  /** A key with character `ch`, 0 if it has none. */
  function OnChar(e: Editor, ch: byte, code: nat, down: bool): (r: Editor)
    requires Sane(e.term)
    ensures Sane(r.term)
  {
    if ch == 0 then SysKey(e, code, down)
    else if down then e.(term := PutChar(e.term, ch), temp := e.temp + [ch])
    else e
  }

  /** One key code from the keyboard: bit 7 says released, the rest is the key. */
  function OnKey(keys: CharTable, e: Editor, keyCode: byte): (r: Editor)
    requires Sane(e.term)
    ensures Sane(r.term)
  {
    OnChar(e, keys(e.mods, keyCode % 128), keyCode % 128, keyCode < 128)
  }

  /** What can happen at the terminal: a key, text printed by the kernel, and its
      two commands that start over the screen and the input. */
  datatype Event = Key(keyCode: byte) | Print(text: seq<byte>) | ClearScreen | ClearInput

  function Handle(keys: CharTable, e: Editor, ev: Event): (r: Editor)
    requires Sane(e.term)
    ensures Sane(r.term)
  {
    match ev
    case Key(keyCode) => OnKey(keys, e, keyCode)
    case Print(text) => e.(term := PutAll(e.term, text))
    case ClearScreen => e.(term := Cleared())
    case ClearInput => e.(input := [])
  }

  function Start(): Editor { Editor(Cleared(), K.Modifiers(false, false, false), [], []) }

  function RunEvents(keys: CharTable, evs: seq<Event>): (e: Editor)
    ensures Sane(e.term)
  {
    if evs == [] then Start() else Handle(keys, RunEvents(keys, evs[..|evs| - 1]), evs[|evs| - 1])
  }

  // -------------------------------------------------------------- the simple editor

  /** `done` is all text before the line being typed, prompt included, as a log
      of rows; `typed` is that line; `input` is what Enter has handed over. */
  datatype Line = Line(done: seq<byte>, typed: seq<byte>, input: seq<byte>, mods: K.Modifiers)

  function Press(l: Line, ch: byte, code: nat): Line {
    if ch != 0 then l.(typed := l.typed + [ch])
    else if code == K.KEY_BACKSPACE && l.typed != [] then l.(typed := l.typed[..|l.typed| - 1])
    else if code == K.KEY_ENTER then
      Line(LogPut(l.done + l.typed, NEWLINE), [], l.input + l.typed + [NEWLINE], l.mods)
    else l.(mods := Modify(l.mods, code, true))
  }

  function Release(l: Line, ch: byte, code: nat): Line {
    if ch == 0 then l.(mods := Modify(l.mods, code, false)) else l
  }

  function LineStep(keys: CharTable, l: Line, ev: Event): Line {
    match ev
    case Key(keyCode) =>
      var code := keyCode % 128;
      if keyCode < 128 then Press(l, keys(l.mods, code), code) else Release(l, keys(l.mods, code), code)
    case Print(text) => l.(done := LogPutAll(l.done, text))
    case ClearScreen => l.(done := [])
    case ClearInput => l.(input := [])
  }

  function LineOf(keys: CharTable, evs: seq<Event>): Line {
    if evs == [] then Line([], [], [], K.Modifiers(false, false, false))
    else LineStep(keys, LineOf(keys, evs[..|evs| - 1]), evs[|evs| - 1])
  }

  // ------------------------------------------------------------------- they agree

  /** The screen shows the finished text and the line, the buffers hold the line
      and the input. */
  ghost predicate Agrees(e: Editor, l: Line) {
    && Faithful(e.term, l.done + l.typed)
    && e.temp == l.typed && e.input == l.input && e.mods == l.mods
  }

  /** The length of tempBuffer and of inputBuffer, which the driver never checks. */
  const BUFFER_SIZE := 2048

  predicate Buffered(l: Line) { |l.typed| <= BUFFER_SIZE && |l.input| <= BUFFER_SIZE }

  /** There is a place left in tempBuffer for a character, and in inputBuffer for the line
      and the newline. */
  predicate Fits(keys: CharTable, l: Line, ev: Event) {
    ev.Key? && ev.keyCode < 128 ==>
      if keys(l.mods, ev.keyCode) != 0 then |l.typed| < BUFFER_SIZE
      else ev.keyCode == K.KEY_ENTER ==> |l.input| + |l.typed| < BUFFER_SIZE
  }

  /** The kernel prints, and clears the screen, only while no line is being typed;
      the history does not fill; the buffers have room. */
  ghost predicate Orderly(keys: CharTable, l: Line, ev: Event) {
    && (ev.Print? || ev.ClearScreen? ==> l.typed == [])
    && |LineStep(keys, l, ev).done + LineStep(keys, l, ev).typed| < HISTORY
    && Fits(keys, l, ev)
  }

  lemma {:induction false} LogPutAllGrows(log: seq<byte>, text: seq<byte>)
    ensures |log| <= |LogPutAll(log, text)|
  {
    if text != [] {
      LogPutAllGrows(log, text[..|text| - 1]);
    }
  }

  lemma {:induction false} PrintIsFaithful(t: Term, log: seq<byte>, text: seq<byte>)
    requires Faithful(t, log) && |LogPutAll(log, text)| < HISTORY
    ensures Faithful(PutAll(t, text), LogPutAll(log, text))
  {
    if text != [] {
      var before := text[..|text| - 1];
      PrintIsFaithful(t, log, before);
      PutIsFaithful(PutAll(t, before), LogPutAll(log, before), text[|text| - 1]);
    }
  }

  lemma CharAgrees(e: Editor, l: Line, ch: byte)
    requires Agrees(e, l) && ch != NEWLINE && |l.done + (l.typed + [ch])| < HISTORY
    ensures Agrees(e.(term := PutChar(e.term, ch), temp := e.temp + [ch]), l.(typed := l.typed + [ch]))
  {
    assert l.done + (l.typed + [ch]) == LogPut(l.done + l.typed, ch);
    PutIsFaithful(e.term, l.done + l.typed, ch);
  }

  lemma PressAgrees(e: Editor, l: Line, ch: byte, code: nat)
    requires Agrees(e, l) && ch != NEWLINE
    requires var l' := Press(l, ch, code); |l'.done + l'.typed| < HISTORY
    ensures Agrees(OnChar(e, ch, code, true), Press(l, ch, code))
  {
    var log := l.done + l.typed;
    if ch != 0 {
      CharAgrees(e, l, ch);
    } else if code == K.KEY_BACKSPACE && e.temp != [] {
      assert l.done + l.typed[..|l.typed| - 1] == LogStep(log, Del);
      DelIsFaithful(e.term, log);
    } else if code == K.KEY_ENTER {
      assert LogPut(log, NEWLINE) + [] == LogPut(log, NEWLINE);
      PutIsFaithful(e.term, log, NEWLINE);
    } else if code == K.KEY_PAGEUP {
      StepIsFaithful(e.term, log, PageUp);
    } else if code == K.KEY_PAGEDOWN {
      StepIsFaithful(e.term, log, PageDown);
    }
  }

  lemma HandleAgrees(keys: CharTable, e: Editor, l: Line, ev: Event)
    requires NoNewline(keys) && Agrees(e, l) && Orderly(keys, l, ev)
    ensures Agrees(Handle(keys, e, ev), LineStep(keys, l, ev))
  {
    match ev
    case Key(keyCode) =>
      if keyCode < 128 {
        PressAgrees(e, l, keys(l.mods, keyCode), keyCode);
      }
    case Print(text) =>
      assert l.done + l.typed == l.done;
      var done := LogPutAll(l.done, text);
      assert done + l.typed == done;
      PrintIsFaithful(e.term, l.done, text);
    case ClearScreen =>
      assert l.typed == [];
    case ClearInput =>
  }

  ghost predicate OrderlyRun(keys: CharTable, evs: seq<Event>) {
    forall n :: 0 <= n < |evs| ==> Orderly(keys, LineOf(keys, evs[..n]), evs[n])
  }

  /** For every orderly run of events the driver and the simple editor agree, and the
      driver's buffers hold what is typed. */
  lemma {:induction false} RunAgrees(keys: CharTable, evs: seq<Event>)
    requires NoNewline(keys) && OrderlyRun(keys, evs)
    ensures Agrees(RunEvents(keys, evs), LineOf(keys, evs)) && Buffered(LineOf(keys, evs))
  {
    if evs != [] {
      var n := |evs| - 1;
      var before := evs[..n];
      forall k | 0 <= k < n ensures before[..k] == evs[..k] && before[k] == evs[k] {}
      assert Orderly(keys, LineOf(keys, evs[..n]), evs[n]);
      RunAgrees(keys, before);
      HandleAgrees(keys, RunEvents(keys, before), LineOf(keys, before), evs[n]);
      FitsIff(keys, LineOf(keys, before), evs[n]);
    }
  }

  // ------------------------------------------------------------- the driver's buffers

  lemma FitsIff(keys: CharTable, l: Line, ev: Event)
    requires Buffered(l)
    ensures Buffered(LineStep(keys, l, ev)) <==> Fits(keys, l, ev)
  {
  }

  lemma CharKeepsBuffers(e: Editor, l: Line, ch: byte, code: nat, down: bool)
    requires Sane(e.term) && e.temp == l.typed && e.input == l.input && e.mods == l.mods
    ensures var e', l' := OnChar(e, ch, code, down), if down then Press(l, ch, code) else Release(l, ch, code);
            e'.temp == l'.typed && e'.input == l'.input && e'.mods == l'.mods
  {
  }

  /** The buffers do not depend on the screen: in every run, orderly or not, they are
      those of the simple editor. */
  lemma {:induction false} SameBuffers(keys: CharTable, evs: seq<Event>)
    ensures var e, l := RunEvents(keys, evs), LineOf(keys, evs);
            e.temp == l.typed && e.input == l.input && e.mods == l.mods
  {
    if evs != [] {
      var before, ev := evs[..|evs| - 1], evs[|evs| - 1];
      SameBuffers(keys, before);
      if ev.Key? {
        var code := ev.keyCode % 128;
        var l := LineOf(keys, before);
        CharKeepsBuffers(RunEvents(keys, before), l, keys(l.mods, code), code, ev.keyCode < 128);
      }
    }
  }

  /** No event of the run runs over the end of a buffer. */
  ghost predicate FitsRun(keys: CharTable, evs: seq<Event>) {
    evs != [] ==>
      var before := evs[..|evs| - 1];
      FitsRun(keys, before) && Fits(keys, LineOf(keys, before), evs[|evs| - 1])
  }

  /** At no time is there more in a buffer than it holds. */
  ghost predicate BuffersHold(keys: CharTable, evs: seq<Event>) {
    && |RunEvents(keys, evs).temp| <= 2048 && |RunEvents(keys, evs).input| <= 2048
    && (evs != [] ==> BuffersHold(keys, evs[..|evs| - 1]))
  }

  /** The driver stays within its buffers exactly if there is room before every key. */
  lemma {:induction false} BuffersHoldIff(keys: CharTable, evs: seq<Event>)
    ensures BuffersHold(keys, evs) <==> FitsRun(keys, evs)
  {
    SameBuffers(keys, evs);
    if evs != [] {
      var before := evs[..|evs| - 1];
      BuffersHoldIff(keys, before);
      SameBuffers(keys, before);
      if BuffersHold(keys, before) {
        FitsIff(keys, LineOf(keys, before), evs[|evs| - 1]);
      }
    }
  }

  lemma {:induction false} FitsRunBefore(keys: CharTable, evs: seq<Event>, n: nat)
    requires FitsRun(keys, evs) && n < |evs|
    ensures Fits(keys, LineOf(keys, evs[..n]), evs[n])
  {
    var before := evs[..|evs| - 1];
    if n < |before| {
      FitsRunBefore(keys, before, n);
      assert before[..n] == evs[..n];
    }
  }

  /** So an orderly run never leaves the buffers. */
  lemma {:induction false} OrderlyRunFits(keys: CharTable, evs: seq<Event>)
    requires OrderlyRun(keys, evs)
    ensures FitsRun(keys, evs) && BuffersHold(keys, evs)
  {
    if evs != [] {
      var n := |evs| - 1;
      var before := evs[..n];
      forall k | 0 <= k < n ensures before[..k] == evs[..k] && before[k] == evs[k] {}
      assert Orderly(keys, LineOf(keys, evs[..n]), evs[n]);
      OrderlyRunFits(keys, before);
    }
    BuffersHoldIff(keys, evs);
  }

  /** The same key over and over. */
  function Presses(keyCode: byte, n: nat): (evs: seq<Event>)
    ensures |evs| == n
  {
    seq(n, _ => Key(keyCode))
  }

  lemma {:induction false} PressesType(keys: CharTable, keyCode: byte, n: nat)
    requires keyCode < 128 && keys(K.Modifiers(false, false, false), keyCode) != 0
    ensures var l := LineOf(keys, Presses(keyCode, n));
            l.done == [] && l.input == [] && |l.typed| == n && l.mods == K.Modifiers(false, false, false)
  {
    if n > 0 {
      assert Presses(keyCode, n)[..n - 1] == Presses(keyCode, n - 1);
      PressesType(keys, keyCode, n - 1);
    }
  }

  /** Nothing but the missing room is wrong with a line of 2049 characters: the first 2048
      presses are orderly, and the next one is stored behind the end of tempBuffer. */
  lemma LongLineOverruns(keys: CharTable, keyCode: byte)
    requires keyCode < 128 && keys(K.Modifiers(false, false, false), keyCode) != 0
    ensures OrderlyRun(keys, Presses(keyCode, 2048))
    ensures !BuffersHold(keys, Presses(keyCode, 2049))
  {
    forall n: nat | n < 2048
      ensures Orderly(keys, LineOf(keys, Presses(keyCode, 2048)[..n]), Key(keyCode))
    {
      assert Presses(keyCode, 2048)[..n] == Presses(keyCode, n);
      PressesType(keys, keyCode, n);
    }
    var evs := Presses(keyCode, 2049);
    PressesType(keys, keyCode, 2049);
    SameBuffers(keys, evs);
  }

  // ------------------------------------------------------------ what the user can see

  /** Where the line being typed begins in the history. */
  function LineStart(e: Editor): int { Cursor(e.term) - |e.temp| }

  /** The 175 history rows. */
  function History(e: Editor): (cells: seq<byte>)
    requires Sane(e.term)
    ensures |cells| == HISTORY
  {
    e.term.cells[PAGE..]
  }

  /** History cells `from` up to `to`; nothing if that is no range of cells. */
  function Cells(e: Editor, from: int, to: int): seq<byte>
    requires Sane(e.term)
  {
    if 0 <= from <= to <= HISTORY then History(e)[from..to] else []
  }

  lemma AgreesAt(e: Editor, l: Line, k: nat)
    requires Agrees(e, l) && k < HISTORY
    ensures History(e)[k] == At(l.done + l.typed, k)
  {
    assert e.term.cells[PAGE + k] == At(l.done + l.typed, k);
  }

  lemma AgreesOnCells(e: Editor, l: Line)
    requires Agrees(e, l)
    ensures 0 <= LineStart(e) == |l.done| && Cursor(e.term) < HISTORY
    ensures Cells(e, 0, LineStart(e)) == l.done
    ensures Cells(e, LineStart(e), Cursor(e.term)) == e.temp
    ensures forall k :: Cursor(e.term) <= k < HISTORY ==> History(e)[k] == 0
  {
    CursorIsLogEnd(e.term, l.done + l.typed);
    forall k | 0 <= k < HISTORY ensures History(e)[k] == At(l.done + l.typed, k) {
      AgreesAt(e, l, k);
    }
  }

  /** The cells just before the cursor are tempBuffer, across row wraps, paging
      and deletions alike, and everything behind the cursor is blank. */
  lemma LineIsOnScreen(keys: CharTable, evs: seq<Event>)
    requires NoNewline(keys) && OrderlyRun(keys, evs)
    ensures var e := RunEvents(keys, evs);
            && 0 <= LineStart(e)
            && Cells(e, LineStart(e), Cursor(e.term)) == e.temp
            && forall k :: Cursor(e.term) <= k < HISTORY ==> History(e)[k] == 0
  {
    RunAgrees(keys, evs);
    AgreesOnCells(RunEvents(keys, evs), LineOf(keys, evs));
  }

  /** What the next event changes, in any state that agrees with some line. */
  lemma PromptStep(keys: CharTable, e: Editor, l: Line, keyCode: byte)
    requires NoNewline(keys) && Agrees(e, l) && Orderly(keys, l, Key(keyCode))
    requires keyCode == K.KEY_ENTER ==> keys(e.mods, keyCode) != 0
    ensures var e' := Handle(keys, e, Key(keyCode));
            && 0 <= LineStart(e) == LineStart(e')
            && Cells(e', 0, LineStart(e)) == Cells(e, 0, LineStart(e))
  {
    var e', l' := Handle(keys, e, Key(keyCode)), LineStep(keys, l, Key(keyCode));
    HandleAgrees(keys, e, l, Key(keyCode));
    assert l'.done == l.done;
    AgreesOnCells(e, l);
    AgreesOnCells(e', l');
  }

  lemma SameButLast(e: Editor, l: Line, e': Editor, l': Line)
    requires Agrees(e, l) && Agrees(e', l') && l.typed != []
    requires l' == l.(typed := l.typed[..|l.typed| - 1])
    ensures 0 < Cursor(e.term) == Cursor(e'.term) + 1
    ensures History(e)[Cursor(e.term) - 1] == e.temp[|e.temp| - 1]
    ensures History(e') == History(e)[Cursor(e.term) - 1 := 0]
  {
    AgreesOnCells(e, l);
    AgreesOnCells(e', l');
    AgreesAt(e, l, Cursor(e.term) - 1);
    forall k | 0 <= k < HISTORY ensures History(e')[k] == History(e)[Cursor(e.term) - 1 := 0][k] {
      AgreesAt(e, l, k);
      AgreesAt(e', l', k);
    }
  }

  lemma SameCellsAfterNewline(e: Editor, l: Line, e': Editor, l': Line)
    requires Agrees(e, l) && Agrees(e', l')
    requires l'.done == LogPut(l.done + l.typed, NEWLINE) && l'.typed == []
    ensures History(e') == History(e)
    ensures e'.term.column == 0 && e'.term.globRow == e.term.globRow + 1
  {
    var log, log' := l.done + l.typed, l'.done + l'.typed;
    assert log' == LogPut(log, NEWLINE);
    CursorIsLogEnd(e.term, log);
    CursorIsLogEnd(e'.term, log');
    forall k | 0 <= k < HISTORY ensures History(e')[k] == History(e)[k] {
      AgreesAt(e, l, k);
      AgreesAt(e', l', k);
    }
  }

  /** One character goes, from the buffer and from the screen; none if the line
      is empty. */
  ghost predicate ErasesLast(e: Editor, e': Editor)
    requires Sane(e.term) && Sane(e'.term)
  {
    if e.temp == [] then e' == e
    else
      && 0 < Cursor(e.term) == Cursor(e'.term) + 1
      && History(e)[Cursor(e.term) - 1] == e.temp[|e.temp| - 1]
      && History(e') == History(e)[Cursor(e.term) - 1 := 0]
      && e'.temp == e.temp[..|e.temp| - 1] && e'.input == e.input
  }

  lemma BackspaceStep(keys: CharTable, e: Editor, l: Line)
    requires NoNewline(keys) && Agrees(e, l) && Orderly(keys, l, Key(K.KEY_BACKSPACE))
    requires keys(e.mods, K.KEY_BACKSPACE) == 0
    ensures ErasesLast(e, Handle(keys, e, Key(K.KEY_BACKSPACE)))
  {
    if e.temp != [] {
      HandleAgrees(keys, e, l, Key(K.KEY_BACKSPACE));
      SameButLast(e, l, Handle(keys, e, Key(K.KEY_BACKSPACE)), LineStep(keys, l, Key(K.KEY_BACKSPACE)));
    }
  }

  lemma EnterStep(keys: CharTable, e: Editor, l: Line)
    requires NoNewline(keys) && Agrees(e, l) && Orderly(keys, l, Key(K.KEY_ENTER))
    requires keys(e.mods, K.KEY_ENTER) == 0
    ensures var e' := Handle(keys, e, Key(K.KEY_ENTER));
            && e'.input == e.input + Cells(e, LineStart(e), Cursor(e.term)) + [NEWLINE]
            && e'.temp == [] && e'.term.column == 0 && e'.term.globRow == e.term.globRow + 1
            && History(e') == History(e)
  {
    AgreesOnCells(e, l);
    HandleAgrees(keys, e, l, Key(K.KEY_ENTER));
    SameCellsAfterNewline(e, l, Handle(keys, e, Key(K.KEY_ENTER)), LineStep(keys, l, Key(K.KEY_ENTER)));
  }

  /** No key but Enter changes what stands before the line: prompts stay. */
  lemma PromptIsKept(keys: CharTable, evs: seq<Event>, keyCode: byte)
    requires NoNewline(keys) && OrderlyRun(keys, evs) && Orderly(keys, LineOf(keys, evs), Key(keyCode))
    requires keyCode == K.KEY_ENTER ==> keys(RunEvents(keys, evs).mods, keyCode) != 0
    ensures var e := RunEvents(keys, evs);
            var e' := Handle(keys, e, Key(keyCode));
            && 0 <= LineStart(e) == LineStart(e')
            && Cells(e', 0, LineStart(e)) == Cells(e, 0, LineStart(e))
  {
    RunAgrees(keys, evs);
    PromptStep(keys, RunEvents(keys, evs), LineOf(keys, evs), keyCode);
  }

  /** Backspace takes the last character off the buffer and blanks the very same
      cell; with nothing typed it does nothing at all. */
  lemma BackspaceErasesTheSame(keys: CharTable, evs: seq<Event>)
    requires NoNewline(keys) && OrderlyRun(keys, evs)
    requires Orderly(keys, LineOf(keys, evs), Key(K.KEY_BACKSPACE))
    requires keys(RunEvents(keys, evs).mods, K.KEY_BACKSPACE) == 0
    ensures ErasesLast(RunEvents(keys, evs), Handle(keys, RunEvents(keys, evs), Key(K.KEY_BACKSPACE)))
  {
    RunAgrees(keys, evs);
    BackspaceStep(keys, RunEvents(keys, evs), LineOf(keys, evs));
  }

  /** Enter hands over the line as it stands on the screen and a newline; the
      next line starts on a fresh row. */
  lemma EnterHandsOver(keys: CharTable, evs: seq<Event>)
    requires NoNewline(keys) && OrderlyRun(keys, evs)
    requires Orderly(keys, LineOf(keys, evs), Key(K.KEY_ENTER))
    requires keys(RunEvents(keys, evs).mods, K.KEY_ENTER) == 0
    ensures var e := RunEvents(keys, evs);
            var e' := Handle(keys, e, Key(K.KEY_ENTER));
            && e'.input == e.input + Cells(e, LineStart(e), Cursor(e.term)) + [NEWLINE]
            && e'.temp == [] && e'.term.column == 0 && e'.term.globRow == e.term.globRow + 1
            && History(e') == History(e)
  {
    RunAgrees(keys, evs);
    EnterStep(keys, RunEvents(keys, evs), LineOf(keys, evs));
  }
}
