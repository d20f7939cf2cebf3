/** What the keys of drivers/keyboard.c do, by their scan codes (set 1 of the PS/2 keyboard):
    what is typed after any run of key presses and releases, and what the other keys do. */
module KeyLayout {
  import opened Words
  import opened Terminal
  import opened LineEditor
  import opened Keyboard
  import K = Keymap

  // -------------------------------------------------------------------------- the layout

  /** The keys without shift: the digit row from 0x02 on, the three letter rows from 0x10, 0x1E
      and 0x2B on, and the number pad from 0x47 on. */
  function Lower(code: nat): char {
    if 0x02 <= code < 0x0E then "1234567890-="[code - 0x02]
    else if 0x10 <= code < 0x1C then "qwertyuiop[]"[code - 0x10]
    else if 0x1E <= code < 0x2A then "asdfghjkl;'`"[code - 0x1E]
    else if 0x2B <= code < 0x36 then "\\zxcvbnm,./"[code - 0x2B]
    else if code == 0x37 then '*'
    else if code == 0x39 then ' '
    else if code == 0x49 || code == 0x51 then '\0'
    else if 0x47 <= code < 0x54 then "78?-456+12?0."[code - 0x47]
    else '\0'
  }

  /** The same keys with shift or caps lock; the number pad stays as it is. */
  function Upper(code: nat): char {
    if 0x02 <= code < 0x0E then "!@#$%^&*()_+"[code - 0x02]
    else if 0x10 <= code < 0x1C then "QWERTYUIOP{}"[code - 0x10]
    else if 0x1E <= code < 0x2A then "ASDFGHJKL:\"~"[code - 0x1E]
    else if 0x2B <= code < 0x36 then "|ZXCVBNM<>?"[code - 0x2B]
    else Lower(code)
  }

  lemma LowerTopRows(row: nat, k: nat)
    requires 0 <= row < 3 && k < 10
    ensures K.NormalCharset(row)[k] == Lower(10 * row + k)
  {
    match row
    case 0 =>
    case 1 =>
    case _ =>
  }

  lemma UpperTopRows(row: nat, k: nat)
    requires 0 <= row < 3 && k < 10
    ensures K.ShiftCharset(row)[k] == Upper(10 * row + k)
  {
    match row
    case 0 =>
    case 1 =>
    case _ =>
  }

  lemma LowerMiddleRows(row: nat, k: nat)
    requires 3 <= row < 6 && k < 10
    ensures K.NormalCharset(row)[k] == Lower(10 * row + k)
  {
    match row
    case 3 =>
    case 4 =>
    case _ =>
  }

  lemma UpperMiddleRows(row: nat, k: nat)
    requires 3 <= row < 6 && k < 10
    ensures K.ShiftCharset(row)[k] == Upper(10 * row + k)
  {
    match row
    case 3 =>
    case 4 =>
    case _ =>
  }

  lemma LowerPadRows(row: nat, k: nat)
    requires 6 <= row < 9 && k < 10
    ensures K.NormalCharset(row)[k] == Lower(10 * row + k)
  {
    match row
    case 6 =>
    case 7 =>
    case _ =>
  }

  lemma UpperPadRows(row: nat, k: nat)
    requires 6 <= row < 9 && k < 10
    ensures K.ShiftCharset(row)[k] == Upper(10 * row + k)
  {
    match row
    case 6 =>
    case 7 =>
    case _ =>
  }

  lemma TableRows(row: nat, k: nat)
    requires row < 9 && k < 10
    ensures K.NormalCharset(row)[k] == Lower(10 * row + k) && K.ShiftCharset(row)[k] == Upper(10 * row + k)
  {
    if row < 3 {
      LowerTopRows(row, k);
      UpperTopRows(row, k);
    } else if row < 6 {
      LowerMiddleRows(row, k);
      UpperMiddleRows(row, k);
    } else {
      LowerPadRows(row, k);
      UpperPadRows(row, k);
    }
  }

  /** The character a key of the layout has. */
  function CharOf(m: K.Modifiers, code: nat): char {
    if m.lshift || m.rshift || m.capsLock then Upper(code) else Lower(code)
  }

  /** Every scan code of the driver's tables. */
  lemma KeyCharIs(behind: CharTable, m: K.Modifiers, code: nat)
    requires code < 90
    ensures Table(behind)(m, code) == CharOf(m, code) as int
  {
    assert K.InTable(code) && Table(behind)(m, code) == K.KeyChar(m, code);
    TableRows(code / 10, code % 10);
    assert 10 * (code / 10) + code % 10 == code;
  }

  lemma NoChar(behind: CharTable, m: K.Modifiers, code: nat)
    requires code < 90 && Lower(code) == Upper(code) == '\0'
    ensures Table(behind)(m, code) == 0
  {
    KeyCharIs(behind, m, code);
  }

  // ------------------------------------------------------------------- shift and caps lock

  /** The key was pressed, and has not been released since. */
  ghost predicate Held(evs: seq<Event>, press: byte, release: byte) {
    exists k :: 0 <= k < |evs| && evs[k] == Key(press) && forall j :: k < j < |evs| ==> evs[j] != Key(release)
  }

  function Presses(evs: seq<Event>, press: byte): nat {
    if evs == [] then 0
    else Presses(evs[..|evs| - 1], press) + if evs[|evs| - 1] == Key(press) then 1 else 0
  }

  lemma HeldStep(evs: seq<Event>, ev: Event, press: byte, release: byte)
    requires press != release
    ensures Held(evs + [ev], press, release)
            <==> ev == Key(press) || (ev != Key(release) && Held(evs, press, release))
  {
    var all := evs + [ev];
    if ev == Key(press) {
      assert all[|evs|] == Key(press);
    }
    if Held(evs, press, release) && ev != Key(release) {
      var k :| 0 <= k < |evs| && evs[k] == Key(press) && forall j :: k < j < |evs| ==> evs[j] != Key(release);
      assert all[k] == Key(press);
    }
    if Held(all, press, release) && ev != Key(press) {
      var k :| 0 <= k < |all| && all[k] == Key(press) && forall j :: k < j < |all| ==> all[j] != Key(release);
      assert all[|evs|] == ev && evs[k] == Key(press);
      assert forall j :: k < j < |evs| ==> evs[j] == all[j];
    }
  }

  /** The modifier keys have no character, whatever is held. */
  ghost predicate ModifiersAreSilent(keys: CharTable) {
    forall m: K.Modifiers :: keys(m, 0x2A) == keys(m, 0x36) == keys(m, 0x3A) == 0
  }

  lemma TableIsSilent(behind: CharTable)
    ensures ModifiersAreSilent(Table(behind))
  {
    forall m: K.Modifiers
      ensures Table(behind)(m, 0x2A) == Table(behind)(m, 0x36) == Table(behind)(m, 0x3A) == 0
    {
      NoChar(behind, m, 0x2A);
      NoChar(behind, m, 0x36);
      NoChar(behind, m, 0x3A);
    }
  }

  /** One event's effect on the three states, by scan code. */
  lemma ModifiersStep(keys: CharTable, e: Editor, ev: Event)
    requires ModifiersAreSilent(keys) && Sane(e.term)
    ensures var m, r := e.mods, Handle(keys, e, ev).mods;
            && r.lshift == (ev == Key(0x2A) || (ev != Key(0xAA) && m.lshift))
            && r.rshift == (ev == Key(0x36) || (ev != Key(0xB6) && m.rshift))
            && r.capsLock == (if ev == Key(0x3A) then !m.capsLock else m.capsLock)
  {
    if ev.Key? {
      assert keys(e.mods, 0x2A) == keys(e.mods, 0x36) == keys(e.mods, 0x3A) == 0;
    }
  }

  /** After every run of events: a shift key counts as held exactly if it was pressed and has not
      been released since, and caps lock is on exactly after an odd number of presses. */
  lemma {:induction false} ModifiersAre(keys: CharTable, evs: seq<Event>)
    requires ModifiersAreSilent(keys)
    ensures var m := RunEvents(keys, evs).mods;
            && (m.lshift <==> Held(evs, 0x2A, 0xAA)) && (m.rshift <==> Held(evs, 0x36, 0xB6))
            && (m.capsLock <==> Presses(evs, 0x3A) % 2 == 1)
  {
    if evs != [] {
      var before, ev := evs[..|evs| - 1], evs[|evs| - 1];
      assert evs == before + [ev];
      ModifiersAre(keys, before);
      ModifiersStep(keys, RunEvents(keys, before), ev);
      HeldStep(before, ev, 0x2A, 0xAA);
      HeldStep(before, ev, 0x36, 0xB6);
    }
  }

  // --------------------------------------------------------------------------- the keys

  /** Shift held or caps lock on, after these events. */
  ghost predicate Shifted(evs: seq<Event>) {
    Held(evs, 0x2A, 0xAA) || Held(evs, 0x36, 0xB6) || Presses(evs, 0x3A) % 2 == 1
  }

  lemma CharacterTypes(keys: CharTable, e: Editor, code: nat, ch: byte)
    requires Sane(e.term) && code < 90 && keys(e.mods, code) == ch != 0
    ensures OnKey(keys, e, code) == e.(temp := e.temp + [ch], term := PutChar(e.term, ch))
    ensures OnKey(keys, e, code + 0x80) == e
  {
  }

  lemma RunSnoc(keys: CharTable, evs: seq<Event>, keyCode: byte)
    ensures RunEvents(keys, evs + [Key(keyCode)]) == OnKey(keys, RunEvents(keys, evs), keyCode)
  {
    assert (evs + [Key(keyCode)])[..|evs|] == evs;
  }

  /** After every run of events, pressing a key of the layout types its character, by whether a
      shift is held or caps lock is on, and letting go of it does nothing. */
  lemma KeyTypes(behind: CharTable, evs: seq<Event>, code: nat) returns (keys: CharTable, e: Editor, ch: byte)
    requires code < 90 && Lower(code) != '\0'
    ensures keys == Table(behind) && e == RunEvents(keys, evs)
    ensures ch == (if Shifted(evs) then Upper(code) else Lower(code)) as int
    ensures RunEvents(keys, evs + [Key(code)]) == e.(temp := e.temp + [ch], term := PutChar(e.term, ch))
    ensures RunEvents(keys, evs + [Key(code + 0x80)]) == e
  {
    keys := Table(behind);
    e := RunEvents(keys, evs);
    ch := keys(e.mods, code);
    TableIsSilent(behind);
    ModifiersAre(keys, evs);
    KeyCharIs(behind, e.mods, code);
    CharacterTypes(keys, e, code, ch);
    RunSnoc(keys, evs, code);
    RunSnoc(keys, evs, code + 0x80);
  }

  lemma SilentKey(keys: CharTable, e: Editor, code: nat)
    requires Sane(e.term) && code < 90 && keys(e.mods, code) == 0
    ensures OnKey(keys, e, code) == SysKey(e, code, true) && OnKey(keys, e, code + 0x80) == SysKey(e, code, false)
  {
    assert (code + 0x80) % 128 == code;
    assert OnKey(keys, e, code) == OnChar(e, 0, code, true);
    assert OnKey(keys, e, code + 0x80) == OnChar(e, 0, code, false);
  }

  /** The other keys with a meaning, by scan code: Backspace 0x0E, Enter 0x1C, page up 0x49 and
      page down 0x51. Letting go of them does nothing. */
  lemma SystemKeys(behind: CharTable, e: Editor) returns (keys: CharTable)
    requires Sane(e.term)
    ensures keys == Table(behind)
    ensures OnKey(keys, e, 0x0E) == if e.temp == [] then e
                                    else e.(temp := e.temp[..|e.temp| - 1], term := DelChar(e.term))
    ensures OnKey(keys, e, 0x1C) == e.(input := e.input + e.temp + [10], temp := [], term := PutChar(e.term, 10))
    ensures OnKey(keys, e, 0x49) == e.(term := Step(e.term, PageUp))
    ensures OnKey(keys, e, 0x51) == e.(term := Step(e.term, PageDown))
    ensures OnKey(keys, e, 0x8E) == OnKey(keys, e, 0x9C) == OnKey(keys, e, 0xC9) == OnKey(keys, e, 0xD1) == e
  {
    keys := Table(behind);
    NoChar(behind, e.mods, 0x0E);
    NoChar(behind, e.mods, 0x1C);
    NoChar(behind, e.mods, 0x49);
    NoChar(behind, e.mods, 0x51);
    SilentKey(keys, e, 0x0E);
    SilentKey(keys, e, 0x1C);
    SilentKey(keys, e, 0x49);
    SilentKey(keys, e, 0x51);
  }

  /** The remaining keys of the tables have no character and do nothing. */
  lemma OtherKeys(behind: CharTable, e: Editor, code: nat)
    requires Sane(e.term) && code < 90 && Lower(code) == Upper(code) == '\0'
    requires code !in {0x0E, 0x1C, 0x2A, 0x36, 0x3A, 0x49, 0x51}
    ensures OnKey(Table(behind), e, code) == OnKey(Table(behind), e, code + 0x80) == e
  {
    NoChar(behind, e.mods, code);
    SilentKey(Table(behind), e, code);
  }
}
