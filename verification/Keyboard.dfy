/** drivers/keyboard.c: the keyboard driver, changing its buffers and the screen in
    place, proved against the line editor of module LineEditor. */
module Keyboard {
  import opened Words
  import opened Terminal
  import opened Screen
  import opened LineEditor
  import K = Keymap

  /** The driver's character table. Scan codes from 90 on lie behind the end of both arrays,
      the prefix 0xE0 of the extended keys among them: `behind` is what stands there. */
  function Table(behind: CharTable): (keys: CharTable) {
    (m: K.Modifiers, code: nat) => if K.InTable(code) then K.KeyChar(m, code) else behind(m, code)
  }

  /** The hypotheses of the line editor's theorems, for the driver's table. */
  lemma TableFits(behind: CharTable, m: K.Modifiers)
    requires NoNewline(behind)
    ensures var keys := Table(behind);
            && NoNewline(keys)
            && keys(m, K.KEY_ENTER) == 0 && keys(m, K.KEY_BACKSPACE) == 0
            && keys(m, K.KEY_PAGEUP) == 0 && keys(m, K.KEY_PAGEDOWN) == 0
            && keys(m, K.KEY_LSHIFT) == 0 && keys(m, K.KEY_RSHIFT) == 0 && keys(m, K.KEY_CAPSLOCK) == 0
  {
    K.SystemKeysReachSysKey(m, K.KEY_ENTER);
    K.SystemKeysReachSysKey(m, K.KEY_BACKSPACE);
    K.SystemKeysReachSysKey(m, K.KEY_PAGEUP);
    K.SystemKeysReachSysKey(m, K.KEY_PAGEDOWN);
    K.SystemKeysReachSysKey(m, K.KEY_LSHIFT);
    K.SystemKeysReachSysKey(m, K.KEY_RSHIFT);
    K.SystemKeysReachSysKey(m, K.KEY_CAPSLOCK);
  }

  class Keyboard {
    const screen: Screen
    const behind: CharTable
    var lshift: bool
    var rshift: bool
    var capsLock: bool
    const tempBuffer: array<byte>
    var tempIndex: int
    const inputBuffer: array<byte>
    var inputIndex: int

    ghost predicate Valid()
      reads this, screen, screen.mem, tempBuffer, inputBuffer
    {
      && screen.Valid()
      && tempBuffer.Length == BUFFER_SIZE && inputBuffer.Length == BUFFER_SIZE
      && tempBuffer != inputBuffer && screen.mem != tempBuffer && screen.mem != inputBuffer
      && 0 <= tempIndex <= BUFFER_SIZE && 0 <= inputIndex <= BUFFER_SIZE
    }

    function Mods(): K.Modifiers
      reads this
    {
      K.Modifiers(lshift, rshift, capsLock)
    }

    ghost function View(): (e: Editor)
      requires Valid()
      reads this, screen, screen.mem, tempBuffer, inputBuffer
    {
      Editor(screen.View(), Mods(), tempBuffer[..tempIndex], inputBuffer[..inputIndex])
    }

    /** The character keyChar finds for a scan code. */
    function Character(code: nat): byte
      reads this
    {
      Table(behind)(Mods(), code)
    }

    /** The key does not run over the end of its buffer; the source does not look. */
    predicate Room(keyCode: byte)
      reads this
    {
      keyCode < 128 ==>
        if Character(keyCode) != 0 then tempIndex < BUFFER_SIZE else keyCode == K.KEY_ENTER ==> RoomForLine()
    }

    predicate RoomForLine()
      reads this
    {
      inputIndex + tempIndex < BUFFER_SIZE
    }

    constructor (screen: Screen, behind: CharTable)
      requires screen.Valid()
      ensures Valid() && this.screen == screen && this.behind == behind && fresh(tempBuffer) && fresh(inputBuffer)
      ensures View() == Editor(screen.View(), K.Modifiers(false, false, false), [], [])
    {
      this.screen, this.behind := screen, behind;
      lshift, rshift, capsLock := false, false, false;
      tempBuffer := new byte[BUFFER_SIZE];
      inputBuffer := new byte[BUFFER_SIZE];
      tempIndex, inputIndex := 0, 0;
    }

    /** Copies the line to the input and starts a new one. */
    method Enter()
      requires Valid() && RoomForLine()
      modifies this, inputBuffer, screen, screen.mem
      ensures Valid() && View() == old(SysKey(View(), K.KEY_ENTER, true))
    {
      ghost var temp, input := tempBuffer[..tempIndex], inputBuffer[..inputIndex];
      var srci, dsti := 0, inputIndex;
      while srci < tempIndex
        invariant 0 <= srci <= tempIndex && dsti == inputIndex + srci
        invariant inputBuffer[..dsti] == input + temp[..srci]
        modifies inputBuffer
      {
        inputBuffer[dsti] := tempBuffer[srci];
        assert inputBuffer[..dsti + 1] == inputBuffer[..dsti] + [temp[srci]];
        srci, dsti := srci + 1, dsti + 1;
      }

      inputIndex := inputIndex + tempIndex;
      inputBuffer[inputIndex] := NEWLINE;
      inputIndex := inputIndex + 1;
      assert inputBuffer[..inputIndex] == input + temp + [NEWLINE];

      tempIndex := 0;
      screen.PutChar(NEWLINE);
    }

    method Backspace()
      requires Valid()
      modifies this, tempBuffer, screen, screen.mem
      ensures Valid() && View() == old(SysKey(View(), K.KEY_BACKSPACE, true))
    {
      if tempIndex > 0 {
        tempIndex := tempIndex - 1;
        tempBuffer[tempIndex] := 0;
        screen.DelChar();
      }
    }

    method SysKeyPress(code: nat, down: bool)
      requires Valid() && (code == K.KEY_ENTER && down ==> RoomForLine())
      modifies this, tempBuffer, inputBuffer, screen, screen.mem
      ensures Valid() && View() == old(SysKey(View(), code, down))
    {
      if code == K.KEY_LSHIFT {
        lshift := down;
      } else if code == K.KEY_RSHIFT {
        rshift := down;
      } else if code == K.KEY_CAPSLOCK {
        if down {
          capsLock := !capsLock;
        }
      } else if code == K.KEY_PAGEUP {
        if down {
          screen.ScrollPageUp();
        }
      } else if code == K.KEY_PAGEDOWN {
        if down {
          screen.ScrollPageDown();
        }
      } else if code == K.KEY_BACKSPACE {
        if down {
          Backspace();
        }
      } else if code == K.KEY_ENTER {
        if down {
          Enter();
        }
      }
    }

    /** keyChar. */
    method KeyChar(code: nat) returns (character: byte)
      ensures character == Character(code)
    {
      character := if K.InTable(code) then K.KeyChar(Mods(), code) else behind(Mods(), code);
    }

    method KeyboardHandler(status: byte, keyCode: byte)
      requires Valid() && (status % 2 == 1 ==> Room(keyCode))
      modifies this, tempBuffer, inputBuffer, screen, screen.mem
      ensures Valid()
      ensures View() == if status % 2 == 1 then old(OnKey(Table(behind), View(), keyCode)) else old(View())
    {
      if status % 2 == 1 {
        var character := KeyChar(keyCode % 128);
        if character == 0 {
          SysKeyPress(keyCode % 128, keyCode < 128);
        } else if keyCode < 128 {
          screen.PutChar(character);
          tempBuffer[tempIndex] := character;
          tempIndex := tempIndex + 1;
        }
      }
    }

    /** A key, or what the kernel does at the terminal. */
    method HandleEvent(ev: Event)
      requires Valid() && (ev.Key? ==> Room(ev.keyCode))
      modifies this, tempBuffer, inputBuffer, screen, screen.mem
      ensures Valid() && View() == Handle(Table(behind), old(View()), ev)
    {
      match ev
      case Key(keyCode) => KeyboardHandler(1, keyCode);
      case Print(text) =>
        assert text[..|text|] == text;
        screen.PrintStr(text, |text|);
      case ClearScreen => screen.ClearScreen();
      case ClearInput => inputIndex := 0;
    }

    /** A whole run, from the start: as long as there is room in the buffers before every key,
        the driver is where the line editor is, and in an orderly run where the simple
        editor is. */
    method Run(evs: seq<Event>)
      requires Valid() && View() == Start() && NoNewline(behind) && FitsRun(Table(behind), evs)
      modifies this, tempBuffer, inputBuffer, screen, screen.mem
      ensures Valid() && View() == RunEvents(Table(behind), evs)
      ensures OrderlyRun(Table(behind), evs) ==> Agrees(View(), LineOf(Table(behind), evs))
    {
      ghost var keys := Table(behind);
      var i := 0;
      while i < |evs|
        invariant 0 <= i <= |evs| && Valid() && View() == RunEvents(keys, evs[..i])
        modifies this, tempBuffer, inputBuffer, screen, screen.mem
      {
        SameBuffers(keys, evs[..i]);
        FitsRunBefore(keys, evs, i);
        assert evs[..i + 1][..i] == evs[..i];
        HandleEvent(evs[i]);
        i := i + 1;
      }
      assert evs[..|evs|] == evs;
      TableFits(behind, Mods());
      if OrderlyRun(keys, evs) {
        RunAgrees(keys, evs);
      }
    }
  }
}
