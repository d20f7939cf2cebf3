/** The key codes and character tables of drivers/keyboard.h and keyboard.c. */
module Keymap {
  import opened Words

  const KEY_BACKSPACE := 0x0E
  const KEY_ENTER := 0x1C
  const KEY_LSHIFT := 0x2A
  const KEY_RSHIFT := 0x36
  const KEY_CAPSLOCK := 0x3A
  const KEY_PAGEUP := 0x49
  const KEY_PAGEDOWN := 0x51

  /** Entries of the two character tables. */
  const KEYS := 90

  /** The table for plain key presses, ten keys a row. */
  function NormalCharset(row: nat): (r: seq<char>)
    requires row < 9
    ensures |r| == 10
    ensures forall k :: 0 <= k < 10 ==> r[k] as int < 128 && r[k] != '\n'
  {
    match row
    case 0 => ['\0', '\0', '1', '2', '3', '4', '5', '6', '7', '8']
    case 1 => ['9', '0', '-', '=', '\0', '\0', 'q', 'w', 'e', 'r']
    case 2 => ['t', 'y', 'u', 'i', 'o', 'p', '[', ']', '\0', '\0']
    case 3 => ['a', 's', 'd', 'f', 'g', 'h', 'j', 'k', 'l', ';']
    case 4 => ['\'', '`', '\0', '\\', 'z', 'x', 'c', 'v', 'b', 'n']
    case 5 => ['m', ',', '.', '/', '\0', '*', '\0', ' ', '\0', '\0']
    case 6 => ['\0', '\0', '\0', '\0', '\0', '\0', '\0', '\0', '\0', '\0']
    case 7 => ['\0', '7', '8', '\0', '-', '4', '5', '6', '+', '1']
    case _ => ['2', '\0', '0', '.', '\0', '\0', '\0', '\0', '\0', '\0']
  }

  /** The table for key presses with shift or caps lock, ten keys a row. */
  function ShiftCharset(row: nat): (r: seq<char>)
    requires row < 9
    ensures |r| == 10
    ensures forall k :: 0 <= k < 10 ==> r[k] as int < 128 && r[k] != '\n'
  {
    match row
    case 0 => ['\0', '\0', '!', '@', '#', '$', '%', '^', '&', '*']
    case 1 => ['(', ')', '_', '+', '\0', '\0', 'Q', 'W', 'E', 'R']
    case 2 => ['T', 'Y', 'U', 'I', 'O', 'P', '{', '}', '\0', '\0']
    case 3 => ['A', 'S', 'D', 'F', 'G', 'H', 'J', 'K', 'L', ':']
    case 4 => ['\"', '~', '\0', '|', 'Z', 'X', 'C', 'V', 'B', 'N']
    case 5 => ['M', '<', '>', '?', '\0', '*', '\0', ' ', '\0', '\0']
    case 6 => ['\0', '\0', '\0', '\0', '\0', '\0', '\0', '\0', '\0', '\0']
    case 7 => ['\0', '7', '8', '\0', '-', '4', '5', '6', '+', '1']
    case _ => ['2', '\0', '0', '.', '\0', '\0', '\0', '\0', '\0', '\0']
  }

  datatype Modifiers = Modifiers(lshift: bool, rshift: bool, capsLock: bool)

  /** Scan codes 90 to 127 lie behind the end of both tables. */
  predicate InTable(code: int) { 0 <= code < KEYS }

  function KeyChar(m: Modifiers, code: nat): (ch: byte)
    requires InTable(code)
    ensures ch != NEWLINE
  {
    var c := if m.lshift || m.rshift || m.capsLock then ShiftCharset(code / 10)[code % 10]
             else NormalCharset(code / 10)[code % 10];
    c as int
  }

  /** Every key sysKey knows has no character in either table, so it gets there. */
  lemma SystemKeysReachSysKey(m: Modifiers, code: nat)
    requires code in {KEY_BACKSPACE, KEY_ENTER, KEY_LSHIFT, KEY_RSHIFT, KEY_CAPSLOCK, KEY_PAGEUP, KEY_PAGEDOWN}
    ensures InTable(code) && KeyChar(m, code) == 0
  {
  }
}
