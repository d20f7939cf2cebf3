/** drivers/screen.c over real video memory: 32000 bytes, a character and an
    attribute byte for each cell, changed in place. Every method is proved
    against the operation on values of module Terminal. */
module Screen {
  import opened Words
  import opened Terminal

  const VIDEO_ADDRESS := 0xB8000
  const BACKUP_ADDRESS := 0xB8FA0
  const VIDEO_BYTES := 32000
  const WHITE_ON_BLACK: byte := 0x0F

  /** The characters of a stretch of video memory: every other byte. */
  function Chars(mem: seq<byte>): (cells: seq<byte>)
    ensures |cells| == |mem| / 2
    ensures forall k :: 0 <= k < |cells| ==> cells[k] == mem[2 * k]
  {
    seq(|mem| / 2, k requires 0 <= k < |mem| / 2 => mem[2 * k])
  }

  /** The memory modelled begins at 0xB8000: the display's 2000 cells, two bytes each, and from
      0xB8FA0 on the history's 14000. */
  lemma CellAddresses(mem: seq<byte>, k: nat)
    requires |mem| == VIDEO_BYTES && k < 14000
    ensures |mem| == 32000
    ensures k < 2000 ==> Chars(mem)[k] == mem[0xB8000 + 2 * k - VIDEO_ADDRESS]
    ensures Chars(mem)[2000 + k] == mem[0xB8FA0 + 2 * k - VIDEO_ADDRESS] == mem[BACKUP_ADDRESS + 2 * k - 0xB8000]
  {
  }

  /** Copying `2 * n` bytes between even addresses copies `n` cells. */
  lemma CopyOfChars(mem: seq<byte>, dst: nat, src: nat, n: nat)
    requires |mem| % 2 == 0 && dst <= src && 2 * src + 2 * n <= |mem|
    ensures Chars(Copy(mem, 2 * dst, 2 * src, 2 * n)) == Copy(Chars(mem), dst, src, n)
  {
    var mem', copy := Copy(mem, 2 * dst, 2 * src, 2 * n), Copy(Chars(mem), dst, src, n);
    forall k | 0 <= k < |copy| ensures Chars(mem')[k] == copy[k] {
      var i := 2 * k;
      if dst <= k < dst + n {
        assert mem'[i] == mem[i - 2 * dst + 2 * src];
        assert i - 2 * dst + 2 * src == 2 * (k - dst + src);
      }
    }
  }

  /** Setting one cell's two bytes sets one character. */
  lemma CellOfChars(mem: seq<byte>, i: nat, ch: byte, style: byte)
    requires |mem| % 2 == 0 && i % 2 == 0 && i + 1 < |mem|
    ensures Chars(mem[i := ch][i + 1 := style]) == Chars(mem)[i / 2 := ch]
  {
  }

  class Screen {
    const mem: array<byte>
    var style: byte
    var column: int
    var dispRow: int
    var globRow: int
    var lineShow: int

    ghost predicate Shaped()
      reads this
    {
      mem.Length == VIDEO_BYTES
    }

    function View(): (t: Term)
      reads this, mem
    {
      Term(Chars(mem[..]), column, dispRow, globRow, lineShow)
    }

    ghost predicate Valid()
      reads this, mem
    {
      Shaped() && Sane(View())
    }

    constructor ()
      ensures Valid() && fresh(mem) && View() == Cleared()
    {
      mem := new byte[VIDEO_BYTES](_ => 0);
      style := WHITE_ON_BLACK;
      column, dispRow, globRow, lineShow := 0, 0, 0, 0;
      new;
      assert View().cells == Cleared().cells;
    }

    /** libc memcpy: byte after byte, forwards. */
    method MemCpy(dst: int, src: int, n: nat)
      requires Shaped()
      requires VIDEO_ADDRESS <= dst <= src && src + n <= VIDEO_ADDRESS + VIDEO_BYTES
      requires dst % 2 == 0 && src % 2 == 0 && n % 2 == 0
      modifies mem
      ensures Chars(mem[..]) ==
              Copy(old(Chars(mem[..])), (dst - VIDEO_ADDRESS) / 2, (src - VIDEO_ADDRESS) / 2, n / 2)
    {
      ghost var before := mem[..];
      ghost var d, s, m := (dst - VIDEO_ADDRESS) / 2, (src - VIDEO_ADDRESS) / 2, n / 2;
      assert dst - VIDEO_ADDRESS == 2 * d && src - VIDEO_ADDRESS == 2 * s && n == 2 * m;
      CopyForwards(dst - VIDEO_ADDRESS, src - VIDEO_ADDRESS, n);
      assert mem[..] == Copy(before, 2 * d, 2 * s, 2 * m);
      CopyOfChars(before, d, s, m);
    }

    method CopyForwards(a: nat, b: nat, n: nat)
      requires a <= b && b + n <= mem.Length
      modifies mem
      ensures mem[..] == Copy(old(mem[..]), a, b, n)
    {
      ghost var before := mem[..];
      for i := 0 to n
        invariant forall k :: 0 <= k < a ==> mem[k] == before[k]
        invariant forall k :: a <= k < a + i ==> mem[k] == before[k - a + b]
        invariant forall k :: a + i <= k < mem.Length ==> mem[k] == before[k]
      {
        mem[a + i] := mem[b + i];
      }
      assert mem[..] == Copy(before, a, b, n);
    }

    /** Sets a cell of the display page, or of the history, to a character. */
    method SetCell(i: int, ch: byte)
      requires Shaped() && 0 <= i < VIDEO_BYTES && i % 2 == 0
      modifies mem
      ensures Chars(mem[..]) == old(Chars(mem[..]))[i / 2 := ch]
    {
      CellOfChars(mem[..], i, ch, style);
      mem[i], mem[i + 1] := ch, style;
      assert mem[..] == old(mem[..])[i := ch][i + 1 := style];
    }

    method ClearScreen()
      requires Shaped()
      modifies this, mem
      ensures Valid() && View() == Cleared()
    {
      column := 0;
      dispRow := 0;
      globRow := 0;
      lineShow := 0;
      var i := 0;
      while i < 8 * 80 * 25 * 2
        invariant 0 <= i <= VIDEO_BYTES && i % 2 == 0
        invariant forall k :: 0 <= k < i && k % 2 == 0 ==> mem[k] == 0
        invariant column == 0 && dispRow == 0 && globRow == 0 && lineShow == 0
      {
        mem[i] := 0;
        mem[i + 1] := style;
        i := i + 2;
      }
      assert View().cells == Cleared().cells;
    }

    method EraseLastLine()
      requires Shaped()
      modifies mem
      ensures Chars(mem[..]) == Blank(old(Chars(mem[..])), PAGE - COLS, COLS)
    {
      var lineStart := 24 * 160;
      var i := 0;
      while i < 160
        invariant 0 <= i <= 160 && i % 2 == 0
        invariant forall k :: 0 <= k < mem.Length && k % 2 == 0 ==>
                    mem[k] == if lineStart <= k < lineStart + i then 0 else old(mem[k])
      {
        mem[lineStart + i] := 0;
        mem[lineStart + i + 1] := style;
        i := i + 2;
      }
      assert Chars(mem[..]) == Blank(old(Chars(mem[..])), PAGE - COLS, COLS);
    }

    method DropOldestPage()
      requires Shaped()
      modifies this, mem
      ensures View() == Terminal.DropOldestPage(old(View())) && style == old(style)
    {
      MemCpy(BACKUP_ADDRESS, BACKUP_ADDRESS + 4000, 18000);
      globRow := globRow - 25;
      lineShow := lineShow - 25;
    }

    method ScrollLineDown()
      requires Shaped()
      requires 0 <= globRow < 175 && dispRow == Min(24, globRow) && lineShow == Bottom(globRow)
      modifies this, mem
      ensures Valid() && View() == Terminal.ScrollLineDown(old(View()))
    {
      column := 0;
      globRow := globRow + 1;
      if globRow == 175 {
        DropOldestPage();
      }
      if dispRow == 24 {
        MemCpy(VIDEO_ADDRESS, VIDEO_ADDRESS + 160, 24 * 160);
        lineShow := lineShow + 1;
        EraseLastLine();
      } else {
        dispRow := dispRow + 1;
      }
    }

    /** Pastes 25 lines of the history, from `line` on, on the display. */
    method ShowHistory(line: int)
      requires Shaped() && -24 <= line <= 150
      modifies mem
      ensures Chars(mem[..]) == Copy(old(Chars(mem[..])), 0, PAGE + line * COLS, PAGE)
    {
      var src := BACKUP_ADDRESS + line * 160;
      var dst := VIDEO_ADDRESS;
      MemCpy(dst, src, 25 * 160);
    }

    method ScrollLineUp()
      requires Shaped()
      requires 0 < globRow < 175 && dispRow == Min(24, globRow) && lineShow == Bottom(globRow)
      modifies this, mem
      ensures Valid() && View() == Terminal.ScrollLineUp(old(View()))
    {
      if dispRow == 24 && globRow >= 25 {
        ShowHistory(globRow - 25);
        lineShow := lineShow - 1;
      } else {
        dispRow := dispRow - 1;
      }
      column := 158;
      globRow := globRow - 1;
    }

    method ScrollPageUp()
      requires Valid()
      modifies this, mem
      ensures Valid() && View() == Terminal.ScrollPageUp(old(View()))
    {
      var line := if lineShow - 25 < 0 then 0 else lineShow - 25;
      lineShow := line;
      ShowHistory(line);
    }

    method ScrollPageDown()
      requires Valid()
      modifies this, mem
      ensures Valid() && View() == Terminal.ScrollPageDown(old(View()))
    {
      var line := if lineShow + 25 > globRow - 24 then globRow - 24 else lineShow + 25;
      lineShow := line;
      ShowHistory(line);
    }

    method ScrollPageBack()
      requires Valid()
      modifies this, mem
      ensures Valid() && View() == Terminal.ScrollPageBack(old(View()))
    {
      var line := if globRow - 24 < 0 then 0 else globRow - 24;
      if lineShow != line {
        lineShow := line;
        ShowHistory(line);
      }
    }

    method PutChar(ch: byte)
      requires Valid()
      modifies this, mem
      ensures Valid() && View() == Terminal.PutChar(old(View()), ch)
    {
      var dispOffset := dispRow * 160 + column;
      var globOffset := globRow * 160 + column;

      ScrollPageBack();
      ghost var back := View();

      if ch == NEWLINE {
        ScrollLineDown();
        return;
      }

      SetCell(BACKUP_ADDRESS - VIDEO_ADDRESS + globOffset, ch);
      SetCell(dispOffset, ch);

      column := column + 2;
      assert View() == PutAtCursor(back, ch);
      if column == 160 {
        ScrollLineDown();
      }
    }

    method DelChar()
      requires Valid()
      modifies this, mem
      ensures Valid() && View() == Terminal.DelChar(old(View()))
    {
      var dispOffset := dispRow * 160 + column - 2;
      var globOffset := globRow * 160 + column - 2;

      ScrollPageBack();
      ghost var back := View();

      if dispOffset >= 0 {
        SetCell(BACKUP_ADDRESS - VIDEO_ADDRESS + globOffset, 0);
        SetCell(dispOffset, 0);

        column := column - 2;
        assert View() == EraseBeforeCursor(back);
        if column < 0 {
          ScrollLineUp();
        }
      }
    }

    /** printStr of drivers/iobuffers.c: `length` characters, none if it is negative. */
    method PrintStr(buffer: seq<byte>, length: int)
      requires Valid() && length <= |buffer|
      modifies this, mem
      ensures Valid() && View() == PutAll(old(View()), buffer[..Max(0, length)])
    {
      ghost var start, text := View(), [];
      var i := 0;
      while i < length
        invariant 0 <= i <= Max(0, length) && text == buffer[..i]
        invariant Valid() && View() == PutAll(start, text)
      {
        PutAllSnoc(start, text, buffer[i]);
        PutChar(buffer[i]);
        i, text := i + 1, text + [buffer[i]];
      }
      assert i == Max(0, length);
      assert text == buffer[..Max(0, length)];
    }
  }
}
