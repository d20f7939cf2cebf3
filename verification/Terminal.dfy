/** drivers/screen.c as a state machine on values, and its meaning: a window on
    an unbounded log of 80-column rows.

    Video memory is 8 pages of 25 rows of 80 cells. Page 0 is what the screen
    shows; the other 7 pages (175 rows) are the history. Only the character of
    each cell is kept here; Screen.dfy keeps the attribute bytes as well. */
module Terminal {
  import opened Words

  const COLS := 80
  const PAGE := 2000     // cells of one page
  const HISTORY := 14000 // cells of the seven backup pages
  const CELLS := 16000

  /** `column` counts bytes, two to a cell, as the source does. */
  datatype Term = Term(cells: seq<byte>, column: int, dispRow: int, globRow: int, lineShow: int)

  function Max(a: int, b: int): int { if a < b then b else a }
  function Min(a: int, b: int): int { if a < b then a else b }

  // ---------------------------------------------------------------- operations

  /** A forward cell-by-cell copy. With `dst <= src` the source cells are read
      before they are overwritten, even where the two ranges overlap. */
  function Copy(s: seq<byte>, dst: nat, src: nat, n: nat): (r: seq<byte>)
    requires dst <= src && src + n <= |s|
    ensures |r| == |s|
    ensures forall k :: 0 <= k < |s| ==> r[k] == if dst <= k < dst + n then s[k - dst + src] else s[k]
  {
    s[..dst] + s[src..src + n] + s[dst + n..]
  }

  function Blank(s: seq<byte>, from: nat, n: nat): (r: seq<byte>)
    requires from + n <= |s|
    ensures |r| == |s|
    ensures forall k :: 0 <= k < |s| ==> r[k] == if from <= k < from + n then 0 else s[k]
  {
    s[..from] + seq(n, _ => 0) + s[from + n..]
  }

  /** What holds of the counters in every state, however long the run. */
  ghost predicate Sane(t: Term) {
    && |t.cells| == CELLS
    && 0 <= t.column < 160 && t.column % 2 == 0
    && 0 <= t.globRow < 175
    && t.dispRow == Min(24, t.globRow)
    && Min(0, t.globRow - 24) <= t.lineShow <= Max(0, t.globRow - 24)
  }

  function Cleared(): (t: Term)
    ensures Sane(t)
  {
    Term(seq(CELLS, _ => 0), 0, 0, 0, 0)
  }

  /** Copies 25 history rows, from row `line` on, to the display page. A negative
      `line` starts the copy inside the display page itself. */
  function Show(t: Term, line: int): (r: Term)
    requires |t.cells| == CELLS && -24 <= line <= 150
    ensures |r.cells| == CELLS
  {
    t.(cells := Copy(t.cells, 0, PAGE + line * COLS, PAGE), lineShow := line)
  }

  function ScrollPageUp(t: Term): (r: Term)
    requires Sane(t)
    ensures Sane(r)
  {
    Show(t, Max(0, t.lineShow - 25))
  }

  function ScrollPageDown(t: Term): (r: Term)
    requires Sane(t)
    ensures Sane(r)
  {
    Show(t, Min(t.globRow - 24, t.lineShow + 25))
  }

  function Bottom(globRow: int): int { Max(0, globRow - 24) }

  function ScrollPageBack(t: Term): (r: Term)
    requires Sane(t)
    ensures Sane(r) && r.lineShow == Bottom(r.globRow)
  {
    if t.lineShow != Bottom(t.globRow) then Show(t, Bottom(t.globRow)) else t
  }

  /** The history shift: 18000 bytes, that is 9000 cells, move down by one page. */
  function DropOldestPage(t: Term): (r: Term)
    requires |t.cells| == CELLS
    ensures |r.cells| == CELLS
  {
    t.(cells := Copy(t.cells, PAGE, 2 * PAGE, 9000), globRow := t.globRow - 25, lineShow := t.lineShow - 25)
  }

  function ScrollLineDown(t: Term): (r: Term)
    requires |t.cells| == CELLS
    requires 0 <= t.globRow < 175 && t.dispRow == Min(24, t.globRow) && t.lineShow == Bottom(t.globRow)
    ensures Sane(r) && r.lineShow == Bottom(r.globRow)
  {
    var down := t.(column := 0, globRow := t.globRow + 1);
    var fit := if down.globRow == 175 then DropOldestPage(down) else down;
    if fit.dispRow == 24 then
      fit.(cells := Blank(Copy(fit.cells, 0, COLS, PAGE - COLS), PAGE - COLS, COLS), lineShow := fit.lineShow + 1)
    else
      fit.(dispRow := fit.dispRow + 1)
  }

  function ScrollLineUp(t: Term): (r: Term)
    requires |t.cells| == CELLS
    requires 0 < t.globRow < 175 && t.dispRow == Min(24, t.globRow) && t.lineShow == Bottom(t.globRow)
    ensures Sane(r) && r.lineShow == Bottom(r.globRow)
  {
    var up := if t.dispRow == 24 && t.globRow >= 25
              then Show(t, t.globRow - 25)
              else t.(dispRow := t.dispRow - 1);
    up.(column := 158, globRow := t.globRow - 1)
  }

  /** Writes one character to the display page and to the history. */
  function Write(t: Term, disp: nat, glob: nat, ch: byte): (r: Term)
    requires |t.cells| == CELLS && disp < PAGE && glob < HISTORY
    ensures |r.cells| == CELLS
  {
    t.(cells := t.cells[PAGE + glob := ch][disp := ch])
  }

  /** Offset of the cursor's cell on the display page. */
  function DispOffset(t: Term): int { t.dispRow * COLS + t.column / 2 }

  /** Offset of the cursor's cell in the history. */
  function Cursor(t: Term): int { t.globRow * COLS + t.column / 2 }

  function PutAtCursor(t: Term, ch: byte): (r: Term)
    requires Sane(t)
    ensures |r.cells| == CELLS
  {
    Write(t, DispOffset(t), Cursor(t), ch).(column := t.column + 2)
  }

  function PutChar(t: Term, ch: byte): (r: Term)
    requires Sane(t)
    ensures Sane(r)
  {
    var back := ScrollPageBack(t);
    if ch == NEWLINE then
      ScrollLineDown(back)
    else
      var put := PutAtCursor(back, ch);
      if put.column == 160 then ScrollLineDown(put) else put
  }

  function EraseBeforeCursor(t: Term): (r: Term)
    requires Sane(t) && DispOffset(t) > 0
    ensures |r.cells| == CELLS
  {
    Write(t, DispOffset(t) - 1, Cursor(t) - 1, 0).(column := t.column - 2)
  }

  function DelChar(t: Term): (r: Term)
    requires Sane(t)
    ensures Sane(r)
  {
    var back := ScrollPageBack(t);
    if DispOffset(t) - 1 < 0 then back
    else
      var del := EraseBeforeCursor(back);
      if del.column < 0 then ScrollLineUp(del) else del
  }

  datatype Op = Clear | Put(ch: byte) | Del | PageUp | PageDown

  function Step(t: Term, op: Op): (r: Term)
    requires Sane(t)
    ensures Sane(r)
  {
    match op
    case Clear => Cleared()
    case Put(ch) => PutChar(t, ch)
    case Del => DelChar(t)
    case PageUp => ScrollPageUp(t)
    case PageDown => ScrollPageDown(t)
  }

  function RunFrom(t: Term, ops: seq<Op>): (r: Term)
    requires Sane(t)
    ensures Sane(r)
  {
    if ops == [] then t else Step(RunFrom(t, ops[..|ops| - 1]), ops[|ops| - 1])
  }

  function Run(ops: seq<Op>): (t: Term)
    ensures Sane(t)
  {
    RunFrom(Cleared(), ops)
  }

  // ------------------------------------------------------------- the simple model

  /** The unbounded log, row after row. Its length is the cursor: row
      `|log| / 80`, column `|log| % 80`. A newline fills the row up with zeros. */
  function LogPut(log: seq<byte>, ch: byte): (r: seq<byte>)
    ensures |r| > |log| && r[..|log|] == log
  {
    if ch == NEWLINE then log + seq(COLS - |log| % COLS, _ => 0) else log + [ch]
  }

  function LogStep(log: seq<byte>, op: Op): seq<byte> {
    match op
    case Clear => []
    case Put(ch) => LogPut(log, ch)
    case Del => if log == [] then [] else log[..|log| - 1]
    case PageUp => log
    case PageDown => log
  }

  function LogOf(ops: seq<Op>): seq<byte> {
    if ops == [] then [] else LogStep(LogOf(ops[..|ops| - 1]), ops[|ops| - 1])
  }

  /** The log's cell `k`; cells not written yet are blank. */
  function At(log: seq<byte>, k: nat): byte {
    if k < |log| then log[k] else 0
  }

  ghost predicate ShowsLog(t: Term, log: seq<byte>, line: nat)
    requires |t.cells| == CELLS
  {
    forall k :: 0 <= k < PAGE ==> t.cells[k] == At(log, line * COLS + k)
  }

  ghost predicate HistoryIsLog(t: Term, log: seq<byte>)
    requires |t.cells| == CELLS
  {
    forall k {:trigger At(log, k)} {:trigger t.cells[PAGE + k]} :: 0 <= k < HISTORY ==> t.cells[PAGE + k] == At(log, k)
  }

  /** The terminal state says exactly what the log says. */
  ghost predicate Faithful(t: Term, log: seq<byte>) {
    && Sane(t)
    && |log| < HISTORY
    && t.globRow == |log| / COLS
    && t.column == 2 * (|log| % COLS)
    && HistoryIsLog(t, log)
    && (t.lineShow >= 0 ==> ShowsLog(t, log, t.lineShow))
  }

  // -------------------------------------------- every run before the history fills

  lemma ShowIsFaithful(t: Term, log: seq<byte>, line: int)
    requires Faithful(t, log)
    requires Min(0, t.globRow - 24) <= line <= Bottom(t.globRow)
    ensures Faithful(Show(t, line), log)
  {
    var r := Show(t, line);
    if line >= 0 {
      forall k | 0 <= k < PAGE ensures r.cells[k] == At(log, line * COLS + k) {
        assert t.cells[PAGE + (line * COLS + k)] == At(log, line * COLS + k);
      }
    }
  }

  lemma BackIsFaithful(t: Term, log: seq<byte>)
    requires Faithful(t, log)
    ensures Faithful(ScrollPageBack(t), log)
  {
    ShowIsFaithful(t, log, Bottom(t.globRow));
  }

  lemma CursorIsLogEnd(t: Term, log: seq<byte>)
    requires Sane(t)
    ensures |log| == Cursor(t) <==> t.globRow == |log| / COLS && t.column == 2 * (|log| % COLS)
  {
  }

  lemma FaithfulAtCursor(t: Term, log: seq<byte>)
    requires Sane(t) && t.lineShow >= 0 && |log| == Cursor(t)
    requires HistoryIsLog(t, log) && ShowsLog(t, log, t.lineShow)
    ensures Faithful(t, log)
  {
    CursorIsLogEnd(t, log);
  }

  lemma PutAtCursorShowsLog(t: Term, log: seq<byte>, ch: byte)
    requires Faithful(t, log) && t.lineShow == Bottom(t.globRow)
    ensures var put := PutAtCursor(t, ch);
            HistoryIsLog(put, log + [ch]) && ShowsLog(put, log + [ch], t.lineShow)
  {
    CursorIsLogEnd(t, log);
    assert forall k: nat :: At(log + [ch], k) == if k == |log| then ch else At(log, k);
  }

  lemma EraseShowsLog(t: Term, log: seq<byte>)
    requires Faithful(t, log) && t.lineShow == Bottom(t.globRow) && DispOffset(t) > 0
    ensures |log| == Cursor(t) > 0
    ensures var del, log' := EraseBeforeCursor(t), log[..|log| - 1];
            HistoryIsLog(del, log') && ShowsLog(del, log', t.lineShow)
  {
    CursorIsLogEnd(t, log);
    var log' := log[..|log| - 1];
    assert forall k: nat :: At(log', k) == if k == |log'| then 0 else At(log, k);
  }

  lemma LineDownIsFaithful(t: Term, log: seq<byte>)
    requires |t.cells| == CELLS && 0 <= t.globRow < 174
    requires t.dispRow == Min(24, t.globRow) && t.lineShow == Bottom(t.globRow)
    requires HistoryIsLog(t, log) && ShowsLog(t, log, t.lineShow)
    requires |log| == (t.globRow + 1) * COLS
    ensures Faithful(ScrollLineDown(t), log)
  {
    if t.dispRow == 24 {
      LineDownScrolls(t, log);
    }
  }

  lemma LineDownScrolls(t: Term, log: seq<byte>)
    requires |t.cells| == CELLS && 24 <= t.globRow < 174
    requires t.dispRow == 24 && t.lineShow == Bottom(t.globRow)
    requires ShowsLog(t, log, t.lineShow) && |log| == (t.globRow + 1) * COLS
    ensures ShowsLog(ScrollLineDown(t), log, t.lineShow + 1)
  {
    var r := ScrollLineDown(t);
    forall k | 0 <= k < PAGE ensures r.cells[k] == At(log, (t.lineShow + 1) * COLS + k) {
      if k < PAGE - COLS {
        assert r.cells[k] == t.cells[k + COLS] == At(log, t.lineShow * COLS + (k + COLS));
      }
    }
  }

  lemma PutIsFaithful(t: Term, log: seq<byte>, ch: byte)
    requires Faithful(t, log) && |LogPut(log, ch)| < HISTORY
    ensures Faithful(PutChar(t, ch), LogPut(log, ch))
  {
    var back, log' := ScrollPageBack(t), LogPut(log, ch);
    BackIsFaithful(t, log);
    CursorIsLogEnd(back, log);
    if ch == NEWLINE {
      assert forall k: nat :: At(log', k) == At(log, k);
      LineDownIsFaithful(back, log');
    } else {
      PutAtCursorShowsLog(back, log, ch);
      if t.column == 158 {
        LineDownIsFaithful(PutAtCursor(back, ch), log');
      } else {
        FaithfulAtCursor(PutAtCursor(back, ch), log');
      }
    }
  }

  lemma LineUpIsFaithful(t: Term, log: seq<byte>)
    requires |t.cells| == CELLS && 0 < t.globRow < 175
    requires t.dispRow == Min(24, t.globRow) && t.lineShow == Bottom(t.globRow)
    requires HistoryIsLog(t, log) && ShowsLog(t, log, t.lineShow)
    requires |log| == t.globRow * COLS - 1
    ensures Faithful(ScrollLineUp(t), log)
  {
    if t.dispRow == 24 && t.globRow >= 25 {
      var line, r := t.globRow - 25, ScrollLineUp(t);
      forall k | 0 <= k < PAGE ensures r.cells[k] == At(log, line * COLS + k) {
        assert t.cells[PAGE + (line * COLS + k)] == At(log, line * COLS + k);
      }
    }
  }

  lemma DelIsFaithful(t: Term, log: seq<byte>)
    requires Faithful(t, log)
    ensures Faithful(DelChar(t), LogStep(log, Del))
  {
    var back := ScrollPageBack(t);
    BackIsFaithful(t, log);
    CursorIsLogEnd(back, log);
    if log != [] {
      EraseShowsLog(back, log);
      if t.column == 0 {
        LineUpIsFaithful(EraseBeforeCursor(back), log[..|log| - 1]);
      } else {
        FaithfulAtCursor(EraseBeforeCursor(back), log[..|log| - 1]);
      }
    }
  }

  lemma StepIsFaithful(t: Term, log: seq<byte>, op: Op)
    requires Faithful(t, log) && |LogStep(log, op)| < HISTORY
    ensures Faithful(Step(t, op), LogStep(log, op))
  {
    match op
    case Clear =>
    case Put(ch) => PutIsFaithful(t, log, ch);
    case Del => DelIsFaithful(t, log);
    case PageUp => ShowIsFaithful(t, log, Max(0, t.lineShow - 25));
    case PageDown => ShowIsFaithful(t, log, Min(t.globRow - 24, t.lineShow + 25));
  }

  /** No prefix of the run reaches the 175th row. */
  ghost predicate NeverFills(ops: seq<Op>) {
    forall n :: 0 <= n <= |ops| ==> |LogOf(ops[..n])| < HISTORY
  }

  /** Every run of puts, deletions and paging that does not fill the history
      leaves a terminal that says what the log says. */
  lemma {:induction false} RunIsFaithful(ops: seq<Op>)
    requires NeverFills(ops)
    ensures Faithful(Run(ops), LogOf(ops))
  {
    if ops != [] {
      var before := ops[..|ops| - 1];
      assert forall n :: 0 <= n <= |before| ==> before[..n] == ops[..n];
      assert ops[..|ops|] == ops;
      RunIsFaithful(before);
      StepIsFaithful(Run(before), LogOf(before), ops[|ops| - 1]);
    }
  }

  /** What that means cell by cell: the display repeats the history at
      `lineShow`, and nothing lies at or after the cursor. */
  lemma RunMirrors(ops: seq<Op>)
    requires NeverFills(ops)
    ensures var t := Run(ops);
            && (t.lineShow >= 0 ==> t.cells[..PAGE] == t.cells[PAGE + t.lineShow * COLS..][..PAGE])
            && Cursor(t) == |LogOf(ops)|
            && (t.lineShow == Bottom(t.globRow) ==>
                  t.lineShow * COLS + DispOffset(t) == Cursor(t))
            && t.cells[PAGE..][..Cursor(t)] == LogOf(ops)
            && forall k :: PAGE + Cursor(t) <= k < CELLS ==> t.cells[k] == 0
  {
    RunIsFaithful(ops);
    var t, log := Run(ops), LogOf(ops);
    if t.lineShow >= 0 {
      forall k | 0 <= k < PAGE ensures t.cells[k] == t.cells[PAGE + (t.lineShow * COLS + k)] {
        assert t.cells[PAGE + (t.lineShow * COLS + k)] == At(log, t.lineShow * COLS + k);
      }
    }
    forall k | PAGE + Cursor(t) <= k < CELLS ensures t.cells[k] == 0 {
      assert t.cells[PAGE + (k - PAGE)] == At(log, k - PAGE);
    }
    forall k | 0 <= k < Cursor(t) ensures t.cells[PAGE + k] == log[k] {
      assert t.cells[PAGE + k] == At(log, k);
    }
  }

  /** Exactly when `lineShow` is negative: right after a page down on a screen not yet full. */
  lemma NegativeLineIff(ops: seq<Op>)
    ensures Run(ops).lineShow < 0
            <==> ops != [] && ops[|ops| - 1].PageDown? && Run(ops[..|ops| - 1]).globRow < 24
  {
  }

  /** So after every other run the display shows the log. */
  lemma DisplayShowsLog(ops: seq<Op>)
    requires NeverFills(ops)
    requires ops != [] && ops[|ops| - 1].PageDown? ==> |LogOf(ops)| >= 24 * COLS
    ensures Run(ops).lineShow >= 0 && ShowsLog(Run(ops), LogOf(ops), Run(ops).lineShow)
  {
    RunIsFaithful(ops);
    NegativeLineIff(ops);
  }

  /** Page down on a screen not yet full moves the text to the bottom of the screen. */
  lemma PageDownDropsText(t: Term, log: seq<byte>)
    requires Faithful(t, log) && t.lineShow == 0 && t.globRow < 24
    ensures var above := (24 - t.globRow) * COLS;
            forall k :: 0 <= k < PAGE ==>
              ScrollPageDown(t).cells[k] == if k < above then 0 else At(log, k - above)
  {
    var r, above := ScrollPageDown(t), (24 - t.globRow) * COLS;
    forall k | 0 <= k < PAGE
      ensures r.cells[k] == if k < above then 0 else At(log, k - above)
    {
      if k < above {
        assert r.cells[k] == t.cells[k + PAGE - above] == At(log, k + PAGE - above);
      } else {
        assert r.cells[k] == t.cells[PAGE + (k - above)] == At(log, k - above);
      }
    }
  }

  /** One character typed on a cleared screen and page down pressed: it is on the last row. */
  lemma PageDownMovesCharacter(ch: byte)
    requires ch != NEWLINE && ch != 0
    ensures var t := PutChar(Cleared(), ch);
            && t.cells[0] == ch == ScrollPageDown(t).cells[24 * COLS]
            && t.cells[24 * COLS] == 0 == ScrollPageDown(t).cells[0]
  {
    PutIsFaithful(Cleared(), [], ch);
    var t := PutChar(Cleared(), ch);
    assert At([ch], 0) == ch && At([ch], 24 * COLS) == 0;
    PageDownDropsText(t, [ch]);
  }

  // ---------------------------------------------------- paging is invisible to typing

  ghost predicate OnlyPages(ops: seq<Op>) {
    forall op :: op in ops ==> op.PageUp? || op.PageDown?
  }

  lemma {:induction false} PagesKeepFaithful(t: Term, log: seq<byte>, pages: seq<Op>)
    requires Faithful(t, log) && OnlyPages(pages)
    ensures Faithful(RunFrom(t, pages), log)
  {
    if pages != [] {
      var before, last := pages[..|pages| - 1], pages[|pages| - 1];
      PagesKeepFaithful(t, log, before);
      assert last in pages && LogStep(log, last) == log;
      StepIsFaithful(RunFrom(t, before), log, last);
    }
  }

  /** Two terminals that say the same thing are the same terminal once the
      typing position is shown again. */
  lemma BackForgetsPaging(t: Term, u: Term, log: seq<byte>)
    requires Faithful(t, log) && Faithful(u, log)
    ensures ScrollPageBack(t) == ScrollPageBack(u)
  {
    BackIsFaithful(t, log);
    BackIsFaithful(u, log);
    var t', u' := ScrollPageBack(t), ScrollPageBack(u);
    forall k | 0 <= k < CELLS ensures t'.cells[k] == u'.cells[k] {
      if k >= PAGE {
        assert t'.cells[PAGE + (k - PAGE)] == At(log, k - PAGE) == u'.cells[PAGE + (k - PAGE)];
      }
    }
    assert t'.cells == u'.cells;
  }

  /** Any amount of paging before a key leaves the key's effect as it was, even
      when paging has made `lineShow` negative, and even when the key is the one
      that fills the history. */
  lemma PagingIsInvisible(ops: seq<Op>, pages: seq<Op>, op: Op)
    requires NeverFills(ops) && OnlyPages(pages) && (op.Put? || op.Del?)
    ensures Step(RunFrom(Run(ops), pages), op) == Step(Run(ops), op)
  {
    RunIsFaithful(ops);
    PagesKeepFaithful(Run(ops), LogOf(ops), pages);
    BackForgetsPaging(Run(ops), RunFrom(Run(ops), pages), LogOf(ops));
  }

  // ---------------------------------------------------------------- how far paging goes

  function Times(n: nat, op: Op): (ops: seq<Op>)
    ensures |ops| == n && forall i :: 0 <= i < n ==> ops[i] == op
  {
    seq(n, _ => op)
  }

  /** Page up goes back 25 rows at a time, as far as row 0. */
  lemma {:induction false} PageUpsGoBack(t: Term, n: nat)
    requires Sane(t) && t.lineShow >= 0
    ensures var r := RunFrom(t, Times(n, PageUp));
            r.lineShow == (if t.lineShow >= 25 * n then t.lineShow - 25 * n else 0) && r.globRow == t.globRow
  {
    if n > 0 {
      assert Times(n, PageUp)[..n - 1] == Times(n - 1, PageUp);
      PageUpsGoBack(t, n - 1);
    }
  }

  /** Page down goes on 25 rows at a time, as far as the page that ends with the cursor's row. */
  lemma {:induction false} PageDownsGoOn(t: Term, n: nat)
    requires Sane(t) && n > 0
    ensures var r := RunFrom(t, Times(n, PageDown));
            && r.lineShow == (if t.lineShow + 25 * n <= t.globRow - 24 then t.lineShow + 25 * n else t.globRow - 24)
            && r.globRow == t.globRow
  {
    assert Times(n, PageDown)[..n - 1] == Times(n - 1, PageDown);
    if n > 1 {
      PageDownsGoOn(t, n - 1);
    } else {
      assert RunFrom(t, Times(0, PageDown)) == t;
    }
  }

  /** Two pages shown of the same history at the same line are the same state. */
  lemma SamePage(t: Term, u: Term, log: seq<byte>)
    requires Faithful(t, log) && Faithful(u, log) && t.lineShow == u.lineShow >= 0
    ensures t == u
  {
    forall k | 0 <= k < CELLS ensures t.cells[k] == u.cells[k] {
      if k < PAGE {
        assert t.cells[k] == At(log, t.lineShow * COLS + k) == u.cells[k];
      } else {
        assert t.cells[PAGE + (k - PAGE)] == At(log, k - PAGE) == u.cells[PAGE + (k - PAGE)];
      }
    }
    assert t.cells == u.cells;
  }

  /** Page down undoes page up, and page up page down, wherever neither stops short. */
  lemma PagingGoesBackAndForth(ops: seq<Op>)
    requires NeverFills(ops)
    ensures var t := Run(ops);
            && (t.lineShow >= 25 ==> RunFrom(t, [PageUp, PageDown]) == t)
            && (0 <= t.lineShow <= t.globRow - 49 ==> RunFrom(t, [PageDown, PageUp]) == t)
  {
    var t, log := Run(ops), LogOf(ops);
    RunIsFaithful(ops);
    TwoSteps(t, PageUp, PageDown);
    TwoSteps(t, PageDown, PageUp);
    PagesKeepFaithful(t, log, [PageUp, PageDown]);
    PagesKeepFaithful(t, log, [PageDown, PageUp]);
    if t.lineShow >= 25 {
      SamePage(t, RunFrom(t, [PageUp, PageDown]), log);
    }
    if 0 <= t.lineShow <= t.globRow - 49 {
      SamePage(t, RunFrom(t, [PageDown, PageUp]), log);
    }
  }

  lemma TwoSteps(t: Term, a: Op, b: Op)
    requires Sane(t)
    ensures RunFrom(t, [a, b]) == Step(Step(t, a), b)
  {
    assert [a, b][..1] == [a] && [a][..0] == [];
    assert RunFrom(t, [a]) == Step(RunFrom(t, []), a);
  }

  // ------------------------------------------------------- typing, for runs of any length

  function PutAll(t: Term, text: seq<byte>): (r: Term)
    requires Sane(t)
    ensures Sane(r)
  {
    if text == [] then t else PutChar(PutAll(t, text[..|text| - 1]), text[|text| - 1])
  }

  lemma PutAllSnoc(t: Term, text: seq<byte>, ch: byte)
    requires Sane(t)
    ensures PutAll(t, text + [ch]) == PutChar(PutAll(t, text), ch)
  {
    assert (text + [ch])[..|text|] == text;
  }

  function LogPutAll(log: seq<byte>, text: seq<byte>): (r: seq<byte>) {
    if text == [] then log else LogPut(LogPutAll(log, text[..|text| - 1]), text[|text| - 1])
  }

  /** The history row the cursor is on when the log has `rows` full rows: it
      counts up to 174 and from then on cycles through the last page. */
  function HistoryRow(rows: nat): int {
    if rows < 175 then rows else 150 + rows % 25
  }

  /** A state reached by typing alone. The display is the window on the log's
      last 25 rows; of the history nothing is said. */
  ghost predicate Typed(t: Term, log: seq<byte>) {
    && Sane(t)
    && t.globRow == HistoryRow(|log| / COLS)
    && t.column == 2 * (|log| % COLS)
    && t.lineShow == Bottom(t.globRow)
    && ShowsLog(t, log, Bottom(|log| / COLS))
  }

  lemma TypedLineDown(t: Term, log: seq<byte>, rows: nat)
    requires |t.cells| == CELLS && t.globRow == HistoryRow(rows)
    requires t.dispRow == Min(24, t.globRow) && t.lineShow == Bottom(t.globRow)
    requires ShowsLog(t, log, Bottom(rows)) && |log| == (rows + 1) * COLS
    ensures Typed(ScrollLineDown(t), log)
  {
    var r := ScrollLineDown(t);
    assert |log| / COLS == rows + 1 && |log| % COLS == 0;
    if t.dispRow == 24 {
      forall k | 0 <= k < PAGE ensures r.cells[k] == At(log, Bottom(rows + 1) * COLS + k) {
        LineDownScrollsCell(t, k);
        if k < PAGE - COLS {
          assert t.cells[k + COLS] == At(log, Bottom(rows) * COLS + (k + COLS));
        }
      }
    }
  }

  /** On the last row the display moves up by one row. */
  lemma LineDownScrollsCell(t: Term, k: nat)
    requires |t.cells| == CELLS && 0 <= t.globRow < 175 && t.dispRow == 24 <= t.globRow
    requires t.lineShow == Bottom(t.globRow) && k < PAGE
    ensures ScrollLineDown(t).cells[k] == if k < PAGE - COLS then t.cells[k + COLS] else 0
  {
    var down := t.(column := 0, globRow := t.globRow + 1);
    var fit := if down.globRow == 175 then DropOldestPage(down) else down;
    assert k < PAGE - COLS ==> fit.cells[k + COLS] == t.cells[k + COLS];
  }

  lemma TypedNewline(t: Term, log: seq<byte>)
    requires Typed(t, log)
    ensures Typed(PutChar(t, NEWLINE), LogPut(log, NEWLINE))
  {
    var rows, log' := |log| / COLS, LogPut(log, NEWLINE);
    assert |log| == rows * COLS + |log| % COLS;
    assert forall k: nat :: At(log', k) == At(log, k);
    TypedLineDown(t, log', rows);
  }

  lemma TypedAtCursor(t: Term, log: seq<byte>, ch: byte)
    requires Typed(t, log)
    ensures ShowsLog(PutAtCursor(t, ch), log + [ch], Bottom(|log| / COLS))
  {
    assert forall k: nat :: At(log + [ch], k) == if k == |log| then ch else At(log, k);
    assert |log| == Bottom(|log| / COLS) * COLS + DispOffset(t);
  }

  lemma TypedPut(t: Term, log: seq<byte>, ch: byte)
    requires Typed(t, log)
    ensures Typed(PutChar(t, ch), LogPut(log, ch))
  {
    if ch == NEWLINE {
      TypedNewline(t, log);
    } else {
      TypedAtCursor(t, log, ch);
      var put := PutAtCursor(t, ch);
      if put.column == 160 {
        TypedLineDown(put, log + [ch], |log| / COLS);
      }
    }
  }

  /** Whatever is typed after a clear, and however often the history shifts, the
      display is the last 25 rows of the unbounded log. */
  lemma {:induction false} TypingShowsLogEnd(text: seq<byte>)
    ensures Typed(PutAll(Cleared(), text), LogPutAll([], text))
  {
    if text != [] {
      TypingShowsLogEnd(text[..|text| - 1]);
      TypedPut(PutAll(Cleared(), text[..|text| - 1]), LogPutAll([], text[..|text| - 1]), text[|text| - 1]);
    }
  }

  // --------------------------------------------------- what is lost when the history fills

  /** History cell `k - PAGE` comes from a page further on, or stays. */
  lemma LineDownShiftsCell(t: Term, k: nat)
    requires |t.cells| == CELLS && t.globRow == 174 && t.dispRow == 24 && t.lineShow == 150 && PAGE <= k < CELLS
    ensures ScrollLineDown(t).cells[k] == t.cells[if k < PAGE + 9000 then PAGE + k else k]
  {
    var fit := DropOldestPage(t.(column := 0, globRow := 175));
    assert ScrollLineDown(t).cells[k] == fit.cells[k];
  }

  lemma ShiftedLogCell(t: Term, log: seq<byte>, k: nat)
    requires |t.cells| == CELLS && t.globRow == 174 && t.dispRow == 24 && t.lineShow == 150 && PAGE <= k < CELLS
    requires HistoryIsLog(t, log)
    ensures ScrollLineDown(t).cells[k] == At(log, if k < PAGE + 9000 then k else k - PAGE)
  {
    var from := if k < PAGE + 9000 then k else k - PAGE;
    LineDownShiftsCell(t, k);
    assert t.cells[PAGE + from] == At(log, from);
  }

  lemma LineDownShifts(t: Term, log: seq<byte>)
    requires |t.cells| == CELLS && t.globRow == 174 && t.dispRow == 24 && t.lineShow == 150
    requires HistoryIsLog(t, log)
    ensures var r := ScrollLineDown(t);
            && r.globRow == 150 && r.column == 0 && r.dispRow == 24 && r.lineShow == 126
            && forall k :: PAGE <= k < CELLS ==>
                 r.cells[k] == At(log, if k < PAGE + 9000 then k else k - PAGE)
  {
    forall k | PAGE <= k < CELLS
      ensures ScrollLineDown(t).cells[k] == At(log, if k < PAGE + 9000 then k else k - PAGE)
    {
      ShiftedLogCell(t, log, k);
    }
  }

  /** The character that fills the history. The shift moves 112.5 rows down by a
      page; everything behind them stays where it was. */
  lemma FillShifts(t: Term, log: seq<byte>, ch: byte)
    requires Faithful(t, log) && |LogPut(log, ch)| == HISTORY
    ensures var r, log' := PutChar(t, ch), LogPut(log, ch);
            && r.globRow == 150 && r.column == 0 && r.dispRow == 24 && r.lineShow == 126
            && forall k :: PAGE <= k < CELLS ==>
                 r.cells[k] == At(log', if k < PAGE + 9000 then k else k - PAGE)
  {
    var back, log' := ScrollPageBack(t), LogPut(log, ch);
    BackIsFaithful(t, log);
    CursorIsLogEnd(back, log);
    if ch == NEWLINE {
      assert forall k: nat :: At(log', k) == At(log, k);
      LineDownShifts(back, log');
    } else {
      PutAtCursorShowsLog(back, log, ch);
      LineDownShifts(PutAtCursor(back, ch), log');
    }
  }

  /** After the shift the history repeats the log, 25 rows dropped, exactly when
      the text happens to be the same 25 rows further on. */
  lemma ShiftKeepsHistoryIff(t: Term, log: seq<byte>, ch: byte)
    requires Faithful(t, log) && |LogPut(log, ch)| == HISTORY
    ensures var r, log' := PutChar(t, ch), LogPut(log, ch);
            (forall k :: PAGE <= k < CELLS ==> r.cells[k] == At(log', k))
            <==> (forall k :: PAGE + 9000 <= k < CELLS ==> At(log', k - PAGE) == At(log', k))
  {
    FillShifts(t, log, ch);
  }

  /** Deleting at the left edge pastes the 25 history rows above the cursor. */
  lemma DelAtLeftEdge(t: Term)
    requires Sane(t) && t.globRow == 150 && t.column == 0 && t.lineShow == 126
    ensures forall k :: 0 <= k < PAGE ==>
              DelChar(t).cells[k] == if k == PAGE - 1 then 0 else t.cells[PAGE + 125 * COLS + k]
  {
    var del := EraseBeforeCursor(t);
    assert DelChar(t) == ScrollLineUp(del);
  }

  /** Deleting right after the shift shows the right rows exactly when the last
      two pages of the text agree. */
  lemma DeleteAfterFillIff(t: Term, log: seq<byte>, ch: byte)
    requires Faithful(t, log) && |LogPut(log, ch)| == HISTORY
    ensures var d, log' := DelChar(PutChar(t, ch)), LogPut(log, ch);
            ShowsLog(d, log'[..HISTORY - 1], 150)
            <==> log'[HISTORY - 2 * PAGE..HISTORY - PAGE - 1] == log'[HISTORY - PAGE..HISTORY - 1]
  {
    FillShifts(t, log, ch);
    var r, log' := PutChar(t, ch), LogPut(log, ch);
    DelAtLeftEdge(r);
    StalePageIff(DelChar(r), r.cells, log');
  }

  lemma StalePageIff(d: Term, cells: seq<byte>, log: seq<byte>)
    requires |d.cells| == |cells| == CELLS && |log| == HISTORY
    requires forall k :: PAGE + 9000 <= k < CELLS ==> cells[k] == At(log, k - PAGE)
    requires forall k :: 0 <= k < PAGE ==>
               d.cells[k] == if k == PAGE - 1 then 0 else cells[PAGE + 125 * COLS + k]
    ensures ShowsLog(d, log[..HISTORY - 1], 150)
            <==> log[HISTORY - 2 * PAGE..HISTORY - PAGE - 1] == log[HISTORY - PAGE..HISTORY - 1]
  {
    var log', a, b := log[..HISTORY - 1], log[HISTORY - 2 * PAGE..HISTORY - PAGE - 1], log[HISTORY - PAGE..HISTORY - 1];
    assert forall k :: 0 <= k < PAGE - 1 ==> d.cells[k] == a[k];
    assert forall k :: 0 <= k < PAGE - 1 ==> At(log', 150 * COLS + k) == b[k];
    if ShowsLog(d, log', 150) {
      forall k | 0 <= k < PAGE - 1 ensures a[k] == b[k] {
        assert d.cells[k] == At(log', 150 * COLS + k);
      }
    }
  }

  /** Such a text: 150 rows of one letter, then 25 rows of another. */
  ghost predicate TwoLetters(text: seq<byte>) {
    |text| == HISTORY && forall i :: 0 <= i < |text| ==> text[i] == if i < 12000 then 97 else 98
  }

  lemma SomeTwoLetters(n: nat) returns (text: seq<byte>)
    requires n == HISTORY
    ensures TwoLetters(text)
  {
    text := seq(n, i => if i < 12000 then 97 else 98);
  }

  /** Without newlines the text is its own log. */
  lemma {:induction false} TextIsLog(text: seq<byte>)
    requires forall i :: 0 <= i < |text| ==> text[i] != NEWLINE
    ensures LogPutAll([], text) == text
  {
    if text != [] {
      var before, last := text[..|text| - 1], text[|text| - 1];
      TextIsLog(before);
      assert LogPutAll([], text) == LogPut(before, last) == before + [last];
    }
  }

  lemma {:induction false} TextIsTyped(text: seq<byte>)
    requires |text| < HISTORY && forall i :: 0 <= i < |text| ==> text[i] != NEWLINE
    ensures Faithful(PutAll(Cleared(), text), text)
  {
    if text != [] {
      var before := text[..|text| - 1];
      TextIsTyped(before);
      PutIsFaithful(PutAll(Cleared(), before), before, text[|text| - 1]);
      assert before + [text[|text| - 1]] == text;
    }
  }

  lemma TwoLettersDiffer(text: seq<byte>)
    requires TwoLetters(text)
    ensures text[HISTORY - 2 * PAGE..HISTORY - PAGE - 1] != text[HISTORY - PAGE..HISTORY - 1]
  {
    assert text[HISTORY - 2 * PAGE..HISTORY - PAGE - 1][0] != text[HISTORY - PAGE..HISTORY - 1][0];
  }

  lemma StaleAfterDelete(t: Term, log: seq<byte>, ch: byte, text: seq<byte>)
    requires Faithful(t, log) && LogPut(log, ch) == text && TwoLetters(text)
    ensures !ShowsLog(DelChar(PutChar(t, ch)), text[..HISTORY - 1], 150)
  {
    DeleteAfterFillIff(t, log, ch);
    TwoLettersDiffer(text);
  }

  lemma LastTyped(text: seq<byte>) returns (t: Term, log: seq<byte>, ch: byte)
    requires TwoLetters(text)
    ensures Faithful(t, log) && LogPut(log, ch) == text
    ensures LogPutAll([], text) == text && PutAll(Cleared(), text) == PutChar(t, ch)
  {
    log, ch := text[..|text| - 1], text[|text| - 1];
    t := PutAll(Cleared(), log);
    TextIsLog(text);
    TextIsTyped(log);
    assert log + [ch] == text;
  }

  lemma DeleteAfterFillCanShowStaleRows() returns (text: seq<byte>)
    ensures TwoLetters(text) && LogPutAll([], text) == text
    ensures !ShowsLog(DelChar(PutAll(Cleared(), text)), text[..HISTORY - 1], 150)
  {
    text := SomeTwoLetters(HISTORY);
    var t, log, ch := LastTyped(text);
    StaleAfterDelete(t, log, ch, text);
  }
}
