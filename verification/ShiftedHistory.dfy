/** What the terminal's history holds after any number of shifts (drivers/screen.c), through
    typing and editing, and when the operations that copy rows of it to the display, paging
    and a deletion at the left edge, still show the right text. */
module ShiftedHistory {
  import opened Words
  import opened Terminal

  /** The first history cell no shift writes to, and the first of the last page. */
  const KEPT := 9000
  const LAST_PAGE := 12000

  // ----------------------------------------------------------- what a history cell holds

  /** How often the history has been shifted when the log has `rows` full rows. */
  function Shifts(rows: nat): nat { if rows < 175 then 0 else rows / 25 - 6 }

  /** Where in the log the cell comes from that so many shifts have left in history cell `k`:
      each shift brings it a page down, but none brings anything down from behind the cells
      shifted. */
  function Source(k: nat, shifts: nat): (r: nat)
    ensures if k < KEPT then k <= r < KEPT + PAGE else r == k
    decreases shifts
  {
    if shifts == 0 || k >= KEPT then k else Source(k + PAGE, shifts - 1)
  }

  /** The same without recursion. */
  lemma {:induction false} SourceIs(k: nat, shifts: nat)
    ensures Source(k, shifts) == k + PAGE * Min(shifts, if k < KEPT then (KEPT + PAGE - 1 - k) / PAGE else 0)
    decreases shifts
  {
    if shifts > 0 && k < KEPT {
      SourceIs(k + PAGE, shifts - 1);
    }
  }

  /** The history cell of the log's cell `n`, at the time it is written. */
  function HistoryCell(n: nat): (k: nat)
    ensures k < HISTORY && (n >= HISTORY ==> k >= LAST_PAGE)
  {
    HistoryRow(n / COLS) * COLS + n % COLS
  }

  /** Cell `k` of the last page: what was typed there or deleted last, on any turn through it. */
  function Latest(ops: seq<Op>, k: nat): byte {
    var log := LogOf(ops);
    if |log| < HISTORY then At(log, k)
    else
      var before, op := ops[..|ops| - 1], ops[|ops| - 1];
      if op.Put? && op.ch != NEWLINE && HistoryCell(|LogOf(before)|) == k then op.ch
      else if op.Del? && HistoryCell(|log|) == k then 0
      else Latest(before, k)
  }

  /** What history cell `k` holds. */
  function Held(ops: seq<Op>, k: nat): byte {
    var log := LogOf(ops);
    if k < LAST_PAGE then At(log, Source(k, Shifts(|log| / COLS))) else Latest(ops, k)
  }

  ghost predicate Holds(t: Term, ops: seq<Op>) {
    && |t.cells| == CELLS
    && forall k {:trigger Held(ops, k)} {:trigger t.cells[PAGE + k]} ::
         0 <= k < HISTORY ==> t.cells[PAGE + k] == Held(ops, k)
  }

  // ------------------------------------------------------------------------- characters

  /** The character ends its row. */
  predicate EndsRow(n: nat, ch: byte) { ch == NEWLINE || n % COLS == COLS - 1 }

  lemma RowsAfterPut(log: seq<byte>, ch: byte)
    ensures var rows := |log| / COLS; |LogPut(log, ch)| / COLS == if EndsRow(|log|, ch) then rows + 1 else rows
  {
    var rows := |log| / COLS;
    assert |log| == rows * COLS + |log| % COLS;
    if EndsRow(|log|, ch) {
      assert |LogPut(log, ch)| == (rows + 1) * COLS;
    }
  }

  /** Where the contents of history cell `k` were before the character that shifts, or does not. */
  function Before(k: nat, rows: nat, ends: bool): nat {
    if ends && HistoryRow(rows) == 174 && k < KEPT then k + PAGE else k
  }

  lemma SourceAfterRow(k: nat, rows: nat)
    requires rows >= 174
    ensures Source(k, Shifts(rows + 1)) == Source(Before(k, rows, true), Shifts(rows))
  {
    assert HistoryRow(rows) == 174 <==> Shifts(rows + 1) == Shifts(rows) + 1;
  }

  /** The text has reached the last row of the history, now or earlier. */
  ghost predicate Puts(ops: seq<Op>) {
    ops != [] && ops[|ops| - 1].Put? && |LogOf(ops)| >= HISTORY
  }

  lemma LowCellAfterPut(ops: seq<Op>, k: nat)
    requires Puts(ops) && k < LAST_PAGE
    ensures var before, ch := ops[..|ops| - 1], ops[|ops| - 1].ch;
            var n := |LogOf(before)|;
            Held(ops, k) == Held(before, Before(k, n / COLS, EndsRow(n, ch)))
  {
    var before, ch := ops[..|ops| - 1], ops[|ops| - 1].ch;
    var log := LogOf(before);
    RowsAfterPut(log, ch);
    assert LogOf(ops) == LogPut(log, ch) && |log| >= HISTORY - COLS;
    SourceAfterRow(k, |log| / COLS);
    var from := Source(k, Shifts(|LogOf(ops)| / COLS));
    assert At(LogOf(ops), from) == At(log, from);
  }

  lemma HeldAfterPut(ops: seq<Op>, k: nat)
    requires Puts(ops) && k < HISTORY
    ensures var before, ch := ops[..|ops| - 1], ops[|ops| - 1].ch;
            var n := |LogOf(before)|;
            Held(ops, k) == if ch != NEWLINE && k == HistoryCell(n) then ch
                            else Held(before, Before(k, n / COLS, EndsRow(n, ch)))
  {
    var n := |LogOf(ops[..|ops| - 1])|;
    if k < LAST_PAGE {
      LowCellAfterPut(ops, k);
      assert n >= HISTORY - COLS && HistoryCell(n) >= LAST_PAGE;
    }
  }

  /** A line down shifts the history or leaves it alone. */
  lemma LineDownCell(t: Term, k: nat)
    requires |t.cells| == CELLS && k < HISTORY
    requires 0 <= t.globRow < 175 && t.dispRow == Min(24, t.globRow) && t.lineShow == Bottom(t.globRow)
    ensures ScrollLineDown(t).cells[PAGE + k] == t.cells[PAGE + if t.globRow == 174 && k < KEPT then k + PAGE else k]
  {
    var down := t.(column := 0, globRow := t.globRow + 1);
    var fit := if down.globRow == 175 then DropOldestPage(down) else down;
    assert ScrollLineDown(t).cells[PAGE + k] == fit.cells[PAGE + k];
  }

  lemma CursorIsHistoryCell(t: Term, log: seq<byte>)
    requires Typed(t, log)
    ensures Cursor(t) == HistoryCell(|log|) && (t.column == 158 <==> |log| % COLS == COLS - 1)
  {
  }

  lemma CellAfterPut(t: Term, log: seq<byte>, ch: byte, k: nat)
    requires Typed(t, log) && |log| >= HISTORY - COLS && k < HISTORY
    ensures PutChar(t, ch).cells[PAGE + k]
            == if ch != NEWLINE && k == HistoryCell(|log|) then ch
               else t.cells[PAGE + Before(k, |log| / COLS, EndsRow(|log|, ch))]
  {
    CursorIsHistoryCell(t, log);
    assert Cursor(t) >= LAST_PAGE;
    if ch == NEWLINE {
      LineDownCell(t, k);
    } else {
      var put := PutAtCursor(t, ch);
      if put.column == 160 {
        LineDownCell(put, k);
      }
    }
  }

  lemma PutHolds(t: Term, ops: seq<Op>)
    requires Puts(ops)
    requires Typed(t, LogOf(ops[..|ops| - 1])) && Holds(t, ops[..|ops| - 1])
    ensures Holds(PutChar(t, ops[|ops| - 1].ch), ops)
  {
    var before, ch := ops[..|ops| - 1], ops[|ops| - 1].ch;
    var log := LogOf(before);
    forall k | 0 <= k < HISTORY
      ensures PutChar(t, ch).cells[PAGE + k] == Held(ops, k)
    {
      HeldAfterPut(ops, k);
      CellAfterPut(t, log, ch, k);
      var from := Before(k, |log| / COLS, EndsRow(|log|, ch));
      assert t.cells[PAGE + from] == Held(before, from);
    }
  }

  // ------------------------------------------------------------ deletions within a row

  /** A deletion of a character that stands in the cursor's row, after a shift. */
  ghost predicate DeletesInRow(ops: seq<Op>) {
    && ops != [] && ops[|ops| - 1].Del?
    && var log := LogOf(ops[..|ops| - 1]); |log| >= HISTORY && |log| % COLS > 0
  }

  lemma RowsAfterDelete(n: nat)
    requires n >= HISTORY && n % COLS > 0
    ensures n - 1 >= HISTORY && (n - 1) / COLS == n / COLS && (n - 1) % COLS == n % COLS - 1
    ensures HistoryCell(n - 1) == HistoryCell(n) - 1 >= LAST_PAGE
  {
  }

  lemma HeldAfterDelete(ops: seq<Op>, k: nat)
    requires DeletesInRow(ops) && k < HISTORY
    ensures var before := ops[..|ops| - 1];
            Held(ops, k) == if k == HistoryCell(|LogOf(before)|) - 1 then 0 else Held(before, k)
  {
    var log := LogOf(ops[..|ops| - 1]);
    RowsAfterDelete(|log|);
    assert LogOf(ops) == log[..|log| - 1];
  }

  lemma DeleteHolds(t: Term, ops: seq<Op>)
    requires DeletesInRow(ops)
    requires Typed(t, LogOf(ops[..|ops| - 1])) && Holds(t, ops[..|ops| - 1])
    ensures Holds(DelChar(t), ops)
  {
    var before := ops[..|ops| - 1];
    CursorIsHistoryCell(t, LogOf(before));
    RowsAfterDelete(|LogOf(before)|);
    forall k | 0 <= k < HISTORY
      ensures DelChar(t).cells[PAGE + k] == Held(ops, k)
    {
      HeldAfterDelete(ops, k);
      assert t.cells[PAGE + k] == Held(before, k);
    }
  }

  /** Within a row nothing is pasted. */
  lemma DeleteWithinRow(t: Term, log: seq<byte>)
    requires Typed(t, log) && |log| >= HISTORY && |log| % COLS > 0
    ensures Typed(DelChar(t), log[..|log| - 1])
  {
    var d, rows := DelChar(t), |log| / COLS;
    RowsAfterDelete(|log|);
    forall k | 0 <= k < PAGE
      ensures d.cells[k] == At(log[..|log| - 1], Bottom(rows) * COLS + k)
    {
      assert t.cells[k] == At(log, Bottom(rows) * COLS + k);
    }
  }

  // ---------------------------------------------------------------------- runs of any length

  /** Once the history has been shifted, no paging and no deletion at the left edge, until a
      clear; before that, anything. */
  ghost predicate Steady(ops: seq<Op>) {
    ops != [] ==>
      var log, op := LogOf(ops[..|ops| - 1]), ops[|ops| - 1];
      && Steady(ops[..|ops| - 1])
      && (|log| >= HISTORY ==> op.Clear? || op.Put? || (op.Del? && |log| % COLS > 0))
  }

  /** The terminal state says what the run says. */
  ghost predicate Tracked(t: Term, ops: seq<Op>) {
    var log := LogOf(ops);
    if |log| < HISTORY then Faithful(t, log) else Typed(t, log) && Holds(t, ops)
  }

  /** Before the first shift the history is the log. */
  lemma NotYetShifted(t: Term, ops: seq<Op>)
    requires Faithful(t, LogOf(ops))
    ensures Typed(ScrollPageBack(t), LogOf(ops)) && Holds(ScrollPageBack(t), ops)
  {
    var back, log := ScrollPageBack(t), LogOf(ops);
    BackIsFaithful(t, log);
    forall k | 0 <= k < HISTORY
      ensures back.cells[PAGE + k] == Held(ops, k)
    {
      assert back.cells[PAGE + k] == At(log, k);
    }
  }

  lemma PutTracked(t: Term, ops: seq<Op>)
    requires ops != [] && ops[|ops| - 1].Put? && Tracked(t, ops[..|ops| - 1])
    ensures Tracked(PutChar(t, ops[|ops| - 1].ch), ops)
  {
    var before, ch := ops[..|ops| - 1], ops[|ops| - 1].ch;
    var log := LogOf(before);
    if |LogOf(ops)| < HISTORY {
      PutIsFaithful(t, log, ch);
    } else if |log| < HISTORY {
      NotYetShifted(t, before);
      TypedPut(ScrollPageBack(t), log, ch);
      PutHolds(ScrollPageBack(t), ops);
      assert PutChar(ScrollPageBack(t), ch) == PutChar(t, ch);
    } else {
      TypedPut(t, log, ch);
      PutHolds(t, ops);
    }
  }

  lemma ClearedOrFaithful(t: Term, log: seq<byte>, op: Op)
    requires Sane(t) && !op.Put? && (op.Clear? || (|log| < HISTORY && Faithful(t, log)))
    ensures |LogStep(log, op)| < HISTORY && Faithful(Step(t, op), LogStep(log, op))
  {
    if op.Clear? {
      StepIsFaithful(Cleared(), [], op);
    } else {
      StepIsFaithful(t, log, op);
    }
  }

  lemma DeleteTracked(t: Term, ops: seq<Op>)
    requires DeletesInRow(ops) && Tracked(t, ops[..|ops| - 1])
    ensures Tracked(DelChar(t), ops)
  {
    var log := LogOf(ops[..|ops| - 1]);
    DeleteWithinRow(t, log);
    DeleteHolds(t, ops);
    RowsAfterDelete(|log|);
  }

  /** After every such run, however often the history has been shifted: what every cell of
      the display and of the history holds. */
  lemma {:induction false} EditingHolds(ops: seq<Op>)
    requires Steady(ops)
    ensures Tracked(Run(ops), ops)
  {
    if ops != [] {
      var before, op := ops[..|ops| - 1], ops[|ops| - 1];
      var t, log := Run(before), LogOf(before);
      EditingHolds(before);
      if op.Put? {
        PutTracked(t, ops);
      } else if |log| < HISTORY || op.Clear? {
        ClearedOrFaithful(t, log, op);
      } else {
        DeleteTracked(t, ops);
      }
    }
  }

  function Typing(text: seq<byte>): seq<Op> { seq(|text|, i requires 0 <= i < |text| => Put(text[i])) }

  /** Typing a text is such a run. */
  lemma {:induction false} TypingIsSteady(text: seq<byte>)
    ensures Steady(Typing(text))
    ensures LogOf(Typing(text)) == LogPutAll([], text) && Run(Typing(text)) == PutAll(Cleared(), text)
  {
    if text != [] {
      var before := text[..|text| - 1];
      TypingIsSteady(before);
      assert Typing(text)[..|text| - 1] == Typing(before);
    }
  }

  // ------------------------------------------------------------ deleting at the left edge

  /** All of the history after a run. */
  function History(ops: seq<Op>): (h: seq<byte>)
    ensures |h| == HISTORY
  {
    seq(HISTORY, k requires 0 <= k < HISTORY => Held(ops, k))
  }

  lemma HoldsHistory(t: Term, ops: seq<Op>)
    requires Holds(t, ops)
    ensures t.cells[PAGE..] == History(ops)
  {
    forall k | 0 <= k < HISTORY ensures t.cells[PAGE..][k] == History(ops)[k] {
      assert t.cells[PAGE + k] == Held(ops, k);
    }
  }

  lemma FilledState(ops: seq<Op>) returns (t: Term, log: seq<byte>, h: seq<byte>)
    requires Steady(ops) && |LogOf(ops)| >= HISTORY
    ensures t == Run(ops) && log == LogOf(ops) && h == History(ops) && Typed(t, log) && t.cells[PAGE..] == h
  {
    t, log, h := Run(ops), LogOf(ops), History(ops);
    EditingHolds(ops);
    HoldsHistory(t, ops);
  }

  /** 25 rows of the text, blank behind its end. */
  function Rows(log: seq<byte>, line: nat): (s: seq<byte>)
    ensures |s| == PAGE
  {
    seq<byte>(PAGE, k requires 0 <= k < PAGE => At(log, line * COLS + k))
  }

  lemma ShowsRows(t: Term, log: seq<byte>, line: nat)
    requires |t.cells| == CELLS
    ensures ShowsLog(t, log, line) <==> t.cells[..PAGE] == Rows(log, line)
  {
    if t.cells[..PAGE] == Rows(log, line) {
      forall k | 0 <= k < PAGE ensures t.cells[k] == At(log, line * COLS + k) {
        assert t.cells[k] == t.cells[..PAGE][k];
      }
    }
  }

  lemma PasteAtLeftEdge(t: Term, h: seq<byte>)
    requires Sane(t) && t.globRow >= 150 && t.column == 0 && t.lineShow == Bottom(t.globRow) && t.cells[PAGE..] == h
    ensures DelChar(t).cells[..PAGE] == h[Cursor(t) - PAGE..Cursor(t) - 1] + [0]
  {
    var d, line := DelChar(t), t.globRow - 25;
    assert d == ScrollLineUp(EraseBeforeCursor(t));
    forall k | 0 <= k < PAGE
      ensures d.cells[k] == (h[Cursor(t) - PAGE..Cursor(t) - 1] + [0])[k]
    {
      assert t.cells[PAGE + (line * COLS + k)] == h[line * COLS + k];
    }
  }

  lemma RowsAfterLeftEdge(log: seq<byte>)
    requires |log| >= HISTORY && |log| % COLS == 0
    ensures Rows(log[..|log| - 1], Bottom((|log| - 1) / COLS)) == log[|log| - PAGE..|log| - 1] + [0]
  {
    var before, line, last := log[..|log| - 1], Bottom((|log| - 1) / COLS), log[|log| - PAGE..|log| - 1] + [0];
    assert line * COLS == |log| - PAGE;
    forall k | 0 <= k < PAGE ensures Rows(before, line)[k] == last[k] {
      assert Rows(before, line)[k] == At(before, line * COLS + k);
    }
  }

  lemma SameBefore(a: seq<byte>, b: seq<byte>, c: byte)
    ensures a + [c] == b + [c] <==> a == b
  {
    if a + [c] == b + [c] {
      assert a == (a + [c])[..|a|] && b == (b + [c])[..|b|];
    }
  }

  /** The 25 history rows that end above the cursor are the last full rows of the text, but
      for the last cell. */
  ghost predicate PastesRight(h: seq<byte>, log: seq<byte>)
    requires |h| == HISTORY <= |log|
  {
    var at := HistoryCell(|log|);
    h[at - PAGE..at - 1] == log[|log| - PAGE..|log| - 1]
  }

  /** A deletion at the left edge pastes them. */
  lemma DeleteAtLeftEdge(t: Term, log: seq<byte>, h: seq<byte>)
    requires Typed(t, log) && t.cells[PAGE..] == h && |log| >= HISTORY && |log| % COLS == 0
    ensures DelChar(t).cells[..PAGE] == Rows(log[..|log| - 1], Bottom((|log| - 1) / COLS)) <==> PastesRight(h, log)
  {
    CursorIsHistoryCell(t, log);
    PasteAtLeftEdge(t, h);
    RowsAfterLeftEdge(log);
    SameBefore(h[Cursor(t) - PAGE..Cursor(t) - 1], log[|log| - PAGE..|log| - 1], 0);
  }

  lemma DeleteShownIff(t: Term, log: seq<byte>, h: seq<byte>)
    requires Typed(t, log) && t.cells[PAGE..] == h && |log| >= HISTORY
    ensures DelChar(t).cells[..PAGE] == Rows(log[..|log| - 1], Bottom((|log| - 1) / COLS))
            <==> (|log| % COLS == 0 ==> PastesRight(h, log))
  {
    if |log| % COLS > 0 {
      DeleteWithinRow(t, log);
      RowsAfterDelete(|log|);
      ShowsRows(DelChar(t), log[..|log| - 1], Bottom((|log| - 1) / COLS));
    } else {
      DeleteAtLeftEdge(t, log, h);
    }
  }

  /** For every run after which the history has been shifted, once or more often: a deletion
      shows the right rows if and only if it stays within its row, or the rows it pastes from
      the history happen to be the last rows of the text. */
  lemma DeleteWhileEditingIff(ops: seq<Op>) returns (t: Term, log: seq<byte>, h: seq<byte>)
    requires Steady(ops) && |LogOf(ops)| >= HISTORY
    ensures t == Run(ops) && log == LogOf(ops) && h == History(ops)
    ensures DelChar(t).cells[..PAGE] == Rows(log[..|log| - 1], Bottom((|log| - 1) / COLS))
            <==> (|log| % COLS == 0 ==> PastesRight(h, log))
  {
    t, log, h := FilledState(ops);
    DeleteShownIff(t, log, h);
  }

  // ------------------------------------------------------------------------------- paging

  /** A page copied from the history `h`, which stays as it is. */
  ghost predicate Paged(t: Term, h: seq<byte>) {
    && Sane(t) && t.globRow >= 150 && t.cells[PAGE..] == h
    && t.cells[..PAGE] == h[t.lineShow * COLS..][..PAGE]
  }

  lemma ShowIsPaged(t: Term, h: seq<byte>, line: int)
    requires Sane(t) && t.globRow >= 150 && t.cells[PAGE..] == h && 0 <= line <= t.globRow - 24
    ensures Paged(Show(t, line), h)
  {
    var r := Show(t, line);
    assert forall k :: 0 <= k < HISTORY ==> t.cells[PAGE + k] == h[k];
  }

  lemma PageStep(t: Term, h: seq<byte>, op: Op)
    requires Sane(t) && t.globRow >= 150 && t.cells[PAGE..] == h && (op.PageUp? || op.PageDown?)
    ensures Paged(Step(t, op), h)
  {
    ShowIsPaged(t, h, if op.PageUp? then Max(0, t.lineShow - 25) else Min(t.globRow - 24, t.lineShow + 25));
  }

  lemma {:induction false} PagesArePaged(t: Term, h: seq<byte>, pages: seq<Op>)
    requires Sane(t) && t.globRow >= 150 && t.cells[PAGE..] == h && OnlyPages(pages) && pages != []
    ensures Paged(RunFrom(t, pages), h)
  {
    var before, last := pages[..|pages| - 1], pages[|pages| - 1];
    if before != [] {
      PagesArePaged(t, h, before);
    }
    assert last in pages;
    PageStep(RunFrom(t, before), h, last);
  }

  /** The text's row that history row `line` stands for: 25 rows have been dropped per shift. */
  function LogRow(log: seq<byte>, line: nat): nat { line + 25 * Shifts(|log| / COLS) }

  /** For every such run and any number of page-ups and page-downs after it: the 25 rows shown
      are those of the text if and only if the history rows copied are. */
  lemma PagesShowLogIff(ops: seq<Op>, pages: seq<Op>)
    requires Steady(ops) && |LogOf(ops)| >= HISTORY && OnlyPages(pages) && pages != []
    ensures var t, log := RunFrom(Run(ops), pages), LogOf(ops);
            && 0 <= t.lineShow <= 150
            && (t.cells[..PAGE] == Rows(log, LogRow(log, t.lineShow))
                <==> History(ops)[t.lineShow * COLS..][..PAGE] == Rows(log, LogRow(log, t.lineShow)))
  {
    var typed, log, h := FilledState(ops);
    PagesArePaged(typed, h, pages);
    var t := RunFrom(typed, pages);
  }

  /** The cells that come from the text's first 137.5 rows are right as long as they are there. */
  lemma EarlyCellIsRight(ops: seq<Op>, k: nat)
    requires |LogOf(ops)| >= HISTORY && k + PAGE * Shifts(|LogOf(ops)| / COLS) < KEPT + PAGE
    ensures Held(ops, k) == At(LogOf(ops), k + PAGE * Shifts(|LogOf(ops)| / COLS))
  {
    SourceIs(k, Shifts(|LogOf(ops)| / COLS));
  }

  /** So the pages that lie there are shown as they were typed. */
  lemma EarlyRowsAreRight(ops: seq<Op>, line: nat)
    requires |LogOf(ops)| >= HISTORY && LogRow(LogOf(ops), line) * COLS <= KEPT
    ensures History(ops)[line * COLS..][..PAGE] == Rows(LogOf(ops), LogRow(LogOf(ops), line))
  {
    var log := LogOf(ops);
    forall k | 0 <= k < PAGE
      ensures History(ops)[line * COLS + k] == Rows(log, LogRow(log, line))[k]
    {
      EarlyCellIsRight(ops, line * COLS + k);
    }
  }

  lemma FirstShift(ops: seq<Op>, k: nat)
    requires |LogOf(ops)| == HISTORY && k < LAST_PAGE
    ensures History(ops)[k] == LogOf(ops)[if k < KEPT then k + PAGE else k]
  {
    assert Source(k, 1) == if k < KEPT then k + PAGE else k;
  }

  lemma SlicesAfterFill(h: seq<byte>, log: seq<byte>)
    requires |h| == |log| == HISTORY && forall k :: 0 <= k < LAST_PAGE ==> h[k] == log[if k < KEPT then k + PAGE else k]
    ensures h[101 * COLS..][..PAGE] == log[10080..11000] + log[9000..10080]
    ensures Rows(log, 126) == log[10080..11000] + log[11000..12080]
  {
    forall k | 0 <= k < PAGE
      ensures h[101 * COLS..][..PAGE][k] == (log[10080..11000] + log[9000..10080])[k]
    {
      assert h[101 * COLS..][..PAGE][k] == h[8080 + k];
    }
    forall k | 0 <= k < PAGE
      ensures Rows(log, 126)[k] == (log[10080..11000] + log[11000..12080])[k]
    {
      assert Rows(log, 126)[k] == At(log, 10080 + k);
    }
  }

  lemma PageAfterFill(ops: seq<Op>)
    requires |LogOf(ops)| == HISTORY
    ensures History(ops)[101 * COLS..][..PAGE] == LogOf(ops)[10080..11000] + LogOf(ops)[9000..10080]
    ensures Rows(LogOf(ops), 126) == LogOf(ops)[10080..11000] + LogOf(ops)[11000..12080]
  {
    forall k | 0 <= k < LAST_PAGE
      ensures History(ops)[k] == LogOf(ops)[if k < KEPT then k + PAGE else k]
    {
      FirstShift(ops, k);
    }
    SlicesAfterFill(History(ops), LogOf(ops));
  }

  /** Page up right after the first shift: the last 13.5 of the rows shown are 25 rows too far
      up in the text. */
  lemma PageUpAfterFillIff(ops: seq<Op>)
    requires Steady(ops) && |LogOf(ops)| == HISTORY
    ensures var t, log := RunFrom(Run(ops), [PageUp]), LogOf(ops);
            t.lineShow == 101 && (t.cells[..PAGE] == Rows(log, 126) <==> log[9000..10080] == log[11000..12080])
  {
    var t, log, h := FilledState(ops);
    assert t.lineShow == 126;
    assert [PageUp][..0] == [] && RunFrom(t, [PageUp]) == ScrollPageUp(t);
    PagesShowLogIff(ops, [PageUp]);
    PageAfterFill(ops);
    SameBehind(log[10080..11000], log[9000..10080], log[11000..12080]);
  }

  lemma SameBehind(a: seq<byte>, b: seq<byte>, c: seq<byte>)
    ensures a + b == a + c <==> b == c
  {
    if a + b == a + c {
      assert b == (a + b)[|a|..] && c == (a + c)[|a|..];
    }
  }

  /** Typed on a cleared screen, 150 rows of one letter and 25 rows of another are such a text. */
  lemma PageUpCanShowStaleRows(text: seq<byte>)
    requires TwoLetters(text)
    ensures LogOf(Typing(text)) == text && RunFrom(Run(Typing(text)), [PageUp]).cells[..PAGE] != Rows(text, 126)
  {
    TypingIsSteady(text);
    TextIsLog(text);
    PageUpAfterFillIff(Typing(text));
    assert text[9000..10080][1079] != text[11000..12080][1079];
  }
}
