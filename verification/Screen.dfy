// A text wrapped at 80 columns, and the 25 x 80 screen of one terminal (student-distrib/lib.c).
module Wrapping {
  import opened Bytes

  const NUM_COLS: int := 80
  const NUM_ROWS: int := 25

  predicate IsBreak(c: byte) {
    c == 10 || c == 13
  }

  // Position of the first newline or carriage return, or the length when there is none.
  function LineEnd(text: seq<byte>): (n: nat)
    ensures n <= |text| && forall k :: 0 <= k < n ==> !IsBreak(text[k])
    ensures n < |text| ==> IsBreak(text[n])
  {
    if text == [] || IsBreak(text[0]) then 0 else 1 + LineEnd(text[1..])
  }

  // A line cut into rows of 80; a line that fills its last row is followed by an empty row.
  function RowsOfLine(line: seq<byte>): (rows: seq<seq<byte>>)
    ensures rows != [] && |rows[|rows| - 1]| < NUM_COLS
    ensures forall r :: 0 <= r < |rows| ==> |rows[r]| <= NUM_COLS
    decreases |line|
  {
    if |line| < NUM_COLS then [line] else [line[..NUM_COLS]] + RowsOfLine(line[NUM_COLS..])
  }

  // The rows of a whole text, on an unbounded page.
  function Wrap(text: seq<byte>): (rows: seq<seq<byte>>)
    ensures rows != [] && |rows[|rows| - 1]| < NUM_COLS
    ensures forall r :: 0 <= r < |rows| ==> |rows[r]| <= NUM_COLS
    decreases |text|
  {
    var n := LineEnd(text);
    if n == |text| then RowsOfLine(text) else RowsOfLine(text[..n]) + Wrap(text[n + 1..])
  }

  // The rows after one more character at the end of the last row.
  function Push(rows: seq<seq<byte>>, c: byte): (r: seq<seq<byte>>)
    requires rows != []
  {
    var last := |rows| - 1;
    if IsBreak(c) then rows + [[]]
    else if |rows[last]| + 1 < NUM_COLS then rows[..last] + [rows[last] + [c]]
    else rows[..last] + [rows[last] + [c], []]
  }

  lemma PushAfter(a: seq<seq<byte>>, b: seq<seq<byte>>, c: byte)
    requires b != []
    ensures Push(a + b, c) == a + Push(b, c)
  {
    var rows, last := a + b, |b| - 1;
    assert rows[..|rows| - 1] == a + b[..last];
  }

  lemma {:induction false} RowsOfLinePush(line: seq<byte>, c: byte)
    requires !IsBreak(c)
    ensures RowsOfLine(line + [c]) == Push(RowsOfLine(line), c)
    decreases |line|
  {
    var longer := line + [c];
    if |line| < NUM_COLS - 1 {
    } else if |line| == NUM_COLS - 1 {
      assert longer[..NUM_COLS] == longer && longer[NUM_COLS..] == [];
    } else {
      RowsOfLinePush(line[NUM_COLS..], c);
      assert longer[..NUM_COLS] == line[..NUM_COLS] && longer[NUM_COLS..] == line[NUM_COLS..] + [c];
      PushAfter([line[..NUM_COLS]], RowsOfLine(line[NUM_COLS..]), c);
    }
  }

  // Writing one more character pushes it onto the wrapped text.
  lemma {:induction false} WrapPush(text: seq<byte>, c: byte)
    ensures Wrap(text + [c]) == Push(Wrap(text), c)
    decreases |text|
  {
    hide LineEnd, RowsOfLine, Push;
    var n, longer := LineEnd(text), text + [c];
    LineEndExtends(text, c);
    if n < |text| {
      assert longer[..n] == text[..n] && longer[n + 1..] == text[n + 1..] + [c];
      WrapPush(text[n + 1..], c);
      PushAfter(RowsOfLine(text[..n]), Wrap(text[n + 1..]), c);
    } else if IsBreak(c) {
      assert longer[..n] == text && longer[n + 1..] == [];
      WrapNothing();
      PushBreak(RowsOfLine(text), c);
    } else {
      RowsOfLinePush(text, c);
    }
  }

  // A newline or a carriage return ends a row, whatever comes before and after it.
  lemma {:induction false} WrapAtBreak(a: seq<byte>, c: byte, b: seq<byte>)
    requires c == 10 || c == 13
    ensures Wrap(a + [c] + b) == Wrap(a) + Wrap(b)
    decreases |a|
  {
    hide RowsOfLine, LineEnd;
    var t, n := a + [c] + b, LineEnd(a);
    if n < |a| {
      LineEndIs(t, n);
      assert t[..n] == a[..n] && t[n + 1..] == a[n + 1..] + [c] + b;
      WrapAtBreak(a[n + 1..], c, b);
    } else {
      LineEndIs(t, n);
      assert t[..n] == a && t[n + 1..] == b;
    }
  }

  // A text without them is one row if it has fewer than 80 bytes, and fills rows of 80 otherwise.
  lemma WrapLine(line: seq<byte>)
    requires 10 !in line && 13 !in line
    ensures Wrap(line) == if |line| < 80 then [line] else [line[..80]] + Wrap(line[80..])
  {
    LineEndIs(line, |line|);
    if |line| >= 80 {
      assert forall k :: 0 <= k < |line[80..]| ==> line[80..][k] in line;
      LineEndIs(line[80..], |line[80..]|);
    }
  }

  lemma WrapNothing()
    ensures Wrap([]) == [[]]
  {
  }

  lemma PushBreak(rows: seq<seq<byte>>, c: byte)
    requires rows != [] && IsBreak(c)
    ensures Push(rows, c) == rows + [[]]
  {
  }

  lemma LineEndIs(text: seq<byte>, n: nat)
    requires n <= |text| && forall k :: 0 <= k < n ==> !IsBreak(text[k])
    requires n < |text| ==> IsBreak(text[n])
    ensures LineEnd(text) == n
  {
    var e := LineEnd(text);
    assert e < |text| ==> IsBreak(text[e]);
  }

  lemma LineEndExtends(text: seq<byte>, c: byte)
    ensures LineEnd(text) < |text| ==> LineEnd(text + [c]) == LineEnd(text)
    ensures LineEnd(text) == |text| ==> LineEnd(text + [c]) == if IsBreak(c) then |text| else |text| + 1
  {
    hide LineEnd;
    var n := LineEnd(text);
    if n == |text| && !IsBreak(c) {
      LineEndIs(text + [c], n + 1);
    } else {
      LineEndIs(text + [c], n);
    }
  }
}

module Screens {
  import opened Bytes
  import opened Wrapping

  const PAGE: int := 4096
  const BLANK: byte := 32

  // One terminal: its page of video memory, cursor, line limit for deletion, keyboard buffer and caps flag.
  datatype Terminal = Terminal(page: seq<byte>, x: int, y: int, saveY: int, keyboard: seq<byte>, caps: bool)

  ghost predicate Sound(t: Terminal) {
    && |t.page| == PAGE && |t.keyboard| == 127
    && 0 <= t.x < NUM_COLS && 0 <= t.y < NUM_ROWS && 0 <= t.saveY < NUM_ROWS
  }

  // Address of the character of a cell; its attribute byte follows.
  function Cell(row: int, col: int): int {
    2 * (NUM_COLS * row + col)
  }

  // Rows 1..24 move up one row and the characters of the last row become blanks; attributes of that row stay.
  function ScrolledPage(page: seq<byte>): (r: seq<byte>)
    requires |page| == PAGE
    ensures |r| == PAGE
  {
    seq(PAGE, k requires 0 <= k < PAGE =>
      if k < 3840 then page[k + 160] else if k < 4000 && k % 2 == 0 then BLANK else page[k])
  }

  function Scrolled(t: Terminal): (r: Terminal)
    requires |t.page| == PAGE
  {
    t.(page := ScrolledPage(t.page), x := 0, y := NUM_ROWS - 1)
  }

  // A character printed at the cursor, which may leave the cursor below the last row.
  function Unscrolled(t: Terminal, colour: byte, c: byte): (r: Terminal)
    requires Sound(t)
    ensures |r.page| == PAGE && r == t.(page := r.page, x := r.x, y := r.y)
  {
    if IsBreak(c) then t.(x := 0, y := t.y + 1)
    else
      var page := t.page[Cell(t.y, t.x) := c][Cell(t.y, t.x) + 1 := colour];
      if t.x + 1 < NUM_COLS then t.(page := page, x := t.x + 1) else t.(page := page, x := 0, y := t.y + 1)
  }

  // putc and terminal_putc on a terminal of its own.
  function Put(t: Terminal, colour: byte, c: byte): (r: Terminal)
    requires Sound(t)
  {
    var u := Unscrolled(t, colour, c);
    if u.y == NUM_ROWS then Scrolled(u) else u
  }

  // The rows from the second on have moved up one, and the last one is blank, in the colours it had.
  ghost predicate MovedUp(page: seq<byte>, page': seq<byte>) {
    && |page| == |page'| == PAGE
    && (forall k :: 0 <= k < 3840 ==> page'[k] == page[k + 160])
    && (forall k :: 0 <= k < 80 ==>
          page'[3840 + 2 * k] == 32 && page'[3840 + 2 * k + 1] == page[3840 + 2 * k + 1])
    && page'[4000..] == page[4000..]
  }

  // The cursor went from a row to the start of the next one, and page is what that row's terminal showed then.
  ghost predicate NextRow(page: seq<byte>, y: int, r: Terminal) {
    r.x == 0 && if y < 24 then r.y == y + 1 && r.page == page else r.y == 24 && MovedUp(page, r.page)
  }

  // What a terminal prints: a newline or carriage return goes to the next row and stores nothing; any other byte is
  // stored at the cursor with the colour behind it, and goes on to the next cell.
  ghost predicate PutsAt(t: Terminal, colour: byte, c: byte, r: Terminal) {
    && r.saveY == t.saveY && r.keyboard == t.keyboard && r.caps == t.caps
    && |t.page| == PAGE && 0 <= t.x < 80 && 0 <= t.y < 25
    && var at := 160 * t.y + 2 * t.x;
      if c == 10 || c == 13 then NextRow(t.page, t.y, r)
      else
        var page := t.page[at := c][at + 1 := colour];
        if t.x < 79 then r.x == t.x + 1 && r.y == t.y && r.page == page else NextRow(page, t.y, r)
  }

  lemma PutPrints(t: Terminal, colour: byte, c: byte)
    requires Sound(t)
    ensures PutsAt(t, colour, c, Put(t, colour, c))
  {
    var u := Unscrolled(t, colour, c);
    assert Cell(t.y, t.x) == 160 * t.y + 2 * t.x;
    if u.y == NUM_ROWS {
      ScrollMoves(u.page);
    }
  }

  lemma ScrollMoves(page: seq<byte>)
    requires |page| == PAGE
    ensures MovedUp(page, ScrolledPage(page))
  {
    forall k | 0 <= k < 80
      ensures var r := ScrolledPage(page);
        r[3840 + 2 * k] == 32 && r[3840 + 2 * k + 1] == page[3840 + 2 * k + 1]
    {
      assert (3840 + 2 * k) % 2 == 0 && (3840 + 2 * k + 1) % 2 == 1;
    }
  }

  // deletec: back over one cell, to the end of the previous row unless that row is protected.
  function Delete(t: Terminal): (r: Terminal)
    requires Sound(t)
  {
    var (x, y) :=
      if t.x > 0 then (t.x - 1, t.y)
      else if t.y > t.saveY then (NUM_COLS - 1, t.y - 1)
      else (0, t.y);
    t.(x := x, y := y, page := t.page[Cell(y, x) := BLANK])
  }

  function ClearedPage(page: seq<byte>, colour: byte): (r: seq<byte>)
    requires |page| == PAGE
    ensures |r| == PAGE
  {
    seq(PAGE, k requires 0 <= k < PAGE =>
      if k < 4000 then (if k % 2 == 0 then BLANK else colour) else page[k])
  }

  lemma ClearedCells(page: seq<byte>, colour: byte)
    requires |page| == PAGE
    ensures forall k :: 0 <= k < 2000 ==>
      ClearedPage(page, colour)[2 * k] == 32 && ClearedPage(page, colour)[2 * k + 1] == colour
  {
    forall k | 0 <= k < 2000
      ensures ClearedPage(page, colour)[2 * k] == 32 && ClearedPage(page, colour)[2 * k + 1] == colour
    {
      assert (2 * k) % 2 == 0 && (2 * k + 1) % 2 == 1;
    }
  }

  // clear() and reset_cursor().
  function Wiped(t: Terminal, colour: byte): (r: Terminal)
    requires Sound(t)
    ensures Sound(r)
  {
    t.(page := ClearedPage(t.page, colour), x := 0, y := 0)
  }

  // The cursor never leaves the screen.
  lemma CursorStays(t: Terminal, colour: byte, c: byte)
    requires Sound(t)
    ensures Sound(Put(t, colour, c)) && Sound(Delete(t))
  {
  }

  // The character on the screen in a cell.
  function CharAt(t: Terminal, row: int, col: int): byte
    requires |t.page| == PAGE && 0 <= row < NUM_ROWS && 0 <= col < NUM_COLS
  {
    t.page[Cell(row, col)]
  }

  // The character of an unbounded page of rows in a cell; blank outside the text.
  function RowChar(rows: seq<seq<byte>>, row: int, col: int): byte
    requires 0 <= row && 0 <= col
  {
    if row < |rows| && col < |rows[row]| then rows[row][col] else BLANK
  }

  // The first of the last 25 rows.
  function Top(rows: seq<seq<byte>>): (n: int)
    ensures 0 <= n
  {
    if |rows| <= NUM_ROWS then 0 else |rows| - NUM_ROWS
  }

  ghost predicate Cells(t: Terminal, rows: seq<seq<byte>>)
    requires |t.page| == PAGE
  {
    forall r, c :: 0 <= r < NUM_ROWS && 0 <= c < NUM_COLS ==> CharAt(t, r, c) == RowChar(rows, Top(rows) + r, c)
  }

  // The screen shows the last 25 of the rows, with the cursor at the end of the last one.
  ghost predicate Showing(t: Terminal, rows: seq<seq<byte>>) {
    && Sound(t) && rows != []
    && t.y == |rows| - 1 - Top(rows) && t.x == |rows[|rows| - 1]|
    && Cells(t, rows)
  }

  lemma WipedShows(t: Terminal, colour: byte)
    requires Sound(t)
    ensures Showing(Wiped(t, colour), Wrap([]))
  {
    WrapNothing();
  }

  // Adding a character to the last row changes the one cell under the cursor.
  lemma AddChar(t: Terminal, colour: byte, rows: seq<seq<byte>>, c: byte)
    requires Showing(t, rows)
    ensures var page := t.page[Cell(t.y, t.x) := c][Cell(t.y, t.x) + 1 := colour];
      Cells(t.(page := page), rows[..|rows| - 1] + [rows[|rows| - 1] + [c]])
  {
    var last := |rows| - 1;
    var more := rows[..last] + [rows[last] + [c]];
    var u := t.(page := t.page[Cell(t.y, t.x) := c][Cell(t.y, t.x) + 1 := colour]);
    forall r, k | 0 <= r < NUM_ROWS && 0 <= k < NUM_COLS
      ensures CharAt(u, r, k) == RowChar(more, Top(more) + r, k)
    {
      assert CharAt(t, r, k) == RowChar(rows, Top(rows) + r, k);
      if r == t.y && k == t.x {
        assert more[last][k] == c;
      } else {
        assert Cell(r, k) != Cell(t.y, t.x);
        assert RowChar(more, Top(more) + r, k) == RowChar(rows, Top(rows) + r, k);
      }
    }
  }

  // Adding an empty row scrolls exactly when the screen is full.
  lemma AddRow(t: Terminal, rows: seq<seq<byte>>)
    requires |t.page| == PAGE && rows != [] && Cells(t, rows)
    ensures if |rows| >= NUM_ROWS then Cells(Scrolled(t), rows + [[]]) else Cells(t, rows + [[]])
  {
    var more := rows + [[]];
    var u := if |rows| >= NUM_ROWS then Scrolled(t) else t;
    forall r, k | 0 <= r < NUM_ROWS && 0 <= k < NUM_COLS
      ensures CharAt(u, r, k) == RowChar(more, Top(more) + r, k)
    {
      RowCharSame(rows, Top(more) + r, k);
      if |rows| >= NUM_ROWS {
        ScrolledCell(t, r, k);
        assert r + 1 < NUM_ROWS ==> CharAt(t, r + 1, k) == RowChar(rows, Top(rows) + (r + 1), k);
      } else {
        assert CharAt(t, r, k) == RowChar(rows, Top(rows) + r, k);
      }
    }
  }

  lemma RowCharSame(rows: seq<seq<byte>>, i: int, k: int)
    requires 0 <= i && 0 <= k
    ensures RowChar(rows + [[]], i, k) == RowChar(rows, i, k)
    ensures i >= |rows| ==> RowChar(rows, i, k) == BLANK
  {
  }

  // What a scrolled page holds, cell by cell.
  lemma ScrolledCell(t: Terminal, row: int, col: int)
    requires |t.page| == PAGE && 0 <= row < NUM_ROWS && 0 <= col < NUM_COLS
    ensures CharAt(Scrolled(t), row, col) == if row + 1 < NUM_ROWS then CharAt(t, row + 1, col) else BLANK
  {
  }

  // A screen that shows some rows shows, after one more character, the rows with that character pushed.
  lemma PutShows(t: Terminal, colour: byte, rows: seq<seq<byte>>, c: byte)
    requires Showing(t, rows)
    ensures Showing(Put(t, colour, c), Push(rows, c))
  {
    hide Cells;
    if IsBreak(c) {
      AddRow(t, rows);
      CellsAnywhere(if |rows| >= NUM_ROWS then Scrolled(t) else t, Put(t, colour, c), rows + [[]]);
    } else {
      var last := |rows| - 1;
      var more := rows[..last] + [rows[last] + [c]];
      var u := t.(page := t.page[Cell(t.y, t.x) := c][Cell(t.y, t.x) + 1 := colour]);
      AddChar(t, colour, rows, c);
      if t.x + 1 == NUM_COLS {
        AddRow(u, more);
        assert Push(rows, c) == more + [[]];
        CellsAnywhere(if |rows| >= NUM_ROWS then Scrolled(u) else u, Put(t, colour, c), more + [[]]);
      } else {
        CellsAnywhere(u, Put(t, colour, c), more);
      }
    }
  }

  // Only the page matters for the cells.
  lemma CellsAnywhere(t: Terminal, u: Terminal, rows: seq<seq<byte>>)
    requires |t.page| == PAGE && t.page == u.page && Cells(t, rows)
    ensures Cells(u, rows)
  {
    assert forall r, c :: 0 <= r < NUM_ROWS && 0 <= c < NUM_COLS ==> CharAt(u, r, c) == CharAt(t, r, c);
  }

  // Everything that can happen to one terminal.
  datatype Op = Print(c: byte) | Erase | Protect | Unprotect | Wipe | Key(i: nat, b: byte) | CapsLock

  function Apply(t: Terminal, colour: byte, op: Op): (r: Terminal)
    requires Sound(t)
    ensures Sound(r)
  {
    match op
    case Print(c) => CursorStays(t, colour, c); Put(t, colour, c)
    case Erase => CursorStays(t, colour, 0); Delete(t)
    case Protect => t.(saveY := t.y)
    case Unprotect => t.(saveY := 0)
    case Wipe => Wiped(t, colour)
    case Key(i, b) => if i < 127 then t.(keyboard := t.keyboard[i := b]) else t
    case CapsLock => t.(caps := !t.caps)
  }

  function ApplyAll(t: Terminal, colour: byte, ops: seq<Op>): (r: Terminal)
    requires Sound(t)
    ensures Sound(r)
  {
    if ops == [] then t else Apply(ApplyAll(t, colour, ops[..|ops| - 1]), colour, ops[|ops| - 1])
  }

  lemma {:induction false} ApplyAllConcat(t: Terminal, colour: byte, a: seq<Op>, b: seq<Op>)
    requires Sound(t)
    ensures ApplyAll(t, colour, a + b) == ApplyAll(ApplyAll(t, colour, a), colour, b)
    decreases |b|
  {
    hide Apply;
    if b == [] {
      assert a + b == a;
    } else {
      assert (a + b)[..|a + b| - 1] == a + b[..|b| - 1];
      ApplyAllConcat(t, colour, a, b[..|b| - 1]);
    }
  }

  // No character is erased and the screen is not wiped.
  predicate OnlyPrints(ops: seq<Op>) {
    forall k :: 0 <= k < |ops| ==> !ops[k].Erase? && !ops[k].Wipe?
  }

  // The characters printed by a list of operations.
  function Printed(ops: seq<Op>): seq<byte> {
    if ops == [] then []
    else Printed(ops[..|ops| - 1]) + if ops[|ops| - 1].Print? then [ops[|ops| - 1].c] else []
  }

  // The 25 x 80 characters are the last 25 rows of everything printed since the screen was wiped.
  lemma {:induction false} ShowsPrintedText(t: Terminal, colour: byte, ops: seq<Op>)
    requires Sound(t) && OnlyPrints(ops)
    ensures Showing(ApplyAll(Wiped(t, colour), colour, ops), Wrap(Printed(ops)))
  {
    hide Put, Push, Cells;
    if ops == [] {
      WipedShows(t, colour);
    } else {
      var front, op := ops[..|ops| - 1], ops[|ops| - 1];
      ShowsPrintedText(t, colour, front);
      var u := ApplyAll(Wiped(t, colour), colour, front);
      if op.Print? {
        PutShows(u, colour, Wrap(Printed(front)), op.c);
        WrapPush(Printed(front), op.c);
      } else {
        assert Printed(ops) == Printed(front);
        CellsAnywhere(u, Apply(u, colour, op), Wrap(Printed(front)));
      }
    }
  }

  // deletec takes back the last printed character exactly when its cell was blank, it was not the last cell of the
  // screen, and it was not the last cell of a protected row. Only the colour of the cell stays.
  lemma DeleteUndoesPut(t: Terminal, colour: byte, c: byte)
    requires Sound(t) && !IsBreak(c)
    ensures Sound(Put(t, colour, c))
    ensures Delete(Put(t, colour, c)) == t.(page := t.page[Cell(t.y, t.x) + 1 := colour])
      <==> CharAt(t, t.y, t.x) == BLANK && !(t.x == NUM_COLS - 1 && (t.y == NUM_ROWS - 1 || t.y < t.saveY))
  {
    CursorStays(t, colour, c);
    var at := Cell(t.y, t.x);
    if !(t.x == NUM_COLS - 1 && (t.y == NUM_ROWS - 1 || t.y < t.saveY)) {
      assert Delete(Put(t, colour, c)) == t.(page := t.page[at := c][at + 1 := colour][at := BLANK]);
      assert t.page[at := c][at + 1 := colour][at := BLANK] == t.page[at := BLANK][at + 1 := colour];
      assert t.page[at := BLANK][at + 1 := colour][at] == BLANK && t.page[at + 1 := colour][at] == CharAt(t, t.y, t.x);
    }
  }

  // ----- Typing and erasing -----

  // A text after deletec: nothing happens to it at the start of a protected row.
  function Erased(text: seq<byte>, t: Terminal): seq<byte> {
    if text == [] || (t.x == 0 && t.y <= t.saveY) then text else text[..|text| - 1]
  }

  // The screen can follow: the cursor is inside its row, or stays where it is, or goes back to where the text without
  // its last character ends, which is the last cell of the row above, and nothing has been scrolled.
  predicate Placed(t: Terminal, text: seq<byte>) {
    t.x > 0 || t.y <= t.saveY
    || (text != [] && |Wrap(text)| <= NUM_ROWS
        && var rows := Wrap(text[..|text| - 1]); |rows[|rows| - 1]| == NUM_COLS - 1)
  }

  // The rows differ on the screen in one cell, where the second are blank.
  ghost predicate Blanks(rows: seq<seq<byte>>, rows': seq<seq<byte>>, y: int, x: int) {
    && Top(rows') == Top(rows)
    && forall r, c :: 0 <= r < NUM_ROWS && 0 <= c < NUM_COLS ==> BlanksAt(rows, rows', y, x, r, c)
  }

  ghost predicate BlanksAt(rows: seq<seq<byte>>, rows': seq<seq<byte>>, y: int, x: int, r: int, c: int)
    requires 0 <= r && 0 <= c
  {
    var i := Top(rows) + r;
    RowChar(rows', i, c) == if r == y && c == x then BLANK else RowChar(rows, i, c)
  }

  lemma BlankedCells(t: Terminal, rows: seq<seq<byte>>, rows': seq<seq<byte>>, y: int, x: int)
    requires |t.page| == PAGE && Cells(t, rows) && 0 <= y < NUM_ROWS && 0 <= x < NUM_COLS
    requires Blanks(rows, rows', y, x)
    ensures Cells(t.(page := t.page[Cell(y, x) := BLANK]), rows')
  {
    var u := t.(page := t.page[Cell(y, x) := BLANK]);
    forall r, c | 0 <= r < NUM_ROWS && 0 <= c < NUM_COLS
      ensures CharAt(u, r, c) == RowChar(rows', Top(rows') + r, c)
    {
      assert CharAt(t, r, c) == RowChar(rows, Top(rows) + r, c) && BlanksAt(rows, rows', y, x, r, c);
      assert (r != y || c != x) ==> Cell(r, c) != Cell(y, x);
    }
  }

  // Back over a character of the last row.
  lemma EraseInside(t: Terminal, rows: seq<seq<byte>>, c: byte)
    requires rows != [] && |rows[|rows| - 1]| < NUM_COLS && Showing(t, Push(rows, c)) && t.x > 0
    ensures Showing(Delete(t), rows)
  {
    hide Cells;
    var more := Push(rows, c);
    assert Blanks(more, rows, t.y, t.x - 1);
    BlankedCells(t, more, rows, t.y, t.x - 1);
    CellsAnywhere(t.(page := t.page[Cell(t.y, t.x - 1) := BLANK]), Delete(t), rows);
  }

  // Back over the end of a row.
  lemma EraseBack(t: Terminal, rows: seq<seq<byte>>, c: byte)
    requires rows != [] && |rows[|rows| - 1]| < NUM_COLS && Showing(t, Push(rows, c)) && t.x == 0 && t.y > t.saveY
    ensures Showing(Delete(t), rows) <==> |Push(rows, c)| <= NUM_ROWS && |rows[|rows| - 1]| == NUM_COLS - 1
  {
    hide Cells;
    var more := Push(rows, c);
    if |more| <= NUM_ROWS && |rows[|rows| - 1]| == NUM_COLS - 1 {
      assert Blanks(more, rows, t.y - 1, NUM_COLS - 1);
      BlankedCells(t, more, rows, t.y - 1, NUM_COLS - 1);
      CellsAnywhere(t.(page := t.page[Cell(t.y - 1, NUM_COLS - 1) := BLANK]), Delete(t), rows);
    }
  }

  // At the start of a protected row nothing is erased.
  lemma EraseNothing(t: Terminal, rows: seq<seq<byte>>)
    requires Showing(t, rows) && t.x == 0 && t.y <= t.saveY
    ensures Showing(Delete(t), rows)
  {
    assert CharAt(t, t.y, 0) == RowChar(rows, Top(rows) + t.y, 0) == BLANK;
    assert Delete(t).page == t.page;
  }

  // Back over the last character of a text.
  lemma EraseLast(t: Terminal, front: seq<byte>, c: byte)
    requires Showing(t, Wrap(front + [c])) && (t.x > 0 || t.y > t.saveY)
    ensures var rows := Wrap(front);
      Showing(Delete(t), rows)
      <==> t.x > 0 || (|Wrap(front + [c])| <= NUM_ROWS && |rows[|rows| - 1]| == NUM_COLS - 1)
  {
    hide Showing, Push, Delete, Wrap;
    WrapPush(front, c);
    ShowingBounds(t, Wrap(front + [c]));
    if t.x > 0 {
      EraseInside(t, Wrap(front), c);
    } else {
      EraseBack(t, Wrap(front), c);
    }
  }

  // A screen that shows a text shows the erased text after deletec exactly when it can follow.
  lemma EraseShows(t: Terminal, text: seq<byte>)
    requires Showing(t, Wrap(text))
    ensures Showing(Delete(t), Wrap(Erased(text, t))) <==> Placed(t, text)
  {
    hide Showing, Delete, Wrap;
    ShowingBounds(t, Wrap(text));
    if t.x == 0 && t.y <= t.saveY {
      EraseNothing(t, Wrap(text));
    } else {
      WrapNothing();
      assert text == text[..|text| - 1] + [text[|text| - 1]];
      EraseLast(t, text[..|text| - 1], text[|text| - 1]);
    }
  }

  lemma ShowingBounds(t: Terminal, rows: seq<seq<byte>>)
    requires Showing(t, rows)
    ensures Sound(t) && rows != [] && t.x == |rows[|rows| - 1]| && (|rows| == 1 ==> t.y == 0 <= t.saveY)
  {
  }

  // The text on the screen after some operations: printed, erased, and wiped away.
  function Typed(t: Terminal, colour: byte, ops: seq<Op>): seq<byte>
    requires Sound(t)
  {
    if ops == [] then []
    else
      var front := ops[..|ops| - 1];
      match ops[|ops| - 1]
      case Print(c) => Typed(t, colour, front) + [c]
      case Erase => Erased(Typed(t, colour, front), ApplyAll(t, colour, front))
      case Wipe => []
      case _ => Typed(t, colour, front)
  }

  // After every one of the operations the screen shows the text.
  ghost predicate LooksTyped(t: Terminal, colour: byte, ops: seq<Op>)
    requires Sound(t)
  {
    forall k :: 0 <= k <= |ops| ==> Showing(ApplyAll(t, colour, ops[..k]), Wrap(Typed(t, colour, ops[..k])))
  }

  ghost predicate ErasesPlaced(t: Terminal, colour: byte, ops: seq<Op>)
    requires Sound(t)
  {
    forall k :: 0 <= k < |ops| && ops[k].Erase? ==>
      Placed(ApplyAll(t, colour, ops[..k]), Typed(t, colour, ops[..k]))
  }

  lemma OpShows(t: Terminal, colour: byte, ops: seq<Op>, k: nat)
    requires Sound(t) && k < |ops| && Showing(ApplyAll(t, colour, ops[..k]), Wrap(Typed(t, colour, ops[..k])))
    ensures Showing(ApplyAll(t, colour, ops[..k + 1]), Wrap(Typed(t, colour, ops[..k + 1])))
      <==> !ops[k].Erase? || Placed(ApplyAll(t, colour, ops[..k]), Typed(t, colour, ops[..k]))
  {
    hide Put, Push, Cells, Delete, Placed, Erased;
    assert ops[..k + 1][..k] == ops[..k];
    var u, text := ApplyAll(t, colour, ops[..k]), Typed(t, colour, ops[..k]);
    match ops[k] {
      case Print(c) =>
        PutShows(u, colour, Wrap(text), c);
        WrapPush(text, c);
      case Erase => EraseShows(u, text);
      case Wipe => WipedShows(u, colour);
      case _ => CellsAnywhere(u, Apply(u, colour, ops[k]), Wrap(text));
    }
  }

  // From a cleared screen on, the screen shows the text all along if and only if every erased character was one that it
  // can follow.
  lemma TypedShowsIff(t: Terminal, colour: byte, ops: seq<Op>)
    requires Sound(t)
    ensures var u := Wiped(t, colour); LooksTyped(u, colour, ops) <==> ErasesPlaced(u, colour, ops)
  {
    hide Showing, Placed, Wiped, Typed, ApplyAll;
    var u := Wiped(t, colour);
    if ErasesPlaced(u, colour, ops) {
      forall k | 0 <= k <= |ops|
        ensures Showing(ApplyAll(u, colour, ops[..k]), Wrap(Typed(u, colour, ops[..k])))
      {
        TypedUpTo(t, colour, ops, k);
      }
    }
    if LooksTyped(u, colour, ops) {
      forall k | 0 <= k < |ops| && ops[k].Erase?
        ensures Placed(ApplyAll(u, colour, ops[..k]), Typed(u, colour, ops[..k]))
      {
        OpShows(u, colour, ops, k);
      }
    }
  }

  lemma {:induction false} TypedUpTo(t: Terminal, colour: byte, ops: seq<Op>, k: nat)
    requires Sound(t) && k <= |ops| && ErasesPlaced(Wiped(t, colour), colour, ops)
    ensures var u := Wiped(t, colour); Showing(ApplyAll(u, colour, ops[..k]), Wrap(Typed(u, colour, ops[..k])))
  {
    hide Showing, Placed, Wiped;
    if k == 0 {
      WipedShows(t, colour);
    } else {
      hide Typed, ApplyAll;
      TypedUpTo(t, colour, ops, k - 1);
      OpShows(Wiped(t, colour), colour, ops, k - 1);
    }
  }

  // What terminal_write prints for a buffer: NULs are dropped and a tab becomes four spaces.
  function Expand(buf: seq<byte>): (text: seq<byte>) {
    if buf == [] then []
    else
      var c := buf[|buf| - 1];
      Expand(buf[..|buf| - 1]) + if c == 0 then [] else if c == 9 then [BLANK, BLANK, BLANK, BLANK] else [c]
  }

  lemma {:induction false} ExpandJoin(a: seq<byte>, b: seq<byte>)
    ensures Expand(a + b) == Expand(a) + Expand(b)
    decreases |b|
  {
    if b == [] {
      assert a + b == a;
    } else {
      assert (a + b)[..|a + b| - 1] == a + b[..|b| - 1];
      ExpandJoin(a, b[..|b| - 1]);
    }
  }

  // Every NUL is left out, every tab is four blanks, and any other text is printed as it is.
  lemma ExpandIs(text: seq<byte>)
    ensures Expand([0]) == [] && Expand([9]) == [32, 32, 32, 32]
    ensures 0 !in text && 9 !in text ==> Expand(text) == text
  {
    hide Expand;
    ExpandOne();
    if 0 !in text && 9 !in text {
      ExpandPlain(text);
    }
  }

  lemma {:induction false} ExpandPlain(text: seq<byte>)
    requires 0 !in text && 9 !in text
    ensures Expand(text) == text
  {
    if text != [] {
      var front, c := text[..|text| - 1], text[|text| - 1];
      assert c in text && forall k :: 0 <= k < |front| ==> front[k] in text;
      ExpandPlain(front);
      assert text == front + [c];
    }
  }

  lemma ExpandOne()
    ensures forall c: byte ::
      Expand([c]) == if c == 0 then [] else if c == 9 then [BLANK, BLANK, BLANK, BLANK] else [c]
  {
    forall c: byte
      ensures Expand([c]) == if c == 0 then [] else if c == 9 then [BLANK, BLANK, BLANK, BLANK] else [c]
    {
      assert [c][..0] == [];
    }
  }

  function Prints(text: seq<byte>): (ops: seq<Op>)
    ensures |ops| == |text|
  {
    seq(|text|, k requires 0 <= k < |text| => Print(text[k]))
  }
}
