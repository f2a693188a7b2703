/** The text terminal of `tty.c`: a 25 by 80 window onto an unbounded document. */
module Terminal {
  import opened Machine

  const WIDTH := 80
  const HEIGHT := 25
  const CELLS := 2000
  /** Light grey on black. */
  const LIGHT_GREY_ON_BLACK: Color := 7

  /** `uint8_t`. */
  type Color = c: int | 0 <= c < 256

  const BACKSPACE: char := 8 as char

  /** `make_vgaentry`. A character above 127 is sign-extended, which drowns the colour. */
  function Entry(c: char, color: Color): int {
    var b := (c as int) % 256;
    if b < 128 then b + 256 * color else b + 0xff00
  }

  /** The low byte of a cell is the character, the high byte its colour, for characters up to 127. */
  lemma EntryParts(c: char, color: Color)
    ensures Entry(c, color) % 256 == (c as int) % 256
    ensures Entry(c, color) / 256 == if (c as int) % 256 < 128 then color else 255
  {
  }

  function Blank(color: Color): (row: seq<int>)
    ensures |row| == WIDTH
  {
    seq(WIDTH, _ => Entry(' ', color))
  }

  // ---------------------------------------------------------------- the document

  /** All rows ever shown, the row and column of the cursor in them, and the colour in force. */
  datatype Document = Document(lines: seq<seq<int>>, cur: nat, column: nat, color: Color)

  ghost predicate Proper(d: Document) {
    && HEIGHT <= |d.lines| && |d.lines| - HEIGHT <= d.cur < |d.lines| && d.column <= WIDTH
    && forall k :: 0 <= k < |d.lines| ==> |d.lines[k]| == WIDTH
  }

  function Fresh(): (d: Document)
    ensures Proper(d)
  {
    Document(seq(HEIGHT, _ => Blank(LIGHT_GREY_ON_BLACK)), 0, 0, LIGHT_GREY_ON_BLACK)
  }

  function Newline(d: Document): (r: Document)
    requires Proper(d)
    ensures Proper(r) && r.column == 0 && r.cur == d.cur + 1
  {
    d.(column := 0, cur := d.cur + 1,
       lines := if d.cur + 1 == |d.lines| then d.lines + [Blank(d.color)] else d.lines)
  }

  /** A character at the cursor, which moves on. */
  function Put(d: Document, c: char): (r: Document)
    requires Proper(d) && d.column < WIDTH
    ensures Proper(r)
  {
    d.(lines := d.lines[d.cur := d.lines[d.cur][d.column := Entry(c, d.color)]], column := d.column + 1)
  }

  function Step(d: Document, c: char): (r: Document)
    requires Proper(d) && (c == BACKSPACE ==> d.column > 0)
    ensures Proper(r)
  {
    if c == '\n' then Newline(d)
    else if c == '\r' then d.(column := 0)
    else if c == BACKSPACE then Put(d.(column := d.column - 1), ' ').(column := d.column - 1)
    else Put(if d.column == WIDTH then Newline(d) else d, c)
  }

  /** From `d` to `r` one cell is written, and rows are added, if any, that are blank otherwise. */
  ghost predicate OneCell(d: Document, r: Document, y: int, x: int, cell: int) {
    && Proper(d) && Proper(r) && r.color == d.color
    && |r.lines| == (if r.cur < |d.lines| then |d.lines| else r.cur + 1)
    && forall j, k :: 0 <= j < |r.lines| && 0 <= k < 80 ==>
         r.lines[j][k] == if j == y && k == x then cell
                          else if j < |d.lines| then d.lines[j][k]
                          else Entry(' ', d.color)
  }

  ghost predicate NoCell(d: Document, r: Document) {
    OneCell(d, r, -1, -1, 0)
  }

  /** Every kind of character, by the cell it writes and where it leaves the cursor. */
  lemma StepMeaning(d: Document, c: char)
    requires Proper(d) && (c == 8 as char ==> d.column > 0)
    ensures var r := Step(d, c);
            && (c == '\n' ==> r.cur == d.cur + 1 && r.column == 0 && NoCell(d, r))
            && (c == '\r' ==> r.cur == d.cur && r.column == 0 && NoCell(d, r))
            && (c == 8 as char ==>
                  && r.cur == d.cur && r.column == d.column - 1
                  && OneCell(d, r, d.cur, d.column - 1, Entry(' ', d.color)))
            && (c !in ['\n', '\r', 8 as char] && d.column < 80 ==>
                  && r.cur == d.cur && r.column == d.column + 1
                  && OneCell(d, r, d.cur, d.column, Entry(c, d.color)))
            && (c !in ['\n', '\r', 8 as char] && d.column == 80 ==>
                  && r.cur == d.cur + 1 && r.column == 1
                  && OneCell(d, r, d.cur + 1, 0, Entry(c, d.color)))
  {
  }

  /** No backspace is met at column 0. */
  predicate Safe(d: Document, text: string)
    requires Proper(d)
    decreases |text|
  {
    text == "" || ((text[0] == BACKSPACE ==> d.column > 0) && Safe(Step(d, text[0]), text[1..]))
  }

  function Run(d: Document, text: string): (r: Document)
    requires Proper(d) && Safe(d, text)
    ensures Proper(r)
    decreases |text|
  {
    if text == "" then d else Run(Step(d, text[0]), text[1..])
  }

  /** One character is one step, and writing two texts is writing them one after the other. */
  lemma {:induction false} RunConcat(d: Document, a: string, b: string)
    requires Proper(d) && Safe(d, a)
    ensures Safe(d, a + b) <==> Safe(Run(d, a), b)
    ensures Safe(d, a + b) ==> Run(d, a + b) == Run(Run(d, a), b)
    ensures |a| == 1 ==> Run(d, a) == Step(d, a[0])
    decreases |a|
  {
    hide Step;
    if a == "" {
      assert a + b == b;
    } else {
      assert (a + b)[1..] == a[1..] + b;
      RunConcat(Step(d, a[0]), a[1..], b);
    }
  }

  predicate IsPlain(c: char) {
    c != '\n' && c != '\r' && c != 8 as char
  }

  /** A text that fits in the rest of its row stands there afterwards. */
  lemma {:induction false} PlainRow(d: Document, text: string)
    requires Proper(d) && d.column + |text| <= 80 && forall k :: 0 <= k < |text| ==> IsPlain(text[k])
    ensures Safe(d, text)
    ensures var r := Run(d, text);
            && r.cur == d.cur && r.column == d.column + |text| && r.color == d.color && |r.lines| == |d.lines|
            && forall j, k :: 0 <= j < |d.lines| && 0 <= k < 80 ==>
                 r.lines[j][k] == if j == d.cur && d.column <= k < r.column then Entry(text[k - d.column], d.color)
                                  else d.lines[j][k]
    decreases |text|
  {
    hide Step;
    if text != "" {
      StepMeaning(d, text[0]);
      PlainRow(Step(d, text[0]), text[1..]);
    }
  }

  /** The rows the screen shows. */
  function Window(d: Document): (rows: seq<seq<int>>)
    requires Proper(d)
    ensures |rows| == HEIGHT
  {
    d.lines[|d.lines| - HEIGHT..]
  }

  /** What has been written above the cursor row stays for good, on the screen and after it scrolled away. */
  lemma {:induction false} HistoryKept(d: Document, text: string)
    requires Proper(d) && Safe(d, text)
    ensures var r := Run(d, text);
            d.cur <= r.cur && |d.lines| <= |r.lines| && r.lines[..d.cur] == d.lines[..d.cur]
    decreases |text|
  {
    if text != "" {
      var e := Step(d, text[0]);
      HistoryKept(e, text[1..]);
      assert e.lines[..d.cur] == d.lines[..d.cur];
      var r := Run(d, text);
      assert r.lines[..d.cur] == r.lines[..e.cur][..d.cur];
      assert e.lines[..d.cur] == e.lines[..e.cur][..d.cur];
    }
  }

  // ---------------------------------------------------------------- the cursor alone

  /** The cursor after a character and the last cell written, in `size_t` arithmetic. */
  function Cursor(row: nat, column: nat, c: char): (r: (nat, nat, int)) {
    if c == '\n' then (if row + 1 == HEIGHT then row else row + 1, 0, 0)
    else if c == '\r' then (row, 0, 0)
    else if c == BACKSPACE then
      var (row1, column1, cell) := Plain(row, U32(column - 1));
      (row1, U32(column1 - 1), cell)
    else Plain(row, column)
  }

  function Plain(row: nat, column: nat): (nat, nat, int) {
    var row1 := if column == WIDTH && row + 1 != HEIGHT then row + 1 else row;
    var column1 := if column == WIDTH then 0 else column;
    (row1, U32(column1 + 1), U32(row1 * WIDTH + column1))
  }

  /** One character keeps the cursor on the screen exactly when it is no backspace at column 0. */
  lemma CursorStays(row: nat, column: nat, c: char)
    requires row < HEIGHT && column <= WIDTH
    ensures var (row1, column1, cell) := Cursor(row, column, c);
            && (row1 < HEIGHT && column1 <= WIDTH <==> !(c == BACKSPACE && column == 0))
            && (!(c == BACKSPACE && column == 0) ==> 0 <= cell < CELLS)
  {
  }

  /** The cell written by a backspace in the first column of the first row lies outside the buffer. */
  lemma BackspaceAtOrigin()
    ensures Cursor(0, 0, BACKSPACE) == (0, 0xffff_ffff, 0xffff_ffff)
  {
  }

  /** The cursor row on the screen. */
  function RowOf(d: Document): (r: nat)
    requires Proper(d)
    ensures r < HEIGHT
  {
    d.cur - (|d.lines| - HEIGHT)
  }

  /** The cursor is on the screen after every character of the text. */
  predicate StaysOn(row: nat, column: nat, text: string)
    decreases |text|
  {
    text == "" ||
    var (row1, column1, _) := Cursor(row, column, text[0]);
    row1 < HEIGHT && column1 <= WIDTH && StaysOn(row1, column1, text[1..])
  }

  /** The cursor moves as in the document. */
  lemma CursorFollows(d: Document, c: char)
    requires Proper(d) && (c == BACKSPACE ==> d.column > 0)
    ensures Cursor(RowOf(d), d.column, c).0 == RowOf(Step(d, c))
    ensures Cursor(RowOf(d), d.column, c).1 == Step(d, c).column
  {
  }

  /** A text keeps the cursor on the screen exactly when it meets no backspace at column 0. */
  lemma {:induction false} SafeExactly(d: Document, text: string)
    requires Proper(d)
    ensures Safe(d, text) <==> StaysOn(RowOf(d), d.column, text)
    decreases |text|
  {
    if text != "" {
      CursorStays(RowOf(d), d.column, text[0]);
      if text[0] == BACKSPACE ==> d.column > 0 {
        CursorFollows(d, text[0]);
        SafeExactly(Step(d, text[0]), text[1..]);
      }
    }
  }

  // ---------------------------------------------------------------- the screen

  class Screen {
    var row: nat
    var column: nat
    var color: Color
    const buffer: array<int>
    /** The document behind the window. */
    ghost var doc: Document

    ghost predicate Valid()
      reads this, buffer
    {
      && Proper(doc) && buffer.Length == CELLS
      && column == doc.column && color == doc.color && row == doc.cur - (|doc.lines| - HEIGHT)
      && Shows(buffer[..], Window(doc))
    }

    /** `terminal_initialize`. */
    constructor ()
      ensures Valid() && fresh(buffer) && doc == Fresh()
      ensures row == 0 && column == 0 && color == 7 && forall k :: 0 <= k < 2000 ==> buffer[k] == Entry(' ', 7)
    {
      row, column := 0, 0;
      color := LIGHT_GREY_ON_BLACK;
      buffer := new int[CELLS];
      doc := Fresh();
      new;
      var y := 0;
      while y < HEIGHT
        invariant 0 <= y <= HEIGHT
        invariant forall k :: 0 <= k < y * WIDTH ==> buffer[k] == Entry(' ', LIGHT_GREY_ON_BLACK)
        modifies buffer
      {
        var x := 0;
        while x < WIDTH
          invariant 0 <= x <= WIDTH
          invariant forall k :: 0 <= k < y * WIDTH + x ==> buffer[k] == Entry(' ', LIGHT_GREY_ON_BLACK)
          modifies buffer
        {
          buffer[y * WIDTH + x] := Entry(' ', color);
          x := x + 1;
        }
        y := y + 1;
      }
    }

    /** `terminal_setcolor`. */
    method SetColor(c: Color)
      requires Valid()
      modifies this`color, this`doc
      ensures Valid() && doc == old(doc).(color := c)
    {
      color := c;
      doc := doc.(color := c);
    }

    /** `terminal_scroll`: every row moves up one, the last becomes blank. */
    method Scroll()
      requires buffer.Length == CELLS
      modifies buffer
      ensures forall k :: 0 <= k < CELLS ==>
        buffer[k] == if k < CELLS - WIDTH then old(buffer[k + WIDTH]) else Entry(' ', color)
    {
      var y := 1;
      while y < HEIGHT
        invariant 1 <= y <= HEIGHT
        invariant forall k :: 0 <= k < CELLS ==>
          buffer[k] == if k < (y - 1) * WIDTH then old(buffer[k + WIDTH]) else old(buffer[k])
      {
        var x := 0;
        while x < WIDTH
          invariant 0 <= x <= WIDTH
          invariant forall k :: 0 <= k < CELLS ==>
            buffer[k] == if k < (y - 1) * WIDTH + x then old(buffer[k + WIDTH]) else old(buffer[k])
        {
          buffer[(y - 1) * WIDTH + x] := buffer[y * WIDTH + x];
          x := x + 1;
        }
        y := y + 1;
      }
      var x := 0;
      while x < WIDTH
        invariant 0 <= x <= WIDTH
        invariant forall k :: 0 <= k < CELLS - WIDTH ==> buffer[k] == old(buffer[k + WIDTH])
        invariant forall k :: CELLS - WIDTH <= k < CELLS - WIDTH + x ==> buffer[k] == Entry(' ', color)
      {
        buffer[(HEIGHT - 1) * WIDTH + x] := Entry(' ', color);
        x := x + 1;
      }
    }

    /** `terminal_newline`. */
    method TerminalNewline()
      requires Valid()
      modifies this`row, this`column, this`doc, buffer
      ensures Valid() && doc == Newline(old(doc))
    {
      column := 0;
      if row + 1 == HEIGHT {
        Scroll();
        ShowsScrolled(old(buffer[..]), buffer[..], doc);
      } else {
        row := row + 1;
      }
      doc := Newline(doc);
    }

    /** `terminal_putentryat`, for coordinates whose cell is in the buffer. */
    method PutEntryAt(c: char, color: Color, x: nat, y: nat)
      requires buffer.Length == CELLS && y * WIDTH + x < CELLS
      modifies buffer
      ensures buffer[..] == old(buffer[..])[y * WIDTH + x := Entry(c, color)]
    {
      var index := U32(y * WIDTH + x);
      buffer[index] := Entry(c, color);
    }

    /** The character at the cursor, which moves on. */
    method PutEntry(c: char)
      requires Valid() && column < WIDTH
      modifies this`column, this`doc, buffer
      ensures Valid() && doc == Put(old(doc), c)
      ensures column == old(column) + 1 && buffer[..] == old(buffer[..])[row * 80 + old(column) := Entry(c, color)]
    {
      PutEntryAt(c, color, column, row);
      ShowsPut(old(buffer[..]), buffer[..], doc, c, row);
      column := column + 1;
      doc := Put(doc, c);
    }

    /** `terminal_putchar`. */
    method PutChar(c: char)
      requires Valid() && (c == BACKSPACE ==> column > 0)
      modifies this`row, this`column, this`doc, buffer
      ensures Valid() && doc == Step(old(doc), c)
      ensures IsPlain(c) && old(column) < 80 ==>
        && row == old(row) && column == old(column) + 1
        && buffer[..] == old(buffer[..])[row * 80 + old(column) := Entry(c, color)]
    {
      hide Shows, Entry, Put, Newline;
      if c == '\n' {
        TerminalNewline();
      } else if c == '\r' {
        column := 0;
        doc := doc.(column := 0);
      } else if c == BACKSPACE {
        column := column - 1;
        doc := doc.(column := doc.column - 1);
        PutEntry(' ');
        column := column - 1;
        doc := doc.(column := doc.column - 1);
      } else {
        if column == WIDTH {
          TerminalNewline();
        }
        PutEntry(c);
      }
    }

    /** `terminal_write`. */
    method Write(data: string)
      requires Valid() && Safe(doc, data)
      modifies this`row, this`column, this`doc, buffer
      ensures Valid() && doc == Run(old(doc), data)
      ensures row < HEIGHT && column <= WIDTH && Shows(buffer[..], Window(Run(old(doc), data)))
    {
      var i := 0;
      while i < |data|
        invariant 0 <= i <= |data| && Valid() && Safe(doc, data[i..])
        invariant Run(old(doc), data) == Run(doc, data[i..])
      {
        assert data[i..][0] == data[i] && data[i..][1..] == data[i + 1..];
        PutChar(data[i]);
        i := i + 1;
      }
    }
  }

  /** Scrolling shows the window one row further down. */
  lemma ShowsScrolled(before: seq<int>, after: seq<int>, d: Document)
    requires Proper(d) && d.cur + 1 == |d.lines| && Shows(before, Window(d)) && |after| == CELLS
    requires forall k :: 0 <= k < CELLS ==>
      after[k] == if k < CELLS - WIDTH then before[k + WIDTH] else Entry(' ', d.color)
    ensures Shows(after, Window(Newline(d)))
  {
    var was, now := Window(d), Window(Newline(d));
    forall k | 0 <= k < CELLS
      ensures after[k] == now[k / WIDTH][k % WIDTH]
    {
      if k < CELLS - WIDTH {
        assert (k + WIDTH) / WIDTH == k / WIDTH + 1 && (k + WIDTH) % WIDTH == k % WIDTH;
        assert now[k / WIDTH] == was[k / WIDTH + 1];
      } else {
        assert k / WIDTH == HEIGHT - 1;
        assert now[HEIGHT - 1] == Blank(d.color);
      }
    }
  }

  /** One cell written is one cell of the document written. */
  lemma ShowsPut(before: seq<int>, after: seq<int>, d: Document, c: char, row: nat)
    requires Proper(d) && d.column < WIDTH && row == d.cur - (|d.lines| - HEIGHT) && Shows(before, Window(d))
    requires after == before[row * WIDTH + d.column := Entry(c, d.color)]
    ensures Shows(after, Window(Put(d, c)))
  {
    var was, now := Window(d), Window(Put(d, c));
    assert now == was[row := was[row][d.column := Entry(c, d.color)]];
    forall k | 0 <= k < CELLS
      ensures after[k] == now[k / WIDTH][k % WIDTH]
    {
      assert k == row * WIDTH + d.column <==> k / WIDTH == row && k % WIDTH == d.column;
    }
  }

  /** The cells hold these rows, one after the other. */
  ghost predicate Shows(cells: seq<int>, rows: seq<seq<int>>) {
    && |cells| == CELLS && |rows| == HEIGHT
    && (forall y :: 0 <= y < HEIGHT ==> |rows[y]| == WIDTH)
    && (forall k :: 0 <= k < CELLS ==> cells[k] == rows[k / WIDTH][k % WIDTH])
  }
}
