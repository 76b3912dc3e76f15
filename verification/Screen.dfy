/**
 The text screen of kernel/kernel.c on values: 25 rows of 80 cells that scroll, and the unbounded
 document of which the screen shows the last 25 rows.
 */
module Screen {
  import opened Basics

  const WIDTH: nat := 80
  const HEIGHT: nat := 25
  const CELLS: nat := 2000

  const NEWLINE: int := 10
  const BACKSPACE: int := 8

  /** The character, sign-extended to 16 bits, or-ed with the colour in the high byte. */
  function Cell(c: char8, color: byte): uint16 {
    if c >= 0 then c + 256 * (color as nat) else 0x1_0000 + c
  }

  function BlankRow(color: byte): (r: seq<uint16>)
    ensures |r| == WIDTH && forall i :: 0 <= i < WIDTH ==> r[i] == Cell(32, color)
  {
    seq(WIDTH, _ => Cell(32, color))
  }

  datatype Op = Put(c: char8) | NextLine | SetColor(fg: byte)

  // ---------------------------------------------------------------- the screen

  datatype Display = Display(cells: seq<uint16>, row: nat, col: nat, color: byte) {
    predicate Valid() {
      |cells| == CELLS && row < HEIGHT && col < WIDTH
    }
  }

  /** newline: the cursor moves down, and below the last row everything moves up. */
  function Newline(d: Display): (r: Display)
    requires |d.cells| == CELLS && d.row < HEIGHT
    ensures r.Valid()
  {
    if d.row + 1 >= HEIGHT then Display(d.cells[WIDTH..] + BlankRow(d.color), HEIGHT - 1, 0, d.color)
    else d.(row := d.row + 1, col := 0)
  }

  /** putchar */
  function PutChar(d: Display, c: char8): (r: Display)
    requires d.Valid()
    ensures r.Valid()
  {
    if c == NEWLINE then Newline(d)
    else if c == BACKSPACE && d.col > 0 then
      d.(col := d.col - 1, cells := d.cells[d.row * WIDTH + d.col - 1 := Cell(32, d.color)])
    else
      var e := d.(col := d.col + 1, cells := d.cells[d.row * WIDTH + d.col := Cell(c, d.color)]);
      if e.col >= WIDTH then Newline(e) else e
  }

  function Apply(d: Display, op: Op): (r: Display)
    requires d.Valid()
    ensures r.Valid()
  {
    match op
    case Put(c) => PutChar(d, c)
    case NextLine => Newline(d)
    case SetColor(fg) => d.(color := fg)
  }

  function Replay(d: Display, ops: seq<Op>): (r: Display)
    requires d.Valid()
    ensures r.Valid()
    decreases |ops|
  {
    if ops == [] then d else Replay(Apply(d, ops[0]), ops[1..])
  }

  // ---------------------------------------------------------------- the cells, in numbers

  /** The low byte of a cell is the character's; the high byte is the colour exactly if no sign was extended into it. */
  lemma CellIsCharacterAndColor(c: char8, color: byte)
    ensures Cell(c, color) % 256 == (if c >= 0 then c else c + 256)
    ensures Cell(c, color) / 256 == color <==> c >= 0 || color == 255
  {
  }

  /** Character 0xC4 loses the grey it is written in: the cell is bright white on bright white. */
  lemma HighCharacterLosesColor()
    ensures Cell(-60, 7) == 0xFFC4
  {
  }

  /** A printable character is stored at the cursor in the current colour, and the cursor moves on. */
  lemma PutStoresCell(d: Display, c: char8)
    requires d.Valid() && 32 <= c && d.col < 79
    ensures PutChar(d, c) == d.(col := d.col + 1, cells := d.cells[80 * d.row + d.col := c + 256 * (d.color as nat)])
  {
  }

  /** A backspace blanks the cell before the cursor, if there is one in its row, and goes back to it. */
  lemma BackspaceBlanksCell(d: Display)
    requires d.Valid() && d.col > 0
    ensures PutChar(d, 8)
         == d.(col := d.col - 1, cells := d.cells[80 * d.row + d.col - 1 := 32 + 256 * (d.color as nat)])
  {
  }

  /** A newline goes to the start of the next row; from the last one it moves every row up and blanks the last. */
  lemma NewlineInCells(d: Display, i: nat)
    requires d.Valid() && i < 2000
    ensures PutChar(d, 10) == Newline(d) && Newline(d).col == 0 && Newline(d).color == d.color
    ensures d.row < 24 ==> Newline(d).row == d.row + 1 && Newline(d).cells == d.cells
    ensures d.row == 24 ==> Newline(d).row == 24
    ensures d.row == 24 ==> Newline(d).cells[i] == if i < 1920 then d.cells[i + 80] else 32 + 256 * (d.color as nat)
  {
  }

  /** The last column wraps: the character is stored, and a newline follows. */
  lemma LastColumnWraps(d: Display, c: char8)
    requires d.Valid() && 32 <= c && d.col == 79
    ensures PutChar(d, c) == Newline(d.(cells := d.cells[80 * d.row + 79 := c + 256 * (d.color as nat)]))
  {
  }

  // ---------------------------------------------------------------- the document

  /** Rows only ever get added; the cursor is in one of the last 25. */
  datatype Document = Document(rows: seq<seq<uint16>>, row: nat, col: nat, color: byte) {
    ghost predicate Valid() {
      && |rows| >= HEIGHT && |rows| - HEIGHT <= row < |rows| && col < WIDTH
      && forall r :: 0 <= r < |rows| ==> |rows[r]| == WIDTH
    }

    function Top(): int {
      |rows| - HEIGHT
    }
  }

  function DocNewline(doc: Document): Document {
    if doc.row + 1 >= |doc.rows| then doc.(rows := doc.rows + [BlankRow(doc.color)], row := doc.row + 1, col := 0)
    else doc.(row := doc.row + 1, col := 0)
  }

  function DocWrite(doc: Document, col: nat, cell: uint16): Document
    requires doc.row < |doc.rows| && col < |doc.rows[doc.row]|
  {
    var line: seq<uint16> := doc.rows[doc.row];
    doc.(rows := doc.rows[doc.row := line[col := cell]])
  }

  function DocApply(doc: Document, op: Op): (r: Document)
    requires doc.Valid()
    ensures r.Valid()
  {
    match op
    case SetColor(fg) => doc.(color := fg)
    case NextLine => DocNewline(doc)
    case Put(c) =>
      if c == NEWLINE then DocNewline(doc)
      else if c == BACKSPACE && doc.col > 0 then DocWrite(doc, doc.col - 1, Cell(32, doc.color)).(col := doc.col - 1)
      else
        var e := DocWrite(doc, doc.col, Cell(c, doc.color)).(col := doc.col + 1);
        if e.col >= WIDTH then DocNewline(e) else e
  }

  function DocReplay(doc: Document, ops: seq<Op>): (r: Document)
    requires doc.Valid()
    ensures r.Valid()
    decreases |ops|
  {
    if ops == [] then doc else DocReplay(DocApply(doc, ops[0]), ops[1..])
  }

  /** The last 25 rows, as the screen lays them out. */
  function LastRows(rows: seq<seq<uint16>>): (cells: seq<uint16>)
    requires |rows| >= HEIGHT && forall r :: 0 <= r < |rows| ==> |rows[r]| == WIDTH
    ensures |cells| == CELLS
    ensures forall i :: 0 <= i < CELLS ==> cells[i] == rows[|rows| - HEIGHT + i / WIDTH][i % WIDTH]
  {
    seq(CELLS, i requires 0 <= i < CELLS => rows[|rows| - HEIGHT + i / WIDTH][i % WIDTH])
  }

  function View(doc: Document): (d: Display)
    requires doc.Valid()
    ensures d.Valid()
  {
    Display(LastRows(doc.rows), doc.row - doc.Top(), doc.col, doc.color)
  }

  /** A screen taken as a document of exactly 25 rows. */
  function DocumentOf(d: Display): (doc: Document)
    requires d.Valid()
    ensures doc.Valid()
  {
    Document(seq(HEIGHT, r requires 0 <= r < HEIGHT => d.cells[r * WIDTH..(r + 1) * WIDTH]), d.row, d.col, d.color)
  }

  lemma ViewOfDocumentOf(d: Display)
    requires d.Valid()
    ensures View(DocumentOf(d)) == d
  {
    var doc := DocumentOf(d);
    forall i | 0 <= i < CELLS
      ensures View(doc).cells[i] == d.cells[i]
    {
      assert doc.rows[i / WIDTH] == d.cells[i / WIDTH * WIDTH..(i / WIDTH + 1) * WIDTH];
    }
  }

  // ---------------------------------------------------------------- the screen shows the document

  lemma AppendScrolls(rows: seq<seq<uint16>>, blank: seq<uint16>)
    requires |rows| >= HEIGHT && |blank| == WIDTH && forall r :: 0 <= r < |rows| ==> |rows[r]| == WIDTH
    ensures LastRows(rows + [blank]) == LastRows(rows)[WIDTH..] + blank
  {
    var after := rows + [blank];
    forall i | 0 <= i < CELLS
      ensures LastRows(after)[i] == (LastRows(rows)[WIDTH..] + blank)[i]
    {
      if i < CELLS - WIDTH {
        assert (i + WIDTH) / WIDTH == i / WIDTH + 1 && (i + WIDTH) % WIDTH == i % WIDTH;
      } else {
        assert i / WIDTH == HEIGHT - 1 && i % WIDTH == i - (CELLS - WIDTH);
      }
    }
  }

  lemma WriteShows(doc: Document, col: nat, cell: uint16)
    requires doc.Valid() && col < WIDTH
    ensures LastRows(DocWrite(doc, col, cell).rows)
         == LastRows(doc.rows)[(doc.row - doc.Top()) * WIDTH + col := cell]
  {
    var k := (doc.row - doc.Top()) * WIDTH + col;
    assert k / WIDTH == doc.row - doc.Top() && k % WIDTH == col;
    forall i | 0 <= i < CELLS
      ensures LastRows(DocWrite(doc, col, cell).rows)[i] == LastRows(doc.rows)[k := cell][i]
    {
    }
  }

  /** The screen's newline, scrolling or not, is the document's, seen through the last 25 rows. */
  lemma NewlineShows(doc: Document)
    requires doc.(col := 0).Valid()
    ensures DocNewline(doc).Valid()
    ensures View(DocNewline(doc)) == Newline(Display(LastRows(doc.rows), doc.row - doc.Top(), doc.col, doc.color))
  {
    if doc.row + 1 >= |doc.rows| {
      AppendScrolls(doc.rows, BlankRow(doc.color));
    }
  }

  /** Every operation acts on the screen as it acts on the document. */
  lemma ApplyShows(doc: Document, op: Op)
    requires doc.Valid()
    ensures View(DocApply(doc, op)) == Apply(View(doc), op)
  {
    hide LastRows, Cell, BlankRow;
    match op
    case SetColor(fg) =>
    case NextLine => NewlineShows(doc);
    case Put(c) =>
      if c == NEWLINE {
        NewlineShows(doc);
      } else if c == BACKSPACE && doc.col > 0 {
        WriteShows(doc, doc.col - 1, Cell(32, doc.color));
      } else {
        WriteShows(doc, doc.col, Cell(c, doc.color));
        var e := DocWrite(doc, doc.col, Cell(c, doc.color)).(col := doc.col + 1);
        NewlineShows(e);
      }
  }

  /** Over every run the screen is the last 25 rows of the document. */
  lemma {:induction false} ReplayShows(doc: Document, ops: seq<Op>)
    requires doc.Valid()
    ensures View(DocReplay(doc, ops)) == Replay(View(doc), ops)
    decreases |ops|
  {
    if ops != [] {
      ApplyShows(doc, ops[0]);
      ReplayShows(DocApply(doc, ops[0]), ops[1..]);
    }
  }

  /** From any screen, the run of the code's operations is the view of an unbounded document. */
  lemma ScreenIsTailOfDocument(d: Display, ops: seq<Op>)
    requires d.Valid()
    ensures Replay(d, ops) == View(DocReplay(DocumentOf(d), ops))
  {
    ViewOfDocumentOf(d);
    ReplayShows(DocumentOf(d), ops);
  }

  /** Rows that have scrolled off never change, rows only get added, and at most one per operation. */
  lemma {:induction false} ScrolledRowsAreFinal(doc: Document, ops: seq<Op>)
    requires doc.Valid()
    ensures var r := DocReplay(doc, ops);
            && |doc.rows| <= |r.rows| <= |doc.rows| + |ops|
            && r.rows[..doc.Top()] == doc.rows[..doc.Top()]
    decreases |ops|
  {
    hide Cell, BlankRow;
    if ops != [] {
      var e := DocApply(doc, ops[0]);
      assert e.rows[..doc.Top()] == doc.rows[..doc.Top()];
      ScrolledRowsAreFinal(e, ops[1..]);
      var r := DocReplay(e, ops[1..]);
      assert r.rows[..doc.Top()] == r.rows[..e.Top()][..doc.Top()];
      assert e.rows[..doc.Top()] == e.rows[..e.Top()][..doc.Top()];
    }
  }
}
