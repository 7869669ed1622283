/** The text terminal: 80 x 25 cells, a cursor, and a scroll that is put off until the next character.

  `Screen` and the functions on it say what the driver's calls do; the lemmas relate the screen to the unbounded
  document of 80 columns that was printed; `Terminal` is the driver's own form over an array of cells.
 */
module Terminal {
  import opened Common
  const COLS: nat := 80
  const ROWS: nat := 25
  const SIZE: nat := 2000
  const TAB_SIZE: nat := 8
  const TWO31: int := 0x8000_0000

  const BACKSPACE: int := 8
  const TAB: int := 9
  const NEWLINE: int := 10
  const RETURN: int := 13

  datatype Cell = Cell(c: int, fmt: int)

  datatype Screen = Screen(cells: seq<Cell>, cursor: nat, fmt: int)

  predicate Inv(s: Screen) {
    |s.cells| == SIZE && s.cursor <= SIZE
  }

  function Put(s: Screen, c: int, fmt: int): (r: Screen)
    requires Inv(s) && s.cursor < SIZE
    ensures Inv(r)
  {
    s.(cells := s.cells[s.cursor := Cell(c, fmt)], cursor := s.cursor + 1)
  }

  /** `n` blanks from the cursor on. */
  function Fill(s: Screen, n: nat, fmt: int): (r: Screen)
    requires Inv(s) && s.cursor + n <= SIZE
    ensures Inv(r) && r.cursor == s.cursor + n && r.fmt == s.fmt
  {
    if n == 0 then s else Put(Fill(s, n - 1, fmt), 0, fmt)
  }

  /** The position as the driver computes it: in unsigned 32-bit arithmetic, read as signed, clamped to the screen. */
  function Clamp(row: nat, col: nat): (p: nat)
    ensures p <= SIZE
    ensures COLS * row + col < TWO31 ==> p == if COLS * row + col <= SIZE then COLS * row + col else SIZE
    ensures TWO31 <= COLS * row + col < TWO32 ==> p == 0
  {
    var u := (COLS * row + col) % TWO32;
    var raw := if u >= TWO31 then u - TWO32 else u;
    if raw > SIZE then SIZE else if raw < 0 then 0 else raw
  }

  function SetCursor(s: Screen, row: nat, col: nat): (r: Screen)
    requires Inv(s)
    ensures Inv(r) && r.cells == s.cells && r.fmt == s.fmt
  {
    s.(cursor := Clamp(row, col))
  }

  /** Every row moves up by one; the last becomes blank. */
  function Scroll(s: Screen): (r: Screen)
    requires Inv(s)
    ensures Inv(r) && r.cursor == SIZE
  {
    Fill(s.(cells := s.cells[COLS..] + s.cells[SIZE - COLS..], cursor := SIZE - COLS), COLS, s.fmt)
  }

  /** The screen on which a character is printed: a full one is scrolled now. */
  function Room(s: Screen): (r: Screen)
    requires Inv(s)
    ensures Inv(r) && r.cursor < SIZE
  {
    if s.cursor >= SIZE then SetCursor(Scroll(s), ROWS - 1, 0) else s
  }

  /** Blanks to the end of the row. */
  function Newline(t: Screen, fmt: int): (r: Screen)
    requires Inv(t) && t.cursor < SIZE
    ensures Inv(r)
  {
    SetCursor(Fill(t, COLS - t.cursor % COLS, fmt), t.cursor / COLS + 1, 0)
  }

  function Return(t: Screen): (r: Screen)
    requires Inv(t)
    ensures Inv(r)
  {
    SetCursor(t, t.cursor / COLS, 0)
  }

  /** One cell back; from the start of a row to the end of the row above, if there is one. */
  function Back(t: Screen): (r: Screen)
    requires Inv(t)
    ensures Inv(r)
  {
    var row, col := t.cursor / COLS, t.cursor % COLS;
    if col > 0 then SetCursor(t, row, col - 1) else SetCursor(t, if row > 0 then row - 1 else 0, COLS - 1)
  }

  /** Blanks up to column 8, behind it a single one. */
  function Tab(t: Screen, fmt: int): (r: Screen)
    requires Inv(t) && t.cursor < SIZE
    ensures Inv(r)
  {
    var col := t.cursor % COLS;
    Fill(t, if col < TAB_SIZE then TAB_SIZE - col else 1, fmt)
  }

  function Written(t: Screen, c: int, fmt: int): (r: Screen)
    requires Inv(t) && t.cursor < SIZE
    ensures Inv(r)
  {
    if c == NEWLINE then Newline(t, fmt)
    else if c == RETURN then Return(t)
    else if c == BACKSPACE then Back(t)
    else if c == TAB then Tab(t, fmt)
    else Put(t, c, fmt)
  }

  function RawPutc(s: Screen, c: int, fmt: int): (r: Screen)
    requires Inv(s)
    ensures Inv(r)
  {
    Written(Room(s), c, fmt)
  }

  function Blank(fmt: int): seq<Cell> {
    seq(SIZE, _ => Cell(0, fmt))
  }

  function Cleared(s: Screen): (r: Screen)
    ensures Inv(r)
  {
    Screen(Blank(s.fmt), 0, s.fmt)
  }

  lemma {:induction false} FillCells(s: Screen, n: nat, fmt: int)
    requires Inv(s) && s.cursor + n <= SIZE
    ensures Fill(s, n, fmt).cells
            == s.cells[..s.cursor] + seq(n, _ => Cell(0, fmt)) + s.cells[s.cursor + n..]
  {
    if n > 0 {
      FillCells(s, n - 1, fmt);
    }
  }

  // ---------------------------------------------------------------- the document

  /** Printing on paper: 80 columns, no end. */
  function Append(doc: seq<Cell>, c: int, fmt: int): seq<Cell> {
    if c == NEWLINE then doc + seq(COLS - |doc| % COLS, _ => Cell(0, fmt)) else doc + [Cell(c, fmt)]
  }

  predicate Ordinary(c: int) {
    c != RETURN && c != BACKSPACE && c != TAB
  }

  /** The rows of a document of `n` cells that are above the screen. */
  function Top(n: nat): nat {
    if n <= SIZE then 0 else (n - SIZE + COLS - 1) / COLS
  }

  /** The screen shows the document from row `top` on, and nothing behind its end. */
  ghost predicate ShowsFrom(s: Screen, doc: seq<Cell>, top: nat) {
    && Inv(s) && COLS * top <= |doc| && s.cursor == |doc| - COLS * top
    && (forall i :: 0 <= i < s.cursor ==> s.cells[i] == doc[COLS * top + i])
    && (forall i :: s.cursor <= i < SIZE ==> s.cells[i].c == 0)
  }

  /** The screen shows the tail of the document. */
  ghost predicate Shows(s: Screen, doc: seq<Cell>) {
    ShowsFrom(s, doc, Top(|doc|))
  }

  lemma PutShows(s: Screen, doc: seq<Cell>, top: nat, c: int, fmt: int)
    requires ShowsFrom(s, doc, top) && s.cursor < SIZE
    ensures ShowsFrom(Put(s, c, fmt), doc + [Cell(c, fmt)], top)
  {
  }

  lemma {:induction false} FillShows(s: Screen, doc: seq<Cell>, top: nat, n: nat, fmt: int)
    requires ShowsFrom(s, doc, top) && s.cursor + n <= SIZE
    ensures ShowsFrom(Fill(s, n, fmt), doc + seq(n, _ => Cell(0, fmt)), top)
  {
    if n == 0 {
      assert doc + seq(0, _ => Cell(0, fmt)) == doc;
    } else {
      FillShows(s, doc, top, n - 1, fmt);
      PutShows(Fill(s, n - 1, fmt), doc + seq(n - 1, _ => Cell(0, fmt)), top, 0, fmt);
      assert doc + seq(n - 1, _ => Cell(0, fmt)) + [Cell(0, fmt)] == doc + seq(n, _ => Cell(0, fmt));
    }
  }

  lemma ScrollShows(s: Screen, doc: seq<Cell>, top: nat)
    requires ShowsFrom(s, doc, top) && s.cursor == SIZE
    ensures ShowsFrom(SetCursor(Scroll(s), ROWS - 1, 0), doc, top + 1)
  {
    var moved := s.(cells := s.cells[COLS..] + s.cells[SIZE - COLS..], cursor := SIZE - COLS);
    FillCells(moved, COLS, s.fmt);
    var r := SetCursor(Scroll(s), ROWS - 1, 0);
    assert Clamp(ROWS - 1, 0) == SIZE - COLS;
    forall i | 0 <= i < r.cursor ensures r.cells[i] == doc[COLS * (top + 1) + i] {
      assert r.cells[i] == s.cells[COLS + i];
    }
  }

  lemma TopIs(n: nat, top: nat)
    requires COLS * top <= n <= COLS * top + SIZE
    requires top == 0 || n > COLS * top + SIZE - COLS
    ensures Top(n) == top
  {
  }

  lemma TopBound(n: nat)
    ensures COLS * Top(n) <= n <= COLS * Top(n) + SIZE
    ensures Top(n) == 0 || n > COLS * Top(n) + SIZE - COLS
  {
  }

  /** Printing one character or newline keeps the screen at the tail of the document. */
  lemma PutcShows(s: Screen, doc: seq<Cell>, c: int, fmt: int)
    requires Shows(s, doc) && Ordinary(c)
    ensures Shows(RawPutc(s, c, fmt), Append(doc, c, fmt))
  {
    hide Room, Written, Append, ShowsFrom;
    var top := RoomShows(s, doc);
    WrittenShows(Room(s), doc, top, c, fmt);
  }

  /** After making room the document is shown from some row on. */
  lemma RoomShows(s: Screen, doc: seq<Cell>) returns (top: nat)
    requires Shows(s, doc)
    ensures Inv(s) && ShowsFrom(Room(s), doc, top) && (top == 0 || |doc| >= COLS * top + SIZE - COLS)
  {
    hide ShowsFrom, Scroll, SetCursor, Top;
    top := Top(|doc|);
    TopBound(|doc|);
    ShownLength(s, doc, top);
    if s.cursor >= SIZE {
      ScrollShows(s, doc, top);
      top := top + 1;
    }
  }

  lemma ShownLength(s: Screen, doc: seq<Cell>, top: nat)
    requires ShowsFrom(s, doc, top)
    ensures Inv(s) && |doc| == COLS * top + s.cursor
  {
  }

  lemma WrittenShows(t: Screen, doc: seq<Cell>, top: nat, c: int, fmt: int)
    requires ShowsFrom(t, doc, top) && t.cursor < SIZE && Ordinary(c) && (top == 0 || |doc| >= COLS * top + SIZE - COLS)
    ensures Shows(Written(t, c, fmt), Append(doc, c, fmt))
  {
    ShownLength(t, doc, top);
    if c == NEWLINE {
      NewlineShows(t, doc, top, fmt);
    } else {
      PutShows(t, doc, top, c, fmt);
    }
    hide ShowsFrom, Newline, Fill, Put, SetCursor, Clamp, Top;
    TopIs(|Append(doc, c, fmt)|, top);
  }

  lemma NewlineShows(t: Screen, doc: seq<Cell>, top: nat, fmt: int)
    requires ShowsFrom(t, doc, top) && t.cursor < SIZE
    ensures ShowsFrom(Newline(t, fmt), Append(doc, NEWLINE, fmt), top)
  {
    var row, col := t.cursor / COLS, t.cursor % COLS;
    ShownLength(t, doc, top);
    assert col == |doc| % COLS;
    hide ShowsFrom, Fill;
    FillShows(t, doc, top, COLS - col, fmt);
    assert COLS * (row + 1) == t.cursor + (COLS - col);
    assert SetCursor(Fill(t, COLS - col, fmt), row + 1, 0) == Fill(t, COLS - col, fmt);
  }

  datatype Char = Char(c: int, fmt: int)

  // ---------------------------------------------------------------- what a character does, on the screen before and after

  /** The cells from `lo` up to `hi` are blank and the others as before. */
  ghost predicate Blanked(s: Screen, r: Screen, lo: nat, hi: nat, fmt: int) {
    && |s.cells| == |r.cells|
    && forall i :: 0 <= i < |r.cells| ==> r.cells[i] == if lo <= i < hi then Cell(0, fmt) else s.cells[i]
  }

  /** The rows are one row higher, the last one is blank and has the cursor at its start. */
  ghost predicate Higher(s: Screen, r: Screen) {
    && |s.cells| == |r.cells| == 2000 && r.cursor == 1920 && r.fmt == s.fmt
    && forall i :: 0 <= i < 2000 ==> r.cells[i] == if i < 1920 then s.cells[i + 80] else Cell(0, s.fmt)
  }

  /** What a character does to a screen that is not full: a newline blanks the rest of the row and goes on to the next; a return goes
    to the start of the row; a backspace goes one cell back, and from the first cell to the end of the first row; a tab blanks up to
    column 8 of the row, and behind that one cell; every other character takes the cell. */
  ghost predicate Writes(s: Screen, c: int, fmt: int, r: Screen) {
    var p := s.cursor;
    var start := p - p % 80;
    && r.fmt == s.fmt && |r.cells| == |s.cells|
    && if c == 10 then r.cursor == start + 80 && Blanked(s, r, p, start + 80, fmt)
       else if c == 13 then r.cursor == start && r.cells == s.cells
       else if c == 8 then r.cursor == (if p == 0 then 79 else p - 1) && r.cells == s.cells
       else if c == 9 then r.cursor == (if p < start + 8 then start + 8 else p + 1) && Blanked(s, r, p, r.cursor, fmt)
       else r.cursor == p + 1 && p < |s.cells| && r.cells == s.cells[p := Cell(c, fmt)]
  }

  /** A full screen is moved up first. */
  ghost predicate WritesAnywhere(s: Screen, c: int, fmt: int, r: Screen) {
    if s.cursor < 2000 then Writes(s, c, fmt, r) else exists t :: Higher(s, t) && Writes(t, c, fmt, r)
  }

  lemma FillBlanks(s: Screen, n: nat, fmt: int)
    requires Inv(s) && s.cursor + n <= SIZE
    ensures Blanked(s, Fill(s, n, fmt), s.cursor, s.cursor + n, fmt)
  {
    FillCells(s, n, fmt);
    hide Fill;
  }

  lemma ScrollsHigher(s: Screen)
    requires Inv(s) && s.cursor == SIZE
    ensures Higher(s, Room(s))
  {
    var moved := s.(cells := s.cells[COLS..] + s.cells[SIZE - COLS..], cursor := SIZE - COLS);
    FillBlanks(moved, COLS, s.fmt);
    hide Fill;
    assert forall i :: 0 <= i < SIZE - COLS ==> moved.cells[i] == s.cells[i + COLS];
  }

  lemma NewlineWrites(t: Screen, fmt: int)
    requires Inv(t) && t.cursor < SIZE
    ensures Writes(t, 10, fmt, Newline(t, fmt))
  {
    FillBlanks(t, COLS - t.cursor % COLS, fmt);
    hide Fill;
  }

  lemma TabWrites(t: Screen, fmt: int)
    requires Inv(t) && t.cursor < SIZE
    ensures Writes(t, 9, fmt, Tab(t, fmt))
  {
    var col := t.cursor % COLS;
    FillBlanks(t, if col < TAB_SIZE then TAB_SIZE - col else 1, fmt);
    hide Fill;
  }

  lemma BackWrites(t: Screen, fmt: int)
    requires Inv(t) && t.cursor < SIZE
    ensures Writes(t, 8, fmt, Back(t)) && Writes(t, 13, fmt, Return(t))
  {
  }

  lemma PutcWrites(s: Screen, c: int, fmt: int)
    requires Inv(s)
    ensures WritesAnywhere(s, c, fmt, RawPutc(s, c, fmt))
  {
    var t := Room(s);
    assert Writes(t, c, fmt, Written(t, c, fmt)) by {
      hide Room;
      NewlineWrites(t, fmt);
      TabWrites(t, fmt);
      BackWrites(t, fmt);
      hide Newline, Tab, Back, Return;
    }
    hide Written, Writes;
    if s.cursor == SIZE {
      ScrollsHigher(s);
    }
  }

  function ErasedAt(t: Screen, p: nat, blank: int, fmt: int): Screen
    requires p < |t.cells|
  {
    Screen(t.cells[p := Cell(blank, fmt)], p, t.fmt)
  }

  /** Rubbing out: an ordinary character and then backspace, blank, backspace leave a blank in its cell and the cursor on it; behind
    the last cell of the screen, or on a full one, the screen has moved up by then. */
  lemma RuboutErases(s: Screen, c: int, blank: int, fmt: int)
    requires Inv(s) && Ordinary(c) && c != NEWLINE && Ordinary(blank) && blank != NEWLINE
    ensures var r := RawPutc(RawPutc(RawPutc(RawPutc(s, c, fmt), 8, fmt), blank, fmt), 8, fmt);
            if s.cursor < 1999 then r == s.(cells := s.cells[s.cursor := Cell(blank, fmt)])
            else exists t :: Higher(s, t) && r == ErasedAt(t, if s.cursor == 1999 then 1919 else 1920, blank, fmt)
  {
    var a := RawPutc(s, c, fmt);
    var b := RawPutc(a, 8, fmt);
    var d := RawPutc(b, blank, fmt);
    PutcWrites(s, c, fmt);
    PutcWrites(a, 8, fmt);
    PutcWrites(b, blank, fmt);
    PutcWrites(d, 8, fmt);
    hide RawPutc;
    if s.cursor == 1999 {
      var u :| Higher(a, u) && Writes(u, 8, fmt, b);
      var t := u.(cells := u.cells[1919 := s.cells[1999]]);
      assert Higher(s, t);
      assert d.cells == ErasedAt(t, 1919, blank, fmt).cells;
    } else if s.cursor == 2000 {
      var t :| Higher(s, t) && Writes(t, c, fmt, a);
      assert d.cells == ErasedAt(t, 1920, blank, fmt).cells;
    }
  }

  function PutAll(s: Screen, text: seq<Char>): (r: Screen)
    requires Inv(s)
    ensures Inv(r)
  {
    if text == [] then s
    else RawPutc(PutAll(s, text[..|text| - 1]), text[|text| - 1].c, text[|text| - 1].fmt)
  }

  function Document(text: seq<Char>): seq<Cell> {
    if text == [] then [] else Append(Document(text[..|text| - 1]), text[|text| - 1].c, text[|text| - 1].fmt)
  }

  /** After clearing, any text of ordinary characters and newlines leaves the tail of its document on the screen. */
  lemma {:induction false} ScreenShowsTail(s: Screen, text: seq<Char>)
    requires Inv(s) && forall i :: 0 <= i < |text| ==> Ordinary(text[i].c)
    ensures Shows(PutAll(Cleared(s), text), Document(text))
  {
    if text != [] {
      var before, last := text[..|text| - 1], text[|text| - 1];
      ScreenShowsTail(s, before);
      PutcShows(PutAll(Cleared(s), before), Document(before), last.c, last.fmt);
    }
  }

  // ---------------------------------------------------------------- the driver's form

  class Terminal {
    const video: array<Cell>
    var cursor: nat
    var fmt: int

    constructor (fmt: int)
      ensures Valid() && fresh(video)
    {
      video := new Cell[SIZE](_ => Cell(0, fmt));
      cursor, this.fmt := 0, fmt;
    }

    ghost function Abs(): Screen
      reads this, video
    {
      Screen(video[..], cursor, fmt)
    }

    ghost predicate Valid()
      reads this, video
    {
      Inv(Abs())
    }

    method Print(c: int, f: int)
      requires Valid() && cursor < SIZE
      modifies this`cursor, video
      ensures Abs() == Put(old(Abs()), c, f)
    {
      var pos := cursor;
      cursor := cursor + 1;
      video[pos] := Cell(c, f);
    }

    method Cursor(row: nat, col: nat) returns (p: nat)
      requires Valid()
      modifies this`cursor
      ensures Abs() == SetCursor(old(Abs()), row, col) && p == cursor
    {
      var unsigned := (COLS * row + col) % TWO32;
      var raw := if unsigned >= TWO31 then unsigned - TWO32 else unsigned;
      if raw > SIZE {
        cursor := SIZE;
      } else if raw < 0 {
        cursor := 0;
      } else {
        cursor := raw;
      }
      return cursor;
    }

    /** Copies a row over another. */
    method CopyRow(src: nat, dst: nat)
      requires Valid() && src < ROWS && dst < ROWS && src != dst
      modifies video
      ensures forall i :: 80 * dst <= i < 80 * dst + 80 ==> video[i] == old(video[80 * src + i - 80 * dst])
      ensures forall i :: 0 <= i < SIZE && !(80 * dst <= i < 80 * dst + 80) ==> video[i] == old(video[i])
    {
      var from, to := COLS * src, COLS * dst;
      assert from == 80 * src && to == 80 * dst;
      var j := 0;
      while j < COLS
        invariant j <= COLS
        invariant forall i :: to <= i < to + j ==> video[i] == old(video[from + i - to])
        invariant forall i :: 0 <= i < SIZE && !(to <= i < to + j) ==> video[i] == old(video[i])
      {
        video[to + j] := video[from + j];
        j := j + 1;
      }
    }

    method ScrollUp()
      requires Valid()
      modifies this`cursor, video
      ensures Abs() == Scroll(old(Abs()))
    {
      ghost var cells := video[..];
      var row := 0;
      while row < ROWS - 1
        invariant row <= ROWS - 1 && Valid()
        invariant forall i :: 0 <= i < 80 * row ==> video[i] == cells[i + 80]
        invariant forall i :: 80 * row <= i < SIZE ==> video[i] == cells[i]
      {
        CopyRow(row + 1, row);
        row := row + 1;
      }
      cursor := COLS * (ROWS - 1);
      ghost var moved := Abs();
      MovedUp(cells, moved.cells);
      Blanks(COLS, fmt);
    }

    /** Prints `n` blanks. */
    method Blanks(n: nat, f: int)
      requires Valid() && cursor + n <= SIZE
      modifies this`cursor, video
      ensures Abs() == Fill(old(Abs()), n, f)
    {
      ghost var s := Abs();
      var i := 0;
      while i < n
        invariant i <= n && Valid() && Abs() == Fill(s, i, f)
      {
        Print(0, f);
        i := i + 1;
      }
    }

    /** The driver's switch over the character. */
    method Putc(c: int, f: int)
      requires Valid()
      modifies this`cursor, video
      ensures Valid() && Abs() == RawPutc(old(Abs()), c, f) && WritesAnywhere(old(Abs()), c, f, Abs())
    {
      PutcWrites(Abs(), c, f);
      hide WritesAnywhere;
      hide Room, Newline, Return, Back, Tab, Put;
      MakeRoom();
      if c == NEWLINE {
        PutNewline(f);
      } else if c == RETURN {
        PutReturn();
      } else if c == BACKSPACE {
        PutBack();
      } else if c == TAB {
        PutTab(f);
      } else {
        Print(c, f);
      }
    }

    method MakeRoom()
      requires Valid()
      modifies this`cursor, video
      ensures Valid() && cursor < SIZE && Abs() == Room(old(Abs()))
    {
      hide Scroll, Fill;
      if cursor >= COLS * (ROWS - 1) + COLS {
        ScrollUp();
        var p := Cursor(ROWS - 1, 0);
      }
    }

    method PutNewline(f: int)
      requires Valid() && cursor < SIZE
      modifies this`cursor, video
      ensures Valid() && Abs() == Newline(old(Abs()), f)
    {
      hide SetCursor;
      ghost var t := Abs();
      var row := cursor / COLS;
      ghost var n := 0;
      while cursor < COLS * (row + 1)
        invariant Valid() && cursor == t.cursor + n && n <= COLS - t.cursor % COLS && Abs() == Fill(t, n, f)
        decreases COLS - t.cursor % COLS - n
      {
        Print(0, f);
        n := n + 1;
      }
      var p := Cursor(row + 1, 0);
    }

    method PutReturn()
      requires Valid()
      modifies this`cursor
      ensures Valid() && Abs() == Return(old(Abs()))
      ensures old(cursor) < SIZE ==> cursor == old(cursor) - old(cursor) % 80 && video[..] == old(video[..])
    {
      if cursor < SIZE { BackWrites(Abs(), 0); }
      hide SetCursor;
      var row := cursor / COLS;
      var p := Cursor(row, 0);
    }

    method PutBack()
      requires Valid()
      modifies this`cursor
      ensures Valid() && Abs() == Back(old(Abs()))
      ensures old(cursor) < SIZE ==> cursor == (if old(cursor) == 0 then 79 else old(cursor) - 1) && video[..] == old(video[..])
    {
      if cursor < SIZE { BackWrites(Abs(), 0); }
      hide SetCursor;
      var row, col := cursor / COLS, cursor % COLS;
      var p := Cursor(if col - 1 < 0 then (if row - 1 > 0 then row - 1 else 0) else row, if col - 1 < 0 then COLS + col - 1 else col - 1);
    }

    method PutTab(f: int)
      requires Valid() && cursor < SIZE
      modifies this`cursor, video
      ensures Valid() && Abs() == Tab(old(Abs()), f)
    {
      ghost var t := Abs();
      var col := cursor % COLS;
      ghost var n := 1;
      Print(0, f);
      assert Abs() == Fill(t, 1, f);
      hide Put;
      var at := col + 1;
      while at < COLS && at < TAB_SIZE
        invariant 1 <= n <= if col < TAB_SIZE then TAB_SIZE - col else 1
        invariant Valid() && at == col + n && t.cursor + n <= SIZE && Abs() == Fill(t, n, f)
        decreases COLS - at
      {
        Print(0, f);
        at := at + 1;
        n := n + 1;
      }
    }

    method PrintText(text: seq<int>)
      requires Valid()
      modifies this`cursor, video
      ensures Valid()
      ensures Abs() == PutAll(old(Abs()), seq(|text|, i requires 0 <= i < |text| => Char(text[i], old(fmt))))
    {
      ghost var s := Abs();
      ghost var f := fmt;
      ghost var chars := seq(|text|, i requires 0 <= i < |text| => Char(text[i], f));
      var n := 0;
      while n < |text|
        invariant n <= |text| && Valid() && Abs() == PutAll(s, chars[..n])
      {
        assert chars[..n + 1][..n] == chars[..n];
        Putc(text[n], fmt);
        n := n + 1;
      }
      assert chars[..|text|] == chars;
    }

    /** Prints one blank more than the screen has cells, so that the last of them scrolls. */
    method Clear()
      requires Valid()
      modifies this`cursor, video
      ensures Valid() && Abs() == Cleared(old(Abs()))
    {
      var p := Cursor(0, 0);
      var i := 0;
      while i <= SIZE
        invariant i <= SIZE + 1 && Valid()
        invariant if i <= SIZE then cursor == i else cursor == SIZE - COLS + 1
        invariant forall j :: 0 <= j < i && j < SIZE ==> video[j] == Cell(0, fmt)
      {
        ClearStep(Abs());
        Putc(0, fmt);
        i := i + 1;
      }
      p := Cursor(0, 0);
      assert video[..] == Blank(fmt);
    }
  }

  lemma MovedUp(cells: seq<Cell>, moved: seq<Cell>)
    requires |cells| == |moved| == SIZE
    requires forall i :: 0 <= i < 1920 ==> moved[i] == cells[i + 80]
    requires forall i :: 1920 <= i < SIZE ==> moved[i] == cells[i]
    ensures moved == cells[COLS..] + cells[SIZE - COLS..]
  {
  }

  /** One blank of `Clear`: within the screen a step to the right, on the full screen a scroll of blanks. */
  lemma ClearStep(s: Screen)
    requires Inv(s) && forall j :: 0 <= j < s.cursor ==> s.cells[j] == Cell(0, s.fmt)
    ensures var r := RawPutc(s, 0, s.fmt);
            && r.fmt == s.fmt
            && r.cursor == (if s.cursor < SIZE then s.cursor + 1 else SIZE - COLS + 1)
            && forall j :: 0 <= j < SIZE && j <= s.cursor ==> r.cells[j] == Cell(0, s.fmt)
  {
    hide Newline, Return, Back, Tab;
    if s.cursor >= SIZE {
      FillCells(s.(cells := s.cells[COLS..] + s.cells[SIZE - COLS..], cursor := SIZE - COLS), COLS, s.fmt);
    }
  }
}
