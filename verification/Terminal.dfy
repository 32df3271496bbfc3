/** The text terminal: an 80 x 25 screen that wraps around, and what it shows of everything
    written to it. */
module Terminal {
  import opened Hardware

  const WIDTH := 80
  const HEIGHT := 25
  const CELLS: nat := 2000
  const NEWLINE: Byte := 10
  const SPACE: Byte := 32

  type Cell = c: nat | c < 0x1_0000

  /** `vga_entry`: character in the low byte, colour in the high one. */
  function VgaEntry(c: Byte, color: Byte): (cell: Cell)
    ensures cell % 256 == c && cell / 256 == color
  {
    c + 0x100 * color
  }

  // ----- what was written -----

  /** One character with the colour it is drawn in. */
  datatype Glyph = Glyph(c: Byte, color: Byte)

  function Blanks(n: nat, color: Byte): (r: seq<Cell>)
    ensures |r| == n && forall k | 0 <= k < n :: r[k] == VgaEntry(SPACE, color)
  {
    seq(n, _ => VgaEntry(SPACE, color))
  }

  /** The cells one character adds after n cells: itself, or for a newline the spaces up to the next
      multiple of 80, at least one. */
  function Added(n: nat, g: Glyph): seq<Cell> {
    if g.c == NEWLINE then Blanks(WIDTH - n % WIDTH, g.color) else [VgaEntry(g.c, g.color)]
  }

  /** The history as one long row of cells. */
  function Expand(gs: seq<Glyph>): seq<Cell> {
    if gs == [] then []
    else
      var before := Expand(gs[..|gs| - 1]);
      before + Added(|before|, gs[|gs| - 1])
  }

  lemma {:induction false} ExpandAppend(gs: seq<Glyph>, g: Glyph)
    ensures Expand(gs + [g]) == Expand(gs) + Added(|Expand(gs)|, g)
  {
    assert (gs + [g])[..|gs|] == gs;
  }

  /** The last position below n that falls on screen cell k. */
  function LastAt(n: nat, k: nat): (i: nat)
    requires k < CELLS && k < n
    ensures i < n && i % CELLS == k && n <= i + CELLS
  {
    var i := k + (n - 1 - k) / CELLS * CELLS;
    assert i % CELLS == k;
    i
  }

  /** Screen cell k after the cells h: the last one written there, blank when there is none. */
  function Shown(h: seq<Cell>, k: nat, blank: Cell): Cell
    requires k < CELLS
  {
    if k < |h| then h[LastAt(|h|, k)] else blank
  }

  lemma LastAtUnique(n: nat, k: nat, i: nat)
    requires k < CELLS && i < n && i % CELLS == k && n <= i + CELLS
    ensures k < n && LastAt(n, k) == i
  {
    var j := LastAt(n, k);
    assert i == i / CELLS * CELLS + k && j == j / CELLS * CELLS + k;
  }

  lemma NextRound(i: nat, n: nat)
    requires n % CELLS != i % CELLS && n <= i + CELLS
    ensures n + 1 <= i + CELLS
  {
    assert (i + CELLS) % CELLS == i % CELLS;
  }

  /** One more cell changes exactly the screen cell it falls on. */
  lemma ShownAppend(h: seq<Cell>, c: Cell, k: nat, blank: Cell)
    requires k < 2000
    ensures Shown(h + [c], k, blank) == if |h| % 2000 == k then c else Shown(h, k, blank)
  {
    if |h| % CELLS == k {
      LastAtUnique(|h| + 1, k, |h|);
    } else if k < |h| {
      var i := LastAt(|h|, k);
      NextRound(i, |h|);
      LastAtUnique(|h| + 1, k, i);
    }
  }

  /** Shown is what "last character on this cell" means. */
  lemma ShownIsLast(h: seq<Cell>, k: nat, i: nat, blank: Cell)
    requires k < 2000 && i < |h| && i % 2000 == k
    requires forall j | i < j < |h| :: j % 2000 != k
    ensures Shown(h, k, blank) == h[i]
  {
    assert (i + CELLS) % CELLS == k;
    LastAtUnique(|h|, k, i);
  }

  /** A character other than newline adds one cell, with the character in the low byte and the colour in the
      high one. */
  lemma CharacterAdds(gs: seq<Glyph>, g: Glyph)
    requires g.c != 10
    ensures var h, h' := Expand(gs), Expand(gs + [g]);
            |h'| == |h| + 1 && h <= h' && h'[|h|] % 256 == g.c && h'[|h|] / 256 == g.color
  {
    ExpandAppend(gs, g);
  }

  /** A newline adds 1 to 80 cells and ends on a multiple of 80; each is a space in the current colour. */
  lemma NewlineAligns(gs: seq<Glyph>, color: Byte)
    ensures var h, h' := Expand(gs), Expand(gs + [Glyph(10, color)]);
            && |h| < |h'| <= |h| + 80 && |h'| % 80 == 0 && h <= h'
            && forall i | |h| <= i < |h'| :: h'[i] % 256 == 32 && h'[i] / 256 == color
  {
    ExpandAppend(gs, Glyph(NEWLINE, color));
    var n := |Expand(gs)|;
    assert n + (WIDTH - n % WIDTH) == (n / WIDTH + 1) * WIDTH;
  }

  lemma ShownAll(h: seq<Cell>, c: Cell, at: nat, blank: Cell)
    requires at == |h| % CELLS
    ensures (at + 1) % CELLS == |h + [c]| % CELLS
    ensures forall k | 0 <= k < CELLS :: Shown(h + [c], k, blank) == if k == at then c else Shown(h, k, blank)
  {
    assert (at + 1) % CELLS == (|h| + 1) % CELLS;
    forall k | 0 <= k < CELLS
      ensures Shown(h + [c], k, blank) == if k == at then c else Shown(h, k, blank)
    {
      ShownAppend(h, c, k, blank);
    }
  }

  function NextColumn(column: nat): nat { if column + 1 == WIDTH then 0 else column + 1 }

  // ----- the running terminal -----

  class Terminal {
    var row: nat
    var column: nat
    var color: Byte
    const buffer: array<Cell>
    ghost var written: seq<Glyph>   // every character since initialisation
    ghost var blank: Cell           // what initialisation filled the screen with

    /** The screen is a function of the history, and so is the cursor. */
    ghost predicate Valid()
      reads this, buffer
    {
      && ScreenShows(Expand(written))
    }

    ghost predicate ScreenShows(h: seq<Cell>)
      reads this, buffer
    {
      && buffer.Length == CELLS
      && row < HEIGHT && column < WIDTH
      && row * WIDTH + column == |h| % CELLS
      && forall k | 0 <= k < CELLS :: buffer[k] == Shown(h, k, blank)
    }

    /** `terminal_initialize`: light grey on black, all blank. */
    constructor ()
      ensures Valid() && fresh(buffer) && written == [] && color == 7
      ensures row == column == 0 && blank == 0x0720
      ensures buffer.Length == 2000 && forall k | 0 <= k < 2000 :: buffer[k] == 0x0720
    {
      row, column, color := 0, 0, 7;
      buffer := new Cell[CELLS](_ => VgaEntry(SPACE, 7));
      written, blank := [], VgaEntry(SPACE, 7);
    }

    method SetColor(c: Byte)
      requires Valid()
      modifies `color
      ensures Valid() && color == c
    {
      color := c;
    }

    /** `terminal_putentryat` at the cursor, `terminal_column++`, `terminal_handle_position`: one cell. */
    method PutCell(c: Byte, ghost h: seq<Cell>)
      requires ScreenShows(h)
      modifies `row, `column, buffer
      ensures ScreenShows(h + [VgaEntry(c, color)])
      ensures column == NextColumn(old(column))
      ensures row == if old(column) < 79 then old(row) else (old(row) + 1) % 25
      ensures row * 80 + column == (old(row * 80 + column) + 1) % 2000
      ensures buffer[..] == old(buffer[..])[old(row * 80 + column) := VgaEntry(c, color)]
    {
      ShownAll(h, VgaEntry(c, color), row * WIDTH + column, blank);
      buffer[row * WIDTH + column] := VgaEntry(c, color);
      column := column + 1;
      HandlePosition();
    }

    /** The cursor behind the last column goes to the next row, behind the last row to the first. */
    method HandlePosition()
      requires row < 25 && column <= 80
      modifies `row, `column
      ensures row == (if old(column) < 80 then old(row) else (old(row) + 1) % 25)
      ensures column == if old(column) < 80 then old(column) else 0
      ensures row * 80 + column == old(row * 80 + column) % 2000
    {
      if column == WIDTH {
        column := 0;
        row := row + 1;
      }
      if row == HEIGHT {
        row := 0;
        column := 0;
      }
    }

    /** `terminal_putchar`: the history grows by one character. On the screen, the cell under the cursor
        takes it and the cursor moves on; a newline fills the row from the cursor on with spaces, and the cursor
        goes to the start of the next row. No other cell changes. */
    method PutChar(c: Byte)
      requires Valid()
      modifies `row, `column, `written, buffer
      ensures Valid() && written == old(written) + [Glyph(c, color)]
      ensures c != 10 ==>
                Drawn(old(buffer[..]), buffer[..], old(row * 80 + column), old(row * 80 + column) + 1, c, color)
      ensures c != 10 ==> row * 80 + column == (old(row * 80 + column) + 1) % 2000
      ensures c == 10 ==> Drawn(old(buffer[..]), buffer[..], old(row * 80 + column), old(row) * 80 + 80, 32, color)
      ensures c == 10 ==> column == 0 && row == (old(row) + 1) % 25
    {
      ghost var h := Expand(written);
      ExpandAppend(written, Glyph(c, color));
      if c == NEWLINE {
        ClearRestOfLine(h);
      } else {
        PutCharacter(c, h);
      }
      written := written + [Glyph(c, color)];
    }

    method PutCharacter(c: Byte, ghost h: seq<Cell>)
      requires ScreenShows(h)
      modifies `row, `column, buffer
      ensures ScreenShows(h + [VgaEntry(c, color)])
      ensures Drawn(old(buffer[..]), buffer[..], old(row * 80 + column), old(row * 80 + column) + 1, c, color)
      ensures row * 80 + column == (old(row * 80 + column) + 1) % 2000
    {
      PutCell(c, h);
    }

    /** `terminal_clear_rest_of_line`: at least one space, then spaces until the column is 0. */
    method ClearRestOfLine(ghost h: seq<Cell>)
      requires ScreenShows(h)
      modifies `row, `column, buffer
      ensures ScreenShows(h + Blanks(WIDTH - |h| % WIDTH, color))
      ensures column == 0 && row == (old(row) + 1) % 25
      ensures Drawn(old(buffer[..]), buffer[..], old(row * 80 + column), old(row) * 80 + 80, 32, color)
    {
      ColumnOf(row, column, h);
      ghost var r, done, was, lo := column, 1, buffer[..], row * 80 + column;
      PutSpace(h, 0, was, lo);
      while column != 0
        invariant 1 <= done <= WIDTH - r && ScreenShows(h + Blanks(done, color))
        invariant column == if r + done == WIDTH then 0 else r + done
        invariant row == if r + done == WIDTH then (old(row) + 1) % 25 else old(row)
        invariant Drawn(was, buffer[..], lo, lo + done, 32, color)
        decreases if column == 0 then 0 else WIDTH - column
      {
        PutSpace(h, done, was, lo);
        done := done + 1;
      }
    }

    method PutSpace(ghost h: seq<Cell>, ghost done: nat, ghost was: seq<Cell>, ghost lo: nat)
      requires ScreenShows(h + Blanks(done, color)) && row * 80 + column == lo + done
      requires if done == 0 then was == buffer[..] else Drawn(was, buffer[..], lo, lo + done, 32, color)
      modifies `row, `column, buffer
      ensures ScreenShows(h + Blanks(done + 1, color)) && column == NextColumn(old(column))
      ensures row == if old(column) < 79 then old(row) else (old(row) + 1) % 25
      ensures Drawn(was, buffer[..], lo, lo + done + 1, 32, color)
    {
      PutCell(SPACE, h + Blanks(done, color));
      assert h + Blanks(done, color) + [VgaEntry(SPACE, color)] == h + Blanks(done + 1, color);
    }

    /** `terminal_write` (and `putchar`, its one-character case). */
    method Write(data: seq<Byte>)
      requires Valid()
      modifies `row, `column, `written, buffer
      ensures Valid() && written == old(written) + Colored(data, color)
      ensures |written| == old(|written|) + |data|
      ensures forall i | 0 <= i < |data| :: written[old(|written|) + i] == Glyph(data[i], color)
    {
      WriteEach(data);
      ColoredEach(old(written), written, data, color);
    }

    method WriteEach(data: seq<Byte>)
      requires Valid()
      modifies `row, `column, `written, buffer
      ensures Valid() && written == old(written) + Colored(data, color)
    {
      for i := 0 to |data|
        invariant Valid() && written == old(written) + Colored(data[..i], color)
      {
        PutChar(data[i]);
        ColoredNext(old(written), data, i, color);
      }
      assert data[..|data|] == data;
    }

    /** `terminal_scroll_down`, in place: every row takes the row d below it, the last d rows stay. */
    method ScrollDown(d: nat)
      requires buffer.Length == 2000 && d <= 25
      modifies buffer
      ensures forall k | 0 <= k < 2000 ::
                buffer[k] == if k + d * 80 < 2000 then old(buffer[k + d * 80]) else old(buffer[k])
    {
      ghost var was := buffer[..];
      for i := 0 to HEIGHT - d
        invariant forall k | 0 <= k < CELLS :: buffer[k] == Scrolled(was, d, i * WIDTH, k)
      {
        for j := 0 to WIDTH
          invariant forall k | 0 <= k < CELLS :: buffer[k] == Scrolled(was, d, i * WIDTH + j, k)
        {
          buffer[i * WIDTH + j] := buffer[(i + d) * WIDTH + j];
        }
      }
    }
  }

  /** The cells lo to hi show the character in the colour, all others what they showed. */
  ghost predicate Drawn(was: seq<Cell>, now: seq<Cell>, lo: nat, hi: nat, c: Byte, color: Byte) {
    && |was| == |now| == 2000 && lo < hi <= 2000
    && forall k | 0 <= k < 2000 :: if lo <= k < hi then now[k] % 256 == c && now[k] / 256 == color else now[k] == was[k]
  }

  /** The screen when the first n cells have been scrolled. */
  function Scrolled(was: seq<Cell>, d: nat, n: nat, k: nat): Cell
    requires |was| == CELLS && k < CELLS && n + d * WIDTH <= CELLS
  {
    if k < n then was[k + d * WIDTH] else was[k]
  }

  function Colored(data: seq<Byte>, color: Byte): seq<Glyph> {
    seq(|data|, i requires 0 <= i < |data| => Glyph(data[i], color))
  }

  lemma ColoredNext(before: seq<Glyph>, data: seq<Byte>, i: nat, color: Byte)
    requires i < |data|
    ensures before + Colored(data[..i], color) + [Glyph(data[i], color)] == before + Colored(data[..i + 1], color)
  {
  }

  lemma ColoredEach(before: seq<Glyph>, after: seq<Glyph>, data: seq<Byte>, color: Byte)
    requires after == before + Colored(data, color)
    ensures |after| == |before| + |data|
    ensures forall i | 0 <= i < |data| :: after[|before| + i] == Glyph(data[i], color)
  {
  }

  lemma ColumnOf(row: nat, column: nat, h: seq<Cell>)
    requires column < WIDTH && row * WIDTH + column == |h| % CELLS
    ensures column == |h| % WIDTH
  {
    var q := |h| / CELLS;
    assert |h| == (q * 25 + row) * WIDTH + column;
  }
}
