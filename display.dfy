/** The terminal back buffer that the engine draws into: a viewport of
    Width() columns and Height() rows of characters, plus a count of the
    flushes that pushed the buffer to the physical screen. */
module Display {
  import opened Frames

  class Terminal {
    /** The back buffer, indexed [y, x]. */
    const cells: array2<char>
    /** How many times the buffer has been flushed to the screen. */
    var flushes: nat

    /** A blank viewport of w columns and h rows. */
    constructor (w: nat, h: nat)
      ensures Width() == w && Height() == h && fresh(cells)
      ensures IsBlank() && flushes == 0
    {
      cells := new char[h, w]((y, x) => Blank);
      flushes := 0;
    }

    function Width(): nat {
      cells.Length1
    }

    function Height(): nat {
      cells.Length0
    }

    /** Every cell of the viewport is blank. */
    ghost predicate IsBlank()
      reads cells
    {
      forall y: nat, x: nat :: y < Height() && x < Width() ==> cells[y, x] == Blank
    }

    /** The viewport size, columns first. */
    method Size() returns (w: nat, h: nat)
      ensures w == Width() && h == Height()
    {
      w, h := cells.Length1, cells.Length0;
    }

    /** Blanks every cell of the back buffer. */
    method Clear()
      modifies cells
      ensures IsBlank()
    {
      forall y, x | 0 <= y < cells.Length0 && 0 <= x < cells.Length1 {
        cells[y, x] := Blank;
      }
    }

    /** Writes c at column x of row y and leaves every other cell alone. */
    method SetCell(x: nat, y: nat, c: char)
      requires x < Width() && y < Height()
      modifies cells
      ensures cells[y, x] == c
      ensures forall yy: nat, xx: nat :: yy < Height() && xx < Width() && (yy != y || xx != x) ==>
                cells[yy, xx] == old(cells[yy, xx])
    {
      cells[y, x] := c;
    }

    /** Pushes the back buffer to the screen. */
    method Flush()
      modifies this`flushes
      ensures flushes == old(flushes) + 1
    {
      flushes := flushes + 1;
    }
  }
}
