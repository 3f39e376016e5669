/**
  The drawing canvas: a fixed 16x16 matrix of codes, painted one cell at a
  time with the currently selected palette code while the pointer is down.
 */
module Drawing {
  import opened Codes

  const GridSize: nat := 16

  /** A coordinate that addresses a cell; anything else falls outside the canvas. */
  predicate InBounds(row: int, col: int)
  {
    0 <= row < GridSize && 0 <= col < GridSize
  }

  class Grid {
    var cells: array2<Code>
    var current: Code
    var drawing: bool

    ghost predicate Valid()
      reads this
    {
      cells.Length0 == GridSize && cells.Length1 == GridSize
    }

    /** Every cell holds `c`. */
    ghost predicate Filled(c: Code)
      reads this, cells
    {
      forall i, j :: 0 <= i < cells.Length0 && 0 <= j < cells.Length1 ==> cells[i, j] == c
    }

    /** Start-up: all cells '00', palette on '00', pointer up. */
    constructor ()
      ensures Valid() && fresh(cells) && Filled(B00)
      ensures current == B00 && !drawing
    {
      cells := new Code[GridSize, GridSize]((i, j) => B00);
      current := B00;
      drawing := false;
    }

    /** A palette button: later paint uses `c`. */
    method SelectColor(c: Code)
      modifies this`current
      ensures current == c
    {
      current := c;
    }

    /**
      Pointer (or touch) movement over the canvas at cell coordinate
      (row, col). While the pointer is down and the coordinate is inside the
      canvas, exactly that cell takes the current code; otherwise nothing
      changes.
     */
    method Draw(row: int, col: int)
      requires Valid()
      modifies cells
      ensures Valid()
      ensures drawing && InBounds(row, col) ==> cells[row, col] == current
      ensures forall i, j :: 0 <= i < GridSize && 0 <= j < GridSize && !(drawing && i == row && j == col) ==>
                cells[i, j] == old(cells[i, j])
    {
      if !drawing {
        return;
      }
      if InBounds(row, col) {
        cells[row, col] := current;
      }
    }

    /** Pointer (or touch) down: drawing starts and the cell under the pointer is painted. */
    method StartDrawing(row: int, col: int)
      requires Valid()
      modifies this`drawing, cells
      ensures Valid() && drawing
      ensures InBounds(row, col) ==> cells[row, col] == current
      ensures forall i, j :: 0 <= i < GridSize && 0 <= j < GridSize && !(i == row && j == col) ==>
                cells[i, j] == old(cells[i, j])
    {
      drawing := true;
      Draw(row, col);
    }

    /** Pointer up, pointer leaving the canvas, or touch end. */
    method StopDrawing()
      modifies this`drawing
      ensures !drawing
    {
      drawing := false;
    }

    /** The clear button: a new all-'00' grid replaces the old one, whatever it held. */
    method Clear()
      modifies this`cells
      ensures Valid() && fresh(cells) && Filled(B00)
    {
      cells := new Code[GridSize, GridSize]((i, j) => B00);
    }
  }

  /** A fresh canvas, the '11' palette button, and a press on cell (0, 0). */
  method PaintCornerExample() returns (g: Grid)
    ensures g.Valid() && fresh(g) && fresh(g.cells)
    ensures g.cells[0, 0] == B11
    ensures forall i, j :: 0 <= i < GridSize && 0 <= j < GridSize && (i, j) != (0, 0) ==> g.cells[i, j] == B00
  {
    g := new Grid();
    g.SelectColor(B11);
    g.StartDrawing(0, 0);
    g.StopDrawing();
  }
}
