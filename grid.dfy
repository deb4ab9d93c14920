/** Geometry of the Black Box board: a 10 by 10 grid whose outer frame
    (rows and columns 0 and 9) is border and whose 8 by 8 interior holds
    empty cells and atoms. */
module Grid {

  /** A (row, col) pair, as the game's tuples. */
  type Coord = (int, int)

  /** The three cell symbols of the board: '#', 'X' and 'O'. */
  datatype Cell = Border | Empty | Atom

  type Board = seq<seq<Cell>>

  predicate InGrid(row: int, col: int) {
    0 <= row <= 9 && 0 <= col <= 9
  }

  predicate OnBorder(row: int, col: int) {
    row == 0 || row == 9 || col == 0 || col == 9
  }

  predicate IsInterior(row: int, col: int) {
    1 <= row <= 8 && 1 <= col <= 8
  }

  predicate IsCorner(row: int, col: int) {
    (row == 0 || row == 9) && (col == 0 || col == 9)
  }

  /** A port is a border cell a ray can enter or leave by: any border cell but a corner. */
  predicate IsPort(p: Coord) {
    InGrid(p.0, p.1) && OnBorder(p.0, p.1) && !IsCorner(p.0, p.1)
  }

  predicate WellFormed(b: Board) {
    |b| == 10 && forall r :: 0 <= r < 10 ==> |b[r]| == 10
  }

  /** Border symbols sit exactly on the frame. */
  ghost predicate Framed(b: Board) {
    WellFormed(b) &&
    forall r, c :: InGrid(r, c) ==> (b[r][c] == Border <==> OnBorder(r, c))
  }

  /** `b` is the board built for the atom list `atoms`: framed, with an atom
      exactly at the interior cells the list names and empty cells elsewhere. */
  ghost predicate IsBoardOf(b: Board, atoms: seq<Coord>) {
    Framed(b) &&
    forall r, c :: InGrid(r, c) ==> (b[r][c] == Atom <==> IsInterior(r, c) && (r, c) in atoms)
  }

  /** True when `p` is on the grid and holds an atom. */
  predicate AtomAt(b: Board, p: Coord)
    requires WellFormed(b)
  {
    InGrid(p.0, p.1) && b[p.0][p.1] == Atom
  }

  /** The cell the first pass of the construction puts at (r, c). */
  function FrameCell(r: int, c: int): Cell {
    if OnBorder(r, c) then Border else Empty
  }

  /** The cell at (r, c) while the second pass of the construction is at
      interior cell (row, col) and has compared it with the first k atoms. */
  ghost function PartialCell(atoms: seq<Coord>, r: int, c: int, row: int, col: int, k: int): Cell
    requires 0 <= k <= |atoms|
  {
    if OnBorder(r, c) then Border
    else if (r < row || (r == row && c < col)) && (r, c) in atoms then Atom
    else if r == row && c == col && (r, c) in atoms[..k] then Atom
    else Empty
  }

  /** The constructor's board: first a frame of border around empty cells,
      row by row and cell by cell; then every interior cell that some atom of
      the list names is overwritten with an atom. Atoms outside the interior
      are never placed. */
  method BuildBoard(atoms: seq<Coord>) returns (b: Board)
    ensures IsBoardOf(b, atoms)
  {
    b := [];
    for row := 0 to 10
      invariant |b| == row
      invariant forall r :: 0 <= r < row ==> |b[r]| == 10
      invariant forall r, c :: 0 <= r < row && 0 <= c < 10 ==> b[r][c] == FrameCell(r, c)
    {
      b := b + [[]];
      for col := 0 to 10
        invariant |b| == row + 1 && |b[row]| == col
        invariant forall r :: 0 <= r < row ==> |b[r]| == 10
        invariant forall r, c :: 0 <= r < row && 0 <= c < 10 ==> b[r][c] == FrameCell(r, c)
        invariant forall c :: 0 <= c < col ==> b[row][c] == FrameCell(row, c)
      {
        if col == 0 || col == 9 || row == 0 || row == 9 {
          b := b[row := b[row] + [Border]];
        } else {
          b := b[row := b[row] + [Empty]];
        }
      }
    }
    for row := 1 to 9
      invariant WellFormed(b)
      invariant forall r, c :: InGrid(r, c) ==> b[r][c] == PartialCell(atoms, r, c, row, 1, 0)
    {
      for col := 1 to 9
        invariant WellFormed(b)
        invariant forall r, c :: InGrid(r, c) ==> b[r][c] == PartialCell(atoms, r, c, row, col, 0)
      {
        for k := 0 to |atoms|
          invariant WellFormed(b)
          invariant forall r, c :: InGrid(r, c) ==> b[r][c] == PartialCell(atoms, r, c, row, col, k)
        {
          assert atoms[..k + 1] == atoms[..k] + [atoms[k]];
          if atoms[k].0 == row && atoms[k].1 == col {
            b := b[row := b[row][col := Atom]];
          }
        }
        assert atoms[..|atoms|] == atoms;
      }
    }
  }
}
