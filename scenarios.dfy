/** Concrete games: the reference run of the program, a ray absorbed
    head-on, a reflected shot reporting the last recorded port, and a closed
    cycle of ray states that no fuel bound ends. */
module Scenarios {
  import opened Grid
  import opened Rays
  import opened BlackBox

  /** The program's reference run: with atoms (5, 1), (5, 3) and (8, 1), a
      wrong guess, a right guess and the same right guess again leave a
      score of 20 and two atoms to find. */
  method ReferenceRun() returns (first: bool, second: bool, third: bool, score: int, left: int)
    ensures !first && second && third
    ensures score == 20 && left == 2
  {
    var game := new BlackBoxGame([(5, 1), (5, 3), (8, 1)]);
    first := game.GuessAtom(5, 6);
    second := game.GuessAtom(5, 1);
    third := game.GuessAtom(5, 1);
    score := game.GetScore();
    left := game.AtomsLeft();
  }

  /** A cell of a board built for an atom list, spelled out. */
  lemma BoardCell(b: Board, atoms: seq<Coord>, r: int, c: int)
    requires IsBoardOf(b, atoms) && InGrid(r, c)
    ensures b[r][c] == (if OnBorder(r, c) then Border else if (r, c) in atoms then Atom else Empty)
  {
  }

  /** Column 1 of the reference board down to the atom at (5, 1), with the columns on either side. */
  ghost predicate ColumnOneCells(b: Board)
    requires WellFormed(b)
  {
    b[0][1] == Border &&
    b[1][1] == Empty &&
    b[2][1] == Empty &&
    b[3][1] == Empty &&
    b[4][1] == Empty &&
    b[5][1] == Atom &&
    b[1][0] == Border &&
    b[2][0] == Border &&
    b[3][0] == Border &&
    b[4][0] == Border &&
    b[5][0] == Border &&
    b[1][2] == Empty &&
    b[2][2] == Empty &&
    b[3][2] == Empty &&
    b[4][2] == Empty &&
    b[5][2] == Empty
  }

  /** The reference board has those cells. */
  lemma ColumnOneBoard(b: Board)
    requires IsBoardOf(b, [(5, 1), (5, 3), (8, 1)])
    ensures ColumnOneCells(b)
  {
    BoardCell(b, [(5, 1), (5, 3), (8, 1)], 0, 1);
    BoardCell(b, [(5, 1), (5, 3), (8, 1)], 1, 1);
    BoardCell(b, [(5, 1), (5, 3), (8, 1)], 2, 1);
    BoardCell(b, [(5, 1), (5, 3), (8, 1)], 3, 1);
    BoardCell(b, [(5, 1), (5, 3), (8, 1)], 4, 1);
    BoardCell(b, [(5, 1), (5, 3), (8, 1)], 5, 1);
    BoardCell(b, [(5, 1), (5, 3), (8, 1)], 1, 0);
    BoardCell(b, [(5, 1), (5, 3), (8, 1)], 2, 0);
    BoardCell(b, [(5, 1), (5, 3), (8, 1)], 3, 0);
    BoardCell(b, [(5, 1), (5, 3), (8, 1)], 4, 0);
    BoardCell(b, [(5, 1), (5, 3), (8, 1)], 5, 0);
    BoardCell(b, [(5, 1), (5, 3), (8, 1)], 1, 2);
    BoardCell(b, [(5, 1), (5, 3), (8, 1)], 2, 2);
    BoardCell(b, [(5, 1), (5, 3), (8, 1)], 3, 2);
    BoardCell(b, [(5, 1), (5, 3), (8, 1)], 4, 2);
    BoardCell(b, [(5, 1), (5, 3), (8, 1)], 5, 2);
  }

  /** Each cell of column 1 down to row 4 is one the ray passes. */
  lemma ColumnOneRows(b: Board)
    requires WellFormed(b) && ColumnOneCells(b)
    ensures Passes(b, (0, 1), Down, 0) &&
            Passes(b, (1, 1), Down, 1) &&
            Passes(b, (2, 1), Down, 2) &&
            Passes(b, (3, 1), Down, 3) &&
            Passes(b, (4, 1), Down, 4)
  {
    assert Diag(0, 1, Down, LeftOf(Down)) == (1, 2) && Diag(0, 1, Down, RightOf(Down)) == (1, 0);
    assert Passes(b, (0, 1), Down, 0);
    assert Diag(1, 1, Down, LeftOf(Down)) == (2, 2) && Diag(1, 1, Down, RightOf(Down)) == (2, 0);
    assert Passes(b, (1, 1), Down, 1);
    assert Diag(2, 1, Down, LeftOf(Down)) == (3, 2) && Diag(2, 1, Down, RightOf(Down)) == (3, 0);
    assert Passes(b, (2, 1), Down, 2);
    assert Diag(3, 1, Down, LeftOf(Down)) == (4, 2) && Diag(3, 1, Down, RightOf(Down)) == (4, 0);
    assert Passes(b, (3, 1), Down, 3);
    assert Diag(4, 1, Down, LeftOf(Down)) == (5, 2) && Diag(4, 1, Down, RightOf(Down)) == (5, 0);
    assert Passes(b, (4, 1), Down, 4);
  }

  /** On the reference board, column 1 from the top border down to row 4 is
      a lane the ray crosses without turning. */
  lemma ColumnOneClear(b: Board)
    requires WellFormed(b) && ColumnOneCells(b)
    ensures forall i :: 0 <= i < 5 ==> Passes(b, Ahead(0, 1, Down, i), Down, i)
  {
    ColumnOneRows(b);
    forall i | 0 <= i < 5
      ensures Passes(b, (i, 1), Down, i)
    {
      if i == 0 {
      } else if i == 1 {
      } else if i == 2 {
      } else if i == 3 {
      } else {
        assert i == 4;
      }
    }
    forall i | 0 <= i < 5
      ensures Passes(b, Ahead(0, 1, Down, i), Down, i)
    {
      assert Ahead(0, 1, Down, i) == (i, 1);
    }
  }

  /** A ray fired down column 1 of the reference board meets the atom at
      (5, 1) head-on and is absorbed, no side atom turning it first; only
      the entry port is charged. */
  lemma ColumnOneAbsorbed(b: Board)
    requires IsBoardOf(b, [(5, 1), (5, 3), (8, 1)])
    ensures Shoot(b, [], 0, 1) == (Traced(Hit), [(0, 1)])
  {
    ColumnOneHit(b, (0, 1), RayFuel);
    ShootFresh(b, [], 0, 1, Down, Hit);
    assert [] + [(0, 1)] == [(0, 1)];
  }

  /** The walk down column 1 of the reference board, whatever the last
      recorded port and however much fuel beyond five moves. */
  lemma ColumnOneHit(b: Board, last: Coord, fuel: nat)
    requires IsBoardOf(b, [(5, 1), (5, 3), (8, 1)]) && fuel >= 5
    ensures RayMove(b, 0, 1, Down, 0, last, fuel) == Hit
  {
    ColumnOneBoard(b);
    ColumnOneClear(b);
    HeadOnHit(b, 0, 1, Down, last, fuel, 5);
  }

  /** The same shot in a fresh game: a hit that costs one point. */
  method AbsorbedShot() returns (res: Shot, score: int)
    ensures res == Traced(Hit) && score == 24
  {
    var game := new BlackBoxGame([(5, 1), (5, 3), (8, 1)]);
    ColumnOneAbsorbed(game.board);
    res := game.ShootRay(0, 1);
    assert (res, game.entriesExits) == (Traced(Hit), [(0, 1)]);
    score := game.GetScore();
  }

  /** Column 6 of the board with a lone atom at (1, 4), from border to border, with the columns on either side. */
  ghost predicate ColumnSixCells(b: Board)
    requires WellFormed(b)
  {
    b[0][6] == Border &&
    b[1][6] == Empty &&
    b[2][6] == Empty &&
    b[3][6] == Empty &&
    b[4][6] == Empty &&
    b[5][6] == Empty &&
    b[6][6] == Empty &&
    b[7][6] == Empty &&
    b[8][6] == Empty &&
    b[1][5] == Empty &&
    b[2][5] == Empty &&
    b[3][5] == Empty &&
    b[4][5] == Empty &&
    b[5][5] == Empty &&
    b[6][5] == Empty &&
    b[7][5] == Empty &&
    b[8][5] == Empty &&
    b[1][7] == Empty &&
    b[2][7] == Empty &&
    b[3][7] == Empty &&
    b[4][7] == Empty &&
    b[5][7] == Empty &&
    b[6][7] == Empty &&
    b[7][7] == Empty &&
    b[8][7] == Empty &&
    b[9][5] == Border &&
    b[9][7] == Border
  }

  /** The board with a lone atom at (1, 4) has those cells. */
  lemma ColumnSixBoard(b: Board)
    requires IsBoardOf(b, [(1, 4)])
    ensures ColumnSixCells(b)
  {
    BoardCell(b, [(1, 4)], 0, 6);
    BoardCell(b, [(1, 4)], 1, 6);
    BoardCell(b, [(1, 4)], 2, 6);
    BoardCell(b, [(1, 4)], 3, 6);
    BoardCell(b, [(1, 4)], 4, 6);
    BoardCell(b, [(1, 4)], 5, 6);
    BoardCell(b, [(1, 4)], 6, 6);
    BoardCell(b, [(1, 4)], 7, 6);
    BoardCell(b, [(1, 4)], 8, 6);
    BoardCell(b, [(1, 4)], 1, 5);
    BoardCell(b, [(1, 4)], 2, 5);
    BoardCell(b, [(1, 4)], 3, 5);
    BoardCell(b, [(1, 4)], 4, 5);
    BoardCell(b, [(1, 4)], 5, 5);
    BoardCell(b, [(1, 4)], 6, 5);
    BoardCell(b, [(1, 4)], 7, 5);
    BoardCell(b, [(1, 4)], 8, 5);
    BoardCell(b, [(1, 4)], 1, 7);
    BoardCell(b, [(1, 4)], 2, 7);
    BoardCell(b, [(1, 4)], 3, 7);
    BoardCell(b, [(1, 4)], 4, 7);
    BoardCell(b, [(1, 4)], 5, 7);
    BoardCell(b, [(1, 4)], 6, 7);
    BoardCell(b, [(1, 4)], 7, 7);
    BoardCell(b, [(1, 4)], 8, 7);
    BoardCell(b, [(1, 4)], 9, 5);
    BoardCell(b, [(1, 4)], 9, 7);
  }

  /** Each cell of column 6 down to row 4 is one the ray passes. */
  lemma ColumnSixUpper(b: Board)
    requires WellFormed(b) && ColumnSixCells(b)
    ensures Passes(b, (0, 6), Down, 0) &&
            Passes(b, (1, 6), Down, 1) &&
            Passes(b, (2, 6), Down, 2) &&
            Passes(b, (3, 6), Down, 3) &&
            Passes(b, (4, 6), Down, 4)
  {
    assert Diag(0, 6, Down, LeftOf(Down)) == (1, 7) && Diag(0, 6, Down, RightOf(Down)) == (1, 5);
    assert Passes(b, (0, 6), Down, 0);
    assert Diag(1, 6, Down, LeftOf(Down)) == (2, 7) && Diag(1, 6, Down, RightOf(Down)) == (2, 5);
    assert Passes(b, (1, 6), Down, 1);
    assert Diag(2, 6, Down, LeftOf(Down)) == (3, 7) && Diag(2, 6, Down, RightOf(Down)) == (3, 5);
    assert Passes(b, (2, 6), Down, 2);
    assert Diag(3, 6, Down, LeftOf(Down)) == (4, 7) && Diag(3, 6, Down, RightOf(Down)) == (4, 5);
    assert Passes(b, (3, 6), Down, 3);
    assert Diag(4, 6, Down, LeftOf(Down)) == (5, 7) && Diag(4, 6, Down, RightOf(Down)) == (5, 5);
    assert Passes(b, (4, 6), Down, 4);
  }

  /** Each cell of column 6 from row 5 to row 8 is one the ray passes. */
  lemma ColumnSixLower(b: Board)
    requires WellFormed(b) && ColumnSixCells(b)
    ensures Passes(b, (5, 6), Down, 5) &&
            Passes(b, (6, 6), Down, 6) &&
            Passes(b, (7, 6), Down, 7) &&
            Passes(b, (8, 6), Down, 8)
  {
    assert Diag(5, 6, Down, LeftOf(Down)) == (6, 7) && Diag(5, 6, Down, RightOf(Down)) == (6, 5);
    assert Passes(b, (5, 6), Down, 5);
    assert Diag(6, 6, Down, LeftOf(Down)) == (7, 7) && Diag(6, 6, Down, RightOf(Down)) == (7, 5);
    assert Passes(b, (6, 6), Down, 6);
    assert Diag(7, 6, Down, LeftOf(Down)) == (8, 7) && Diag(7, 6, Down, RightOf(Down)) == (8, 5);
    assert Passes(b, (7, 6), Down, 7);
    assert Diag(8, 6, Down, LeftOf(Down)) == (9, 7) && Diag(8, 6, Down, RightOf(Down)) == (9, 5);
    assert Passes(b, (8, 6), Down, 8);
  }

  /** With a lone atom at (1, 4), column 6 is clear from border to border. */
  lemma ColumnSixClear(b: Board)
    requires WellFormed(b) && ColumnSixCells(b)
    ensures forall i :: 0 <= i < 9 ==> Passes(b, Ahead(0, 6, Down, i), Down, i)
  {
    ColumnSixUpper(b);
    ColumnSixLower(b);
    forall i | 0 <= i < 9
      ensures Passes(b, (i, 6), Down, i)
    {
      if i == 0 {
      } else if i == 1 {
      } else if i == 2 {
      } else if i == 3 {
      } else if i == 4 {
      } else if i == 5 {
      } else if i == 6 {
      } else if i == 7 {
      } else {
        assert i == 8;
      }
    }
    forall i | 0 <= i < 9
      ensures Passes(b, Ahead(0, 6, Down, i), Down, i)
    {
      assert Ahead(0, 6, Down, i) == (i, 6);
    }
  }

  /** With a lone atom at (1, 4), a ray fired at (0, 3) is turned left
      onto the border at once and reports the last recorded port. */
  lemma ColumnThreeEcho(b: Board, last: Coord, fuel: nat)
    requires IsBoardOf(b, [(1, 4)]) && fuel >= 1
    ensures RayMove(b, 0, 3, Down, 0, last, fuel) == ExitAt(last)
  {
    BoardCell(b, [(1, 4)], 1, 4);
    EntryTurnEchoesLast(b, 0, 3, last, fuel);
  }

  /** With a lone atom at (1, 4), a ray fired at (0, 6) leaves at (9, 6). */
  lemma ColumnSixExit(b: Board, last: Coord, fuel: nat)
    requires IsBoardOf(b, [(1, 4)]) && fuel >= 9
    ensures RayMove(b, 0, 6, Down, 0, last, fuel) == ExitAt((9, 6))
  {
    ColumnSixBoard(b);
    ColumnSixClear(b);
    ClearLaneExit(b, 0, 6, Down, last, fuel);
  }

  /** The first shot at (0, 3) reports its own entry, and costs one point. */
  lemma EchoFirst(b: Board)
    requires IsBoardOf(b, [(1, 4)])
    ensures Shoot(b, [], 0, 3) == (Traced(ExitAt((0, 3))), [(0, 3)])
  {
    BoardCell(b, [(1, 4)], 1, 4);
    FreshEntryEcho(b, [], 0, 3);
    assert [] + [(0, 3)] == [(0, 3)];
  }

  /** The shot at (0, 6) crosses the board: two new ports, two points. */
  lemma EchoCross(b: Board)
    requires IsBoardOf(b, [(1, 4)])
    ensures Shoot(b, [(0, 3)], 0, 6) == (Traced(ExitAt((9, 6))), [(0, 3), (0, 6), (9, 6)])
  {
    ColumnSixExit(b, (0, 6), RayFuel);
    ShootFresh(b, [(0, 3)], 0, 6, Down, ExitAt((9, 6)));
    assert [(0, 3)] + [(0, 6)] == [(0, 3), (0, 6)];
    assert (9, 6) !in [(0, 3), (0, 6)];
    assert [(0, 3), (0, 6)] + [(9, 6)] == [(0, 3), (0, 6), (9, 6)];
  }

  /** Firing at (0, 3) again reports (9, 6), the last recorded port, and
      costs nothing. */
  lemma EchoAgain(b: Board)
    requires IsBoardOf(b, [(1, 4)])
    ensures Shoot(b, [(0, 3), (0, 6), (9, 6)], 0, 3) ==
            (Traced(ExitAt((9, 6))), [(0, 3), (0, 6), (9, 6)])
  {
    ColumnThreeEcho(b, (9, 6), RayFuel);
    ShootRecorded(b, [(0, 3), (0, 6), (9, 6)], 0, 3, Down, ExitAt((9, 6)));
  }

  /** The three shots in a fresh game with a lone atom at (1, 4): three
      ports charged, score 22, and the repeated shot at (0, 3) reports the
      exit of the shot before it. */
  method EchoRun() returns (r1: Shot, r2: Shot, r3: Shot, score: int)
    ensures r1 == Traced(ExitAt((0, 3)))
    ensures r2 == Traced(ExitAt((9, 6)))
    ensures r3 == Traced(ExitAt((9, 6)))
    ensures score == 22
  {
    var game := new BlackBoxGame([(1, 4)]);
    EchoFirst(game.board);
    EchoCross(game.board);
    EchoAgain(game.board);
    r1 := game.ShootRay(0, 3);
    r2 := game.ShootRay(0, 6);
    r3 := game.ShootRay(0, 3);
    score := game.GetScore();
  }

  /** The four atoms of a closed cycle of ray states. */
  const CycleAtoms: seq<Coord> := [(5, 6), (2, 6), (2, 3), (5, 3)]

  /** The ray's states around the square inside the four atoms. */
  const CycleRays: seq<RayState> := [(4, 5, Down), (4, 4, Left), (3, 4, Up), (3, 5, Right)]

  // The four corners of the square: each cell is empty and, of its two
  // forward diagonals, only one holds an atom, which turns the ray on to the
  // next corner.

  lemma CycleDown(b: Board)
    requires WellFormed(b) && b[4][5] == Empty && b[5][6] == Atom && b[5][4] == Empty
    ensures OrbitStep(b, (4, 5, Down), (4, 4, Left))
  {
    assert CanLook(4, 5, Down);
    assert Reflection(b, 4, 5, Down) == Down;
    assert Deflection(b, 4, 5, Down) == Left;
  }

  lemma CycleLeft(b: Board)
    requires WellFormed(b) && b[4][4] == Empty && b[5][3] == Atom && b[3][3] == Empty
    ensures OrbitStep(b, (4, 4, Left), (3, 4, Up))
  {
    assert CanLook(4, 4, Left);
    assert Reflection(b, 4, 4, Left) == Left;
    assert Deflection(b, 4, 4, Left) == Up;
  }

  lemma CycleUp(b: Board)
    requires WellFormed(b) && b[3][4] == Empty && b[2][3] == Atom && b[2][5] == Empty
    ensures OrbitStep(b, (3, 4, Up), (3, 5, Right))
  {
    assert CanLook(3, 4, Up);
    assert Reflection(b, 3, 4, Up) == Up;
    assert Deflection(b, 3, 4, Up) == Right;
  }

  lemma CycleRight(b: Board)
    requires WellFormed(b) && b[3][5] == Empty && b[2][6] == Atom && b[4][6] == Empty
    ensures OrbitStep(b, (3, 5, Right), (4, 5, Down))
  {
    assert CanLook(3, 5, Right);
    assert Reflection(b, 3, 5, Right) == Right;
    assert Deflection(b, 3, 5, Right) == Down;
  }

  /** The cells in and around the square, each corner with its two forward
      diagonals. */
  ghost predicate CycleSquare(b: Board)
    requires WellFormed(b)
  {
    b[4][5] == Empty &&
    b[5][6] == Atom &&
    b[5][4] == Empty &&
    b[4][4] == Empty &&
    b[5][3] == Atom &&
    b[3][3] == Empty &&
    b[3][4] == Empty &&
    b[2][3] == Atom &&
    b[2][5] == Empty &&
    b[3][5] == Empty &&
    b[2][6] == Atom &&
    b[4][6] == Empty
  }

  /** The board built for the four atoms has them around the square. */
  lemma CycleCells(b: Board)
    requires IsBoardOf(b, CycleAtoms)
    ensures CycleSquare(b)
  {
    BoardCell(b, CycleAtoms, 4, 5);
    BoardCell(b, CycleAtoms, 5, 6);
    BoardCell(b, CycleAtoms, 5, 4);
    BoardCell(b, CycleAtoms, 4, 4);
    BoardCell(b, CycleAtoms, 5, 3);
    BoardCell(b, CycleAtoms, 3, 3);
    BoardCell(b, CycleAtoms, 3, 4);
    BoardCell(b, CycleAtoms, 2, 3);
    BoardCell(b, CycleAtoms, 2, 5);
    BoardCell(b, CycleAtoms, 3, 5);
    BoardCell(b, CycleAtoms, 2, 6);
    BoardCell(b, CycleAtoms, 4, 6);
  }

  /** On a framed board with those cells, the square is a closed orbit. */
  lemma CycleOrbit(b: Board)
    requires Framed(b) && CycleSquare(b)
    ensures Orbit(b, CycleRays)
  {
    CycleDown(b);
    CycleLeft(b);
    CycleUp(b);
    CycleRight(b);
    forall j | 0 <= j < |CycleRays|
      ensures OrbitStep(b, CycleRays[j], Succ(CycleRays, j))
    {
      if j == 0 {
        assert Succ(CycleRays, 0) == (4, 4, Left);
      } else if j == 1 {
        assert Succ(CycleRays, 1) == (3, 4, Up);
      } else if j == 2 {
        assert Succ(CycleRays, 2) == (3, 5, Right);
      } else {
        assert Succ(CycleRays, 3) == (4, 5, Down);
      }
    }
  }

  /** With atoms at (5, 6), (2, 6), (2, 3) and (5, 3), a ray at (4, 5)
      heading down after two or more moves circles the square (4, 5),
      (4, 4), (3, 4), (3, 5) for ever: its walk never ends, whatever the fuel. */
  lemma ClosedCycle(b: Board, flag: nat, last: Coord, fuel: nat)
    requires IsBoardOf(b, CycleAtoms) && flag >= 2
    ensures Walkable(b, 4, 5, Down, flag)
    ensures RayMove(b, 4, 5, Down, flag, last, fuel) == OutOfFuel
  {
    CycleCells(b);
    CycleOrbit(b);
    OrbitForever(b, CycleRays, 0, flag, last, fuel);
  }
}
