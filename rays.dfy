/** The ray engine: the inward heading of an entry port, the per-cell
    reflection and deflection rules, and the cell-by-cell walk of a ray. */
module Rays {
  import opened Grid

  datatype Option<T> = None | Some(value: T)

  /** A ray heading, or Exit once a reflection has sent the ray back. */
  datatype Direction = Down | Up | Right | Left | Exit

  /** Where a walk ends: absorbed on an atom, out through a port, or still
      moving when its step budget ran out. */
  datatype Trace = Hit | ExitAt(port: Coord) | OutOfFuel

  // Geometry of a heading: how it moves a ray, and its lateral sides.

  function DRow(d: Direction): int {
    match d
    case Down => 1
    case Up => -1
    case _ => 0
  }

  function DCol(d: Direction): int {
    match d
    case Right => 1
    case Left => -1
    case _ => 0
  }

  function Vec(d: Direction): (int, int) {
    (DRow(d), DCol(d))
  }

  function Flip(v: (int, int)): (int, int) {
    (-v.0, -v.1)
  }

  /** The side on the ray's left, seen in its direction of travel. */
  function LeftOf(d: Direction): (int, int) {
    (-DCol(d), DRow(d))
  }

  function RightOf(d: Direction): (int, int) {
    Flip(LeftOf(d))
  }

  /** The side whose forward diagonal the deflection rule looks at first:
      the ray's left for Down, Right and Left, but its right for Up. */
  function FirstSide(d: Direction): (int, int) {
    if d == Up then RightOf(d) else LeftOf(d)
  }

  /** The cell k steps ahead of (row, col) along d; for k = 1, the cell a
      move along d leads to. */
  function Ahead(row: int, col: int, d: Direction, k: int): Coord {
    match d
    case Down => (row + k, col)
    case Up => (row - k, col)
    case Right => (row, col + k)
    case Left => (row, col - k)
    case Exit => (row, col)
  }

  /** The forward diagonal neighbour of (row, col) on side s of heading d. */
  function Diag(row: int, col: int, d: Direction, s: (int, int)): Coord {
    (row + DRow(d) + s.0, col + DCol(d) + s.1)
  }

  /** Both forward diagonals of (row, col) under d lie on the grid, so the
      reflection and deflection rules can read them. */
  predicate CanLook(row: int, col: int, d: Direction) {
    InGrid(row, col) &&
    (d != Exit ==>
       InGrid(Diag(row, col, d, LeftOf(d)).0, Diag(row, col, d, LeftOf(d)).1) &&
       InGrid(Diag(row, col, d, RightOf(d)).0, Diag(row, col, d, RightOf(d)).1))
  }

  /** The heading a ray fired at (row, col) starts with, or None for a corner
      or a cell off the border frame. */
  function StartShootRay(row: int, col: int): (r: Option<Direction>)
    requires InGrid(row, col)
    ensures r.None? <==> IsCorner(row, col) || !OnBorder(row, col)
    ensures r.Some? ==> r.value != Exit && CanLook(row, col, r.value)
    ensures r.Some? ==> IsInterior(row + DRow(r.value), col + DCol(r.value))
  {
    if row == col || row + col == 9 then None
    else if row != 0 && row != 9 && col != 0 && col != 9 then None
    else if row == 0 then Some(Down)
    else if row == 9 then Some(Up)
    else if col == 0 then Some(Right)
    else if col == 9 then Some(Left)
    else None
  }

  /** The inward heading is the only heading that leads from a port into the interior. */
  lemma InwardHeadingUnique(row: int, col: int, d: Direction)
    requires IsPort((row, col)) && d != Exit
    requires IsInterior(row + DRow(d), col + DCol(d))
    ensures StartShootRay(row, col) == Some(d)
  {
  }

  /** The reflection rule: Exit when both forward diagonals of the heading
      hold atoms, the heading unchanged otherwise. */
  function Reflection(b: Board, row: int, col: int, d: Direction): (r: Direction)
    requires WellFormed(b) && CanLook(row, col, d)
  {
    if d == Down && b[row + 1][col + 1] == Atom && b[row + 1][col - 1] == Atom then Exit
    else if d == Up && b[row - 1][col + 1] == Atom && b[row - 1][col - 1] == Atom then Exit
    else if d == Right && b[row - 1][col + 1] == Atom && b[row + 1][col + 1] == Atom then Exit
    else if d == Left && b[row + 1][col - 1] == Atom && b[row - 1][col - 1] == Atom then Exit
    else d
  }

  lemma ReflectionRule(b: Board, row: int, col: int, d: Direction)
    requires WellFormed(b) && CanLook(row, col, d)
    ensures Reflection(b, row, col, d) == Exit <==>
              d == Exit ||
              (AtomAt(b, Diag(row, col, d, LeftOf(d))) && AtomAt(b, Diag(row, col, d, RightOf(d))))
    ensures Reflection(b, row, col, d) != Exit ==> Reflection(b, row, col, d) == d
  {
  }

  /** The deflection rule: a quarter turn away from a forward-diagonal atom,
      the sides checked in a fixed order; the heading unchanged otherwise. */
  function Deflection(b: Board, row: int, col: int, d: Direction): (r: Direction)
    requires WellFormed(b) && CanLook(row, col, d)
  {
    if d == Down && b[row + 1][col + 1] == Atom then Left
    else if d == Down && b[row + 1][col - 1] == Atom then Right
    else if d == Up && b[row - 1][col + 1] == Atom then Left
    else if d == Up && b[row - 1][col - 1] == Atom then Right
    else if d == Right && b[row - 1][col + 1] == Atom then Down
    else if d == Right && b[row + 1][col + 1] == Atom then Up
    else if d == Left && b[row + 1][col - 1] == Atom then Up
    else if d == Left && b[row - 1][col - 1] == Atom then Down
    else d
  }

  /** Deflection turns away from the first forward-diagonal atom it finds,
      looking at the first side first, and leaves the heading (Exit included)
      alone when neither forward diagonal holds an atom. */
  lemma DeflectionRule(b: Board, row: int, col: int, d: Direction)
    requires WellFormed(b) && CanLook(row, col, d)
    ensures var r := Deflection(b, row, col, d);
            (d != Exit && AtomAt(b, Diag(row, col, d, FirstSide(d))) ==>
               Vec(r) == Flip(FirstSide(d))) &&
            (d != Exit && !AtomAt(b, Diag(row, col, d, FirstSide(d))) &&
             AtomAt(b, Diag(row, col, d, Flip(FirstSide(d)))) ==>
               Vec(r) == FirstSide(d)) &&
            (d == Exit ||
             (!AtomAt(b, Diag(row, col, d, LeftOf(d))) && !AtomAt(b, Diag(row, col, d, RightOf(d)))) ==>
               r == d)
  {
  }

  /** The heading a ray leaves a cell with: reflection, then deflection. */
  function Turn(b: Board, row: int, col: int, d: Direction): Direction
    requires WellFormed(b) && CanLook(row, col, d)
  {
    Deflection(b, row, col, Reflection(b, row, col, d))
  }

  /** The rule for one cell, reflection first and deflection second: two
      forward-diagonal atoms send the ray back, one turns it away from itself,
      none lets it go on. The order in which deflection checks the sides does
      not matter, because reflection has already caught the two-atom case. */
  lemma CellRule(b: Board, row: int, col: int, d: Direction)
    requires WellFormed(b) && CanLook(row, col, d) && d != Exit
    ensures var l := AtomAt(b, Diag(row, col, d, LeftOf(d)));
            var r := AtomAt(b, Diag(row, col, d, RightOf(d)));
            var next := Turn(b, row, col, d);
            (l && r ==> next == Exit) &&
            (l && !r ==> Vec(next) == RightOf(d)) &&
            (!l && r ==> Vec(next) == LeftOf(d)) &&
            (!l && !r ==> next == d)
  {
    ReflectionRule(b, row, col, d);
    DeflectionRule(b, row, col, Reflection(b, row, col, d));
  }

  /** The states the walk can be in: on the entry port with the inward-looking
      heading (flag 0), or on the grid after at least one move, and never on a
      corner after two or more moves. */
  ghost predicate Walkable(b: Board, row: int, col: int, d: Direction, flag: nat) {
    Framed(b) && d != Exit &&
    (flag == 0 ==> CanLook(row, col, d)) &&
    (flag >= 1 ==> InGrid(row, col)) &&
    (flag >= 2 ==> !IsCorner(row, col))
  }

  /** A ray that turns at (row, col) keeps its axis or turns a quarter, so
      its next cell is on the grid: a state the walk can be in. */
  lemma NextWalkable(b: Board, row: int, col: int, d: Direction, flag: nat)
    requires Walkable(b, row, col, d, flag)
    requires b[row][col] != Atom && !(b[row][col] == Border && flag >= 1)
    requires Turn(b, row, col, d) != Exit
    ensures var n := Ahead(row, col, Turn(b, row, col, d), 1);
            Walkable(b, n.0, n.1, Turn(b, row, col, d), flag + 1)
  {
    CellRule(b, row, col, d);
  }

  /** The walk of a ray from (row, col) under heading d, where flag counts the
      moves made and last is the most recently recorded port: an atom under
      the ray absorbs it; the border reached after moves ends it (after one
      move it reports last); otherwise the ray advances. */
  function RayMove(b: Board, row: int, col: int, d: Direction, flag: nat, last: Coord, fuel: nat): (t: Trace)
    requires Walkable(b, row, col, d, flag)
    decreases fuel, 1
  {
    if b[row][col] == Atom then Hit
    else if b[row][col] == Border && flag >= 1 then
      (if flag == 1 then ExitAt(last) else ExitAt((row, col)))
    else Advance(b, row, col, d, flag, last, fuel)
  }

  /** The rest of the walk of a ray that has not stopped at (row, col): the
      cell's rules give the next heading; a reflection reports last; otherwise
      the ray moves one cell, spending one unit of fuel. */
  function Advance(b: Board, row: int, col: int, d: Direction, flag: nat, last: Coord, fuel: nat): (t: Trace)
    requires Walkable(b, row, col, d, flag)
    requires b[row][col] != Atom && !(b[row][col] == Border && flag >= 1)
    decreases fuel, 0
  {
    var d2 := Turn(b, row, col, d);
    if d2 == Exit then ExitAt(last)
    else if fuel == 0 then OutOfFuel
    else
      NextWalkable(b, row, col, d, flag);
      var next := Ahead(row, col, d2, 1);
      RayMove(b, next.0, next.1, d2, flag + 1, last, fuel - 1)
  }

  /** The ray at (row, col) after flag moves neither stops there nor is sent back. */
  ghost predicate Moves(b: Board, row: int, col: int, d: Direction, flag: nat)
    requires Walkable(b, row, col, d, flag)
  {
    b[row][col] != Atom && !(b[row][col] == Border && flag >= 1) && Turn(b, row, col, d) != Exit
  }

  /** One move of the walk: a ray that moves goes one cell along its new
      heading, into a state the walk can be in. */
  lemma StepRule(b: Board, row: int, col: int, d: Direction, flag: nat, last: Coord, fuel: nat)
    requires Walkable(b, row, col, d, flag) && Moves(b, row, col, d, flag) && fuel > 0
    ensures var n := Ahead(row, col, Turn(b, row, col, d), 1);
            Walkable(b, n.0, n.1, Turn(b, row, col, d), flag + 1) &&
            RayMove(b, row, col, d, flag, last, fuel) ==
            RayMove(b, n.0, n.1, Turn(b, row, col, d), flag + 1, last, fuel - 1)
  {
  }

  /** The walk at an empty cell where the cell's rules give heading d2: out
      of fuel there, or one move on to (nr, nc), the next cell along d2. */
  lemma TurnAt(b: Board, row: int, col: int, d: Direction, d2: Direction, nr: int, nc: int,
               flag: nat, last: Coord, fuel: nat)
    requires Walkable(b, row, col, d, flag) && b[row][col] == Empty
    requires Turn(b, row, col, d) == d2 && d2 != Exit && (nr, nc) == Ahead(row, col, d2, 1)
    ensures Walkable(b, nr, nc, d2, flag + 1)
    ensures fuel == 0 ==> RayMove(b, row, col, d, flag, last, fuel) == OutOfFuel
    ensures fuel > 0 ==> RayMove(b, row, col, d, flag, last, fuel) == RayMove(b, nr, nc, d2, flag + 1, last, fuel - 1)
  {
    NextWalkable(b, row, col, d, flag);
  }

  /** A ray state of the walk away from the entry: cell and heading. */
  type RayState = (int, int, Direction)

  /** At state p the ray is on an empty, non-corner cell of the grid, and the
      cell's rules send it on to state q. */
  ghost predicate OrbitStep(b: Board, p: RayState, q: RayState)
    requires WellFormed(b)
  {
    p.2 != Exit && InGrid(p.0, p.1) && !IsCorner(p.0, p.1) && CanLook(p.0, p.1, p.2) &&
    b[p.0][p.1] == Empty && Turn(b, p.0, p.1, p.2) == q.2 && q.2 != Exit &&
    Ahead(p.0, p.1, q.2, 1) == (q.0, q.1)
  }

  /** The state after s[j] on the closed sequence s: the next one, and the
      first after the last. */
  function Succ(s: seq<RayState>, j: int): RayState
    requires 0 <= j < |s|
  {
    s[(j + 1) % |s|]
  }

  /** A closed orbit of the step rule: each state leads to the next, and the
      last back to the first. */
  ghost predicate Orbit(b: Board, s: seq<RayState>) {
    Framed(b) && |s| > 0 &&
    forall j {:trigger Succ(s, j)} :: 0 <= j < |s| ==> OrbitStep(b, s[j], Succ(s, j))
  }

  /** A ray on a closed orbit never reaches an atom, the border or a
      reflection: its walk goes round until the fuel runs out, whatever the
      fuel. Without the bound the walk would not end. */
  lemma {:induction false} OrbitForever(b: Board, s: seq<RayState>, j: int, flag: nat,
                                        last: Coord, fuel: nat)
    requires Orbit(b, s) && 0 <= j < |s| && flag >= 2
    ensures Walkable(b, s[j].0, s[j].1, s[j].2, flag)
    ensures RayMove(b, s[j].0, s[j].1, s[j].2, flag, last, fuel) == OutOfFuel
    decreases fuel
  {
    var k := (j + 1) % |s|;
    assert OrbitStep(b, s[j], Succ(s, j));
    TurnAt(b, s[j].0, s[j].1, s[j].2, s[k].2, s[k].0, s[k].1, flag, last, fuel);
    if fuel > 0 {
      OrbitForever(b, s, k, flag + 1, last, fuel - 1);
    }
  }

  /** The ends of the walk: absorbed on an atom, stopped on the border, sent
      back by a reflection, or out of fuel. */
  lemma StopRule(b: Board, row: int, col: int, d: Direction, flag: nat, last: Coord, fuel: nat)
    requires Walkable(b, row, col, d, flag) && !(Moves(b, row, col, d, flag) && fuel > 0)
    ensures RayMove(b, row, col, d, flag, last, fuel) ==
            if b[row][col] == Atom then Hit
            else if b[row][col] == Border && flag == 1 then ExitAt(last)
            else if b[row][col] == Border && flag >= 2 then ExitAt((row, col))
            else if Turn(b, row, col, d) == Exit then ExitAt(last)
            else OutOfFuel
  {
  }

  /** A port a walk reports is either the last recorded port or a port
      proper: a border cell that is not a corner. */
  lemma {:induction false} WalkExits(b: Board, row: int, col: int, d: Direction, flag: nat,
                                     last: Coord, fuel: nat)
    requires Walkable(b, row, col, d, flag)
    ensures var t := RayMove(b, row, col, d, flag, last, fuel);
            t.ExitAt? ==> t.port == last || IsPort(t.port)
    decreases fuel
  {
    if Moves(b, row, col, d, flag) && fuel > 0 {
      var n := Ahead(row, col, Turn(b, row, col, d), 1);
      StepRule(b, row, col, d, flag, last, fuel);
      WalkExits(b, n.0, n.1, Turn(b, row, col, d), flag + 1, last, fuel - 1);
    } else {
      StopRule(b, row, col, d, flag, last, fuel);
    }
  }

  /** The walk from (row, col) under d, after flag moves, goes on without
      stopping on the way until it has made m moves, and is then in state p. */
  ghost predicate Reaches(b: Board, row: int, col: int, d: Direction, flag: nat, m: nat, p: RayState)
    requires Walkable(b, row, col, d, flag)
    decreases m - flag
  {
    if m <= flag then m == flag && p == (row, col, d)
    else
      Moves(b, row, col, d, flag) &&
      (NextWalkable(b, row, col, d, flag);
       var n := Ahead(row, col, Turn(b, row, col, d), 1);
       Reaches(b, n.0, n.1, Turn(b, row, col, d), flag + 1, m, p))
  }

  /** The ray in state p, reached after m moves, stops there with result t:
      an atom absorbs it, the border reports last after one move and the
      border cell itself after more, and a reflection reports last. */
  ghost predicate EndsAt(b: Board, p: RayState, m: nat, last: Coord, t: Trace) {
    Walkable(b, p.0, p.1, p.2, m) && !Moves(b, p.0, p.1, p.2, m) &&
    t == (if b[p.0][p.1] == Atom then Hit
          else if b[p.0][p.1] == Border && m == 1 then ExitAt(last)
          else if b[p.0][p.1] == Border && m >= 2 then ExitAt((p.0, p.1))
          else ExitAt(last))
  }

  /** The ray in state p, reached after m moves, goes on moving. */
  ghost predicate StillMoving(b: Board, p: RayState, m: nat) {
    Walkable(b, p.0, p.1, p.2, m) && Moves(b, p.0, p.1, p.2, m)
  }

  /** Every state the walk reaches is one it can be in. */
  lemma {:induction false} ReachesWalkable(b: Board, row: int, col: int, d: Direction, flag: nat,
                                           m: nat, p: RayState)
    requires Walkable(b, row, col, d, flag) && Reaches(b, row, col, d, flag, m, p)
    ensures flag <= m && Walkable(b, p.0, p.1, p.2, m)
    decreases m - flag
  {
    if m > flag {
      NextWalkable(b, row, col, d, flag);
      var n := Ahead(row, col, Turn(b, row, col, d), 1);
      ReachesWalkable(b, n.0, n.1, Turn(b, row, col, d), flag + 1, m, p);
    }
  }

  /** A ray that moves on from (row, col) and then reaches p reaches p from
      (row, col). */
  lemma ReachesStep(b: Board, row: int, col: int, d: Direction, flag: nat, m: nat, p: RayState)
    requires Walkable(b, row, col, d, flag) && Moves(b, row, col, d, flag)
    requires var n := Ahead(row, col, Turn(b, row, col, d), 1);
             Walkable(b, n.0, n.1, Turn(b, row, col, d), flag + 1) &&
             Reaches(b, n.0, n.1, Turn(b, row, col, d), flag + 1, m, p)
    ensures Reaches(b, row, col, d, flag, m, p)
  {
    var n := Ahead(row, col, Turn(b, row, col, d), 1);
    ReachesWalkable(b, n.0, n.1, Turn(b, row, col, d), flag + 1, m, p);
  }

  /** A walk that does not move on from (row, col) ends there: with the
      result that state gives, or out of fuel while still moving. */
  lemma StopEnds(b: Board, row: int, col: int, d: Direction, flag: nat, last: Coord, fuel: nat)
    requires Walkable(b, row, col, d, flag) && !(Moves(b, row, col, d, flag) && fuel > 0)
    ensures Reaches(b, row, col, d, flag, flag, (row, col, d))
    ensures var t := RayMove(b, row, col, d, flag, last, fuel);
            (t != OutOfFuel ==> EndsAt(b, (row, col, d), flag, last, t)) &&
            (t == OutOfFuel ==> fuel == 0 && StillMoving(b, (row, col, d), flag))
  {
    StopRule(b, row, col, d, flag, last, fuel);
  }

  /** The number of moves a walk has made when it ends with the fuel it has,
      and the state it is then in. */
  ghost function StopOf(b: Board, row: int, col: int, d: Direction, flag: nat, fuel: nat): (nat, RayState)
    requires Walkable(b, row, col, d, flag)
    decreases fuel
  {
    if Moves(b, row, col, d, flag) && fuel > 0 then
      NextWalkable(b, row, col, d, flag);
      var n := Ahead(row, col, Turn(b, row, col, d), 1);
      StopOf(b, n.0, n.1, Turn(b, row, col, d), flag + 1, fuel - 1)
    else (flag, (row, col, d))
  }

  /** Where a walk ends: it reaches, within its fuel, a state that stops it
      with its result, or, out of fuel, a state still moving once all its
      fuel is spent. */
  lemma {:induction false} WalkEnds(b: Board, row: int, col: int, d: Direction, flag: nat,
                                    last: Coord, fuel: nat)
    requires Walkable(b, row, col, d, flag)
    ensures var (m, p) := StopOf(b, row, col, d, flag, fuel);
            var t := RayMove(b, row, col, d, flag, last, fuel);
            m <= flag + fuel && Reaches(b, row, col, d, flag, m, p) &&
            (t != OutOfFuel ==> EndsAt(b, p, m, last, t)) &&
            (t == OutOfFuel ==> m == flag + fuel && StillMoving(b, p, m))
    decreases fuel
  {
    if Moves(b, row, col, d, flag) && fuel > 0 {
      var d2 := Turn(b, row, col, d);
      var n := Ahead(row, col, d2, 1);
      StepRule(b, row, col, d, flag, last, fuel);
      WalkEnds(b, n.0, n.1, d2, flag + 1, last, fuel - 1);
      var r := StopOf(b, n.0, n.1, d2, flag + 1, fuel - 1);
      ReachesStep(b, row, col, d, flag, r.0, r.1);
    } else {
      StopEnds(b, row, col, d, flag, last, fuel);
    }
  }

  /** The converse: a walk that reaches, within its fuel, a state that stops
      it with result t has result t, and one still moving when its fuel is
      spent has run out of fuel. */
  lemma {:induction false} EndsWalk(b: Board, row: int, col: int, d: Direction, flag: nat,
                                    last: Coord, fuel: nat, m: nat, p: RayState, t: Trace)
    requires Walkable(b, row, col, d, flag) && m <= flag + fuel && Reaches(b, row, col, d, flag, m, p)
    requires EndsAt(b, p, m, last, t) || (m == flag + fuel && StillMoving(b, p, m) && t == OutOfFuel)
    ensures RayMove(b, row, col, d, flag, last, fuel) == t
    decreases m - flag
  {
    if m <= flag {
      StopRule(b, row, col, d, flag, last, fuel);
    } else {
      var d2 := Turn(b, row, col, d);
      var n := Ahead(row, col, d2, 1);
      StepRule(b, row, col, d, flag, last, fuel);
      EndsWalk(b, n.0, n.1, d2, flag + 1, last, fuel - 1, m, p, t);
    }
  }

  /** A walk's result, other than running out of fuel, is exactly the one
      given by the first state, within the fuel, where the ray stops. */
  lemma WalkResult(b: Board, row: int, col: int, d: Direction, flag: nat, last: Coord, fuel: nat, t: Trace)
    requires Walkable(b, row, col, d, flag) && t != OutOfFuel
    ensures RayMove(b, row, col, d, flag, last, fuel) == t <==>
              exists m: nat, p: RayState :: m <= flag + fuel && Reaches(b, row, col, d, flag, m, p) &&
                                            EndsAt(b, p, m, last, t)
  {
    WalkEnds(b, row, col, d, flag, last, fuel);
    var stop := StopOf(b, row, col, d, flag, fuel);
    if RayMove(b, row, col, d, flag, last, fuel) == t {
      assert stop.0 <= flag + fuel && Reaches(b, row, col, d, flag, stop.0, stop.1) &&
             EndsAt(b, stop.1, stop.0, last, t);
    }
    if exists m: nat, p: RayState :: m <= flag + fuel && Reaches(b, row, col, d, flag, m, p) &&
                                     EndsAt(b, p, m, last, t) {
      var m: nat, p: RayState :| m <= flag + fuel && Reaches(b, row, col, d, flag, m, p) &&
                                 EndsAt(b, p, m, last, t);
      EndsWalk(b, row, col, d, flag, last, fuel, m, p, t);
    }
  }

  /** A ray is absorbed exactly when, within its fuel, it moves onto an atom
      without stopping or being sent back on the way. */
  lemma WalkHits(b: Board, row: int, col: int, d: Direction, flag: nat, last: Coord, fuel: nat)
    requires Walkable(b, row, col, d, flag)
    ensures RayMove(b, row, col, d, flag, last, fuel) == Hit <==>
              exists m: nat, p: RayState :: m <= flag + fuel && Reaches(b, row, col, d, flag, m, p) &&
                                            AtomAt(b, (p.0, p.1))
  {
    WalkEnds(b, row, col, d, flag, last, fuel);
    var stop := StopOf(b, row, col, d, flag, fuel);
    if RayMove(b, row, col, d, flag, last, fuel) == Hit {
      assert stop.0 <= flag + fuel && Reaches(b, row, col, d, flag, stop.0, stop.1) &&
             AtomAt(b, (stop.1.0, stop.1.1));
      assert exists m: nat, p: RayState :: m <= flag + fuel && Reaches(b, row, col, d, flag, m, p) &&
                                           AtomAt(b, (p.0, p.1));
    }
    if exists m: nat, p: RayState :: m <= flag + fuel && Reaches(b, row, col, d, flag, m, p) &&
                                     AtomAt(b, (p.0, p.1)) {
      var m: nat, p: RayState :| m <= flag + fuel && Reaches(b, row, col, d, flag, m, p) &&
                                 AtomAt(b, (p.0, p.1));
      ReachesWalkable(b, row, col, d, flag, m, p);
      EndsWalk(b, row, col, d, flag, last, fuel, m, p, Hit);
    }
  }

  /** The recorded port passed in as last is only ever echoed back: two walks
      that differ in it alone end alike, or each reports its own last. */
  lemma {:induction false} LastOnlyEchoed(b: Board, row: int, col: int, d: Direction, flag: nat,
                                          l1: Coord, l2: Coord, fuel: nat)
    requires Walkable(b, row, col, d, flag)
    ensures var t1 := RayMove(b, row, col, d, flag, l1, fuel);
            var t2 := RayMove(b, row, col, d, flag, l2, fuel);
            t1 == t2 || (t1 == ExitAt(l1) && t2 == ExitAt(l2))
    decreases fuel
  {
    if Moves(b, row, col, d, flag) && fuel > 0 {
      var n := Ahead(row, col, Turn(b, row, col, d), 1);
      StepRule(b, row, col, d, flag, l1, fuel);
      StepRule(b, row, col, d, flag, l2, fuel);
      LastOnlyEchoed(b, n.0, n.1, Turn(b, row, col, d), flag + 1, l1, l2, fuel - 1);
    } else {
      StopRule(b, row, col, d, flag, l1, fuel);
      StopRule(b, row, col, d, flag, l2, fuel);
    }
  }

  /** LastOnlyEchoed for a ray fired at a valid entry port. */
  lemma EntryLastOnlyEchoed(b: Board, row: int, col: int, l1: Coord, l2: Coord, fuel: nat)
    requires Framed(b) && InGrid(row, col) && StartShootRay(row, col).Some?
    ensures var d := StartShootRay(row, col).value;
            var t1 := RayMove(b, row, col, d, 0, l1, fuel);
            var t2 := RayMove(b, row, col, d, 0, l2, fuel);
            t1 == t2 || (t1 == ExitAt(l1) && t2 == ExitAt(l2))
  {
    LastOnlyEchoed(b, row, col, StartShootRay(row, col).value, 0, l1, l2, fuel);
  }

  /** More fuel never changes a walk that has already ended. */
  lemma {:induction false} FuelMonotone(b: Board, row: int, col: int, d: Direction, flag: nat,
                                        last: Coord, fuel: nat, more: nat)
    requires Walkable(b, row, col, d, flag) && fuel <= more
    requires RayMove(b, row, col, d, flag, last, fuel) != OutOfFuel
    ensures RayMove(b, row, col, d, flag, last, more) == RayMove(b, row, col, d, flag, last, fuel)
    decreases fuel
  {
    if Moves(b, row, col, d, flag) {
      if fuel == 0 {
        StopRule(b, row, col, d, flag, last, fuel);
        assert false;
      }
      var n := Ahead(row, col, Turn(b, row, col, d), 1);
      StepRule(b, row, col, d, flag, last, fuel);
      StepRule(b, row, col, d, flag, last, more);
      FuelMonotone(b, n.0, n.1, Turn(b, row, col, d), flag + 1, last, fuel - 1, more - 1);
    } else {
      StopRule(b, row, col, d, flag, last, fuel);
      StopRule(b, row, col, d, flag, last, more);
    }
  }

  /** The ray crosses p, reached after flag moves, without stopping or
      turning: p holds no atom, is not a border cell it would stop on, and
      neither forward diagonal holds an atom. */
  ghost predicate Passes(b: Board, p: Coord, d: Direction, flag: int)
    requires WellFormed(b)
  {
    InGrid(p.0, p.1) && b[p.0][p.1] != Atom && (flag >= 1 ==> b[p.0][p.1] != Border) &&
    !AtomAt(b, Diag(p.0, p.1, d, LeftOf(d))) && !AtomAt(b, Diag(p.0, p.1, d, RightOf(d)))
  }

  /** Going one cell and then k - 1 cells along d is going k cells. */
  lemma AheadShift(row: int, col: int, d: Direction, k: int)
    ensures Ahead(Ahead(row, col, d, 1).0, Ahead(row, col, d, 1).1, d, k - 1) == Ahead(row, col, d, k)
  {
    match d
    case Down =>
    case Up =>
    case Right =>
    case Left =>
    case Exit =>
  }

  /** A ray crossing (row, col) goes on to the next cell under the same heading. */
  lemma PassStep(b: Board, row: int, col: int, d: Direction, flag: nat, last: Coord, fuel: nat)
    requires Walkable(b, row, col, d, flag) && fuel > 0 && Passes(b, (row, col), d, flag)
    ensures var n := Ahead(row, col, d, 1);
            Walkable(b, n.0, n.1, d, flag + 1) &&
            RayMove(b, row, col, d, flag, last, fuel) == RayMove(b, n.0, n.1, d, flag + 1, last, fuel - 1)
  {
    CellRule(b, row, col, d);
    StepRule(b, row, col, d, flag, last, fuel);
  }

  /** The k cells a ray at (row, col) with heading d meets first, itself
      included, are all ones it passes straight through. */
  ghost predicate LaneClear(b: Board, row: int, col: int, d: Direction, flag: int, k: nat)
    requires WellFormed(b)
    decreases k
  {
    k == 0 ||
    (Passes(b, (row, col), d, flag) &&
     LaneClear(b, Ahead(row, col, d, 1).0, Ahead(row, col, d, 1).1, d, flag + 1, k - 1))
  }

  /** A lane is clear when the ray passes each of its k cells, the i-th
      reached after flag + i moves. */
  lemma {:induction false} LaneFromPasses(b: Board, row: int, col: int, d: Direction, flag: int, k: nat)
    requires WellFormed(b)
    requires forall i :: 0 <= i < k ==> Passes(b, Ahead(row, col, d, i), d, flag + i)
    ensures LaneClear(b, row, col, d, flag, k)
    decreases k
  {
    if k > 0 {
      var n := Ahead(row, col, d, 1);
      forall i | 0 <= i < k - 1
        ensures Passes(b, Ahead(n.0, n.1, d, i), d, flag + 1 + i)
      {
        AheadShift(row, col, d, i + 1);
        assert Passes(b, Ahead(row, col, d, i + 1), d, flag + (i + 1));
      }
      LaneFromPasses(b, n.0, n.1, d, flag + 1, k - 1);
      assert Passes(b, Ahead(row, col, d, 0), d, flag + 0);
    }
  }

  /** A ray with a clear lane of k cells runs straight on: its walk is the walk
      from (er, ec), k cells ahead, with k more moves made. */
  lemma {:induction false} Straight(b: Board, row: int, col: int, d: Direction, flag: nat,
                                    last: Coord, fuel: nat, k: nat,
                                    er: int, ec: int, eflag: nat, efuel: nat)
    requires Walkable(b, row, col, d, flag)
    requires LaneClear(b, row, col, d, flag, k)
    requires (er, ec) == Ahead(row, col, d, k) && eflag == flag + k && efuel + k == fuel
    ensures Walkable(b, er, ec, d, eflag)
    ensures RayMove(b, row, col, d, flag, last, fuel) == RayMove(b, er, ec, d, eflag, last, efuel)
    decreases k
  {
    if k > 0 {
      var n := Ahead(row, col, d, 1);
      PassStep(b, row, col, d, flag, last, fuel);
      AheadShift(row, col, d, k);
      Straight(b, n.0, n.1, d, flag + 1, last, fuel - 1, k - 1, er, ec, eflag, efuel);
    }
  }

  /** A ray that passes every cell of its lane across the board leaves by the port
      directly opposite its entry. */
  lemma ClearLaneExit(b: Board, row: int, col: int, d: Direction, last: Coord, fuel: nat)
    requires Framed(b) && InGrid(row, col) && StartShootRay(row, col) == Some(d) && fuel >= 9
    requires forall i :: 0 <= i < 9 ==> Passes(b, Ahead(row, col, d, i), d, i)
    ensures IsPort(Ahead(row, col, d, 9))
    ensures RayMove(b, row, col, d, 0, last, fuel) == ExitAt(Ahead(row, col, d, 9))
  {
    var e := Ahead(row, col, d, 9);
    LaneFromPasses(b, row, col, d, 0, 9);
    Straight(b, row, col, d, 0, last, fuel, 9, e.0, e.1, 9, fuel - 9);
  }

  /** A ray that passes the k cells before it and then meets an atom head-on is absorbed. */
  lemma StraightIntoAtom(b: Board, row: int, col: int, d: Direction, flag: nat,
                         last: Coord, fuel: nat, k: nat)
    requires Walkable(b, row, col, d, flag) && k <= fuel
    requires forall i :: 0 <= i < k ==> Passes(b, Ahead(row, col, d, i), d, flag + i)
    requires AtomAt(b, Ahead(row, col, d, k))
    ensures RayMove(b, row, col, d, flag, last, fuel) == Hit
  {
    var e := Ahead(row, col, d, k);
    LaneFromPasses(b, row, col, d, flag, k);
    Straight(b, row, col, d, flag, last, fuel, k, e.0, e.1, flag + k, fuel - k);
  }

  /** StraightIntoAtom for a ray fired at a valid entry port. */
  lemma HeadOnHit(b: Board, row: int, col: int, d: Direction, last: Coord, fuel: nat, k: nat)
    requires Framed(b) && InGrid(row, col) && StartShootRay(row, col) == Some(d) && k <= fuel
    requires forall i :: 0 <= i < k ==> Passes(b, Ahead(row, col, d, i), d, i)
    requires AtomAt(b, Ahead(row, col, d, k))
    ensures RayMove(b, row, col, d, 0, last, fuel) == Hit
  {
    StraightIntoAtom(b, row, col, d, 0, last, fuel, k);
  }

  /** Turns are taken before hits: a downward ray with an atom straight ahead
      and one on its forward left diagonal (but none on its right) turns left
      where it stands instead of being absorbed. */
  lemma TurnBeforeHit(b: Board, row: int, col: int, flag: nat, last: Coord, fuel: nat)
    requires Walkable(b, row, col, Down, flag) && fuel > 0
    requires b[row][col] == Empty
    requires AtomAt(b, (row + 1, col)) && AtomAt(b, (row + 1, col + 1)) && !AtomAt(b, (row + 1, col - 1))
    ensures Walkable(b, row, col - 1, Left, flag + 1)
    ensures RayMove(b, row, col, Down, flag, last, fuel) == RayMove(b, row, col - 1, Left, flag + 1, last, fuel - 1)
  {
    CellRule(b, row, col, Down);
    StepRule(b, row, col, Down, flag, last, fuel);
  }

  /** A ray fired at a port with an atom on a forward diagonal of the port is
      reflected, or turned back onto the border, before it enters the board,
      and reports the last recorded port. */
  lemma EntryTurnEchoesLast(b: Board, row: int, col: int, last: Coord, fuel: nat)
    requires Framed(b) && InGrid(row, col) && StartShootRay(row, col).Some? && fuel >= 1
    requires var d := StartShootRay(row, col).value;
             AtomAt(b, Diag(row, col, d, LeftOf(d))) || AtomAt(b, Diag(row, col, d, RightOf(d)))
    ensures RayMove(b, row, col, StartShootRay(row, col).value, 0, last, fuel) == ExitAt(last)
  {
    var d := StartShootRay(row, col).value;
    CellRule(b, row, col, d);
    var d2 := Turn(b, row, col, d);
    if d2 == Exit {
      StopRule(b, row, col, d, 0, last, fuel);
    } else {
      var n := Ahead(row, col, d2, 1);
      StepRule(b, row, col, d, 0, last, fuel);
      assert b[n.0][n.1] == Border;
      StopRule(b, n.0, n.1, d2, 1, last, fuel - 1);
    }
  }
}
