/** The Black Box game: a board hiding atoms, rays shot into it from border
    ports, guesses at atom positions, and the score they cost. */
module BlackBox {
  import opened Grid
  import opened Rays

  /** No coordinate occurs twice. */
  predicate NoDup(s: seq<Coord>) {
    forall i, j :: 0 <= i < j < |s| ==> s[i] != s[j]
  }

  /** A list of used coordinates after p is used: p is appended unless it is
      already there, so nothing is ever recorded twice. */
  function Record(s: seq<Coord>, p: Coord): (r: seq<Coord>)
    ensures p in r
    ensures |r| == |s| + (if p in s then 0 else 1) && r[..|s|] == s
    ensures forall q :: q in r <==> q in s || q == p
    ensures NoDup(s) ==> NoDup(r)
  {
    if p in s then s else s + [p]
  }

  /** Using a coordinate that is already used changes nothing. */
  lemma RecordIdempotent(s: seq<Coord>, p: Coord)
    ensures Record(Record(s, p), p) == Record(s, p)
  {
  }

  /** How many of the guesses name a coordinate of the atom list. */
  function Hits(guesses: seq<Coord>, atoms: seq<Coord>): (n: nat)
    ensures n <= |guesses|
  {
    if guesses == [] then 0
    else Hits(guesses[..|guesses| - 1], atoms) + (if guesses[|guesses| - 1] in atoms then 1 else 0)
  }

  /** A new guess adds one hit exactly when it is new and names an atom. */
  lemma HitsRecord(guesses: seq<Coord>, atoms: seq<Coord>, g: Coord)
    ensures Hits(Record(guesses, g), atoms) ==
            Hits(guesses, atoms) + (if g !in guesses && g in atoms then 1 else 0)
  {
    if g !in guesses {
      assert (guesses + [g])[..|guesses|] == guesses;
    }
  }

  /** The list s with one occurrence of x taken out. */
  function Remove(s: seq<Coord>, x: Coord): (r: seq<Coord>)
    requires x in s
    ensures |r| == |s| - 1
    ensures forall y :: y != x ==> (y in r <==> y in s)
  {
    if s[0] == x then s[1..] else [s[0]] + Remove(s[1..], x)
  }

  /** Hits only depend on which of the guesses are atoms. */
  lemma {:induction false} HitsAgree(guesses: seq<Coord>, a1: seq<Coord>, a2: seq<Coord>)
    requires forall g :: g in guesses ==> (g in a1 <==> g in a2)
    ensures Hits(guesses, a1) == Hits(guesses, a2)
  {
    if guesses != [] {
      var init := guesses[..|guesses| - 1];
      assert forall g :: g in init ==> g in guesses;
      HitsAgree(init, a1, a2);
    }
  }

  /** Distinct guesses never hit more atoms than the list holds. */
  lemma {:induction false} HitsBound(guesses: seq<Coord>, atoms: seq<Coord>)
    requires NoDup(guesses)
    ensures Hits(guesses, atoms) <= |atoms|
  {
    if guesses != [] {
      var init := guesses[..|guesses| - 1];
      var g := guesses[|guesses| - 1];
      assert NoDup(init);
      if g in atoms {
        var rest := Remove(atoms, g);
        assert g !in init by {
          forall i | 0 <= i < |init| ensures init[i] != g {
            assert init[i] == guesses[i];
          }
        }
        HitsAgree(init, atoms, rest);
        HitsBound(init, rest);
      } else {
        HitsBound(init, atoms);
      }
    }
  }

  /** What shooting a ray reports: an invalid entry, or how its walk ended. */
  datatype Shot = Invalid | Traced(trace: Trace)

  /** The most moves a walk is allowed; it stands for the interpreter's
      recursion limit. */
  const RayFuel: nat := 1000

  /** The used ports after a walk that ended in t: the port it reports, if
      any, is recorded. */
  function After(ports: seq<Coord>, t: Trace): seq<Coord> {
    if t.ExitAt? then Record(ports, t.port) else ports
  }

  /** A shot at (row, col) against the used ports: the result, and the used
      ports afterwards. An invalid entry is free; a valid one records its
      entry port, walks the ray with the last recorded port to report on a
      reflection, and records the exit port the walk reports. */
  function Shoot(b: Board, ports: seq<Coord>, row: int, col: int): (Shot, seq<Coord>)
    requires Framed(b) && InGrid(row, col)
  {
    match StartShootRay(row, col)
    case None => (Invalid, ports)
    case Some(d) =>
      var entered := Record(ports, (row, col));
      var t := RayMove(b, row, col, d, 0, entered[|entered| - 1], RayFuel);
      (Traced(t), After(entered, t))
  }

  /** The list side of a valid shot: recording the entry and then the port
      the walk reports adds those two at the end, at most two new ports and
      none twice. */
  lemma AfterFacts(ports: seq<Coord>, entry: Coord, t: Trace)
    ensures var p := After(Record(ports, entry), t);
            (|ports| <= |p| <= |ports| + 2 && p[..|ports|] == ports) &&
            (forall q :: q in p <==> q in ports || q == entry || t == ExitAt(q)) &&
            (NoDup(ports) ==> NoDup(p))
  {
    var entered := Record(ports, entry);
    assert entered[..|ports|] == ports;
    if t.ExitAt? {
      assert After(entered, t)[..|entered|] == entered;
      assert After(entered, t)[..|ports|] == entered[..|ports|];
    }
  }

  /** A shot at a valid entry port: the entry is recorded, and the walk
      from it, told the last recorded port, gives the result. */
  lemma ShootSome(b: Board, ports: seq<Coord>, row: int, col: int, d: Direction)
    requires Framed(b) && InGrid(row, col) && StartShootRay(row, col) == Some(d)
    ensures var entered := Record(ports, (row, col));
            var t := RayMove(b, row, col, d, 0, entered[|entered| - 1], RayFuel);
            Shoot(b, ports, row, col) == (Traced(t), After(entered, t))
  {
  }

  /** A shot at a valid entry port not yet recorded: the entry is appended
      and is the last recorded port the walk is told. */
  lemma ShootFresh(b: Board, ports: seq<Coord>, row: int, col: int, d: Direction, t: Trace)
    requires Framed(b) && InGrid(row, col) && StartShootRay(row, col) == Some(d) && (row, col) !in ports
    requires RayMove(b, row, col, d, 0, (row, col), RayFuel) == t
    ensures Shoot(b, ports, row, col) == (Traced(t), After(ports + [(row, col)], t))
  {
    ShootSome(b, ports, row, col, d);
  }

  /** Recording a port already recorded leaves the list as it is. */
  lemma RecordKept(ports: seq<Coord>, p: Coord)
    requires p in ports
    ensures Record(ports, p) == ports
  {
  }

  /** A shot at a valid entry port, once the last recorded port is known. */
  lemma ShootFromLast(b: Board, ports: seq<Coord>, row: int, col: int, d: Direction, last: Coord, t: Trace)
    requires Framed(b) && InGrid(row, col) && StartShootRay(row, col) == Some(d)
    requires var entered := Record(ports, (row, col)); entered[|entered| - 1] == last
    requires RayMove(b, row, col, d, 0, last, RayFuel) == t
    ensures Shoot(b, ports, row, col) == (Traced(t), After(Record(ports, (row, col)), t))
  {
  }

  /** A shot at a valid entry port already recorded: nothing is appended,
      and the walk is told the last port of the list. */
  lemma ShootRecorded(b: Board, ports: seq<Coord>, row: int, col: int, d: Direction, t: Trace)
    requires Framed(b) && InGrid(row, col) && StartShootRay(row, col) == Some(d) && (row, col) in ports
    requires RayMove(b, row, col, d, 0, ports[|ports| - 1], RayFuel) == t
    ensures Shoot(b, ports, row, col) == (Traced(t), After(ports, t))
  {
    RecordKept(ports, (row, col));
    ShootFromLast(b, ports, row, col, d, ports[|ports| - 1], t);
  }

  /** Recording a port entry and then a reported port that is a port or the
      last one recorded keeps a list of ports a list of ports. */
  lemma AfterPorts(ports: seq<Coord>, entry: Coord, t: Trace)
    requires (forall q :: q in ports ==> IsPort(q)) && IsPort(entry)
    requires var entered := Record(ports, entry);
             t.ExitAt? ==> t.port == entered[|entered| - 1] || IsPort(t.port)
    ensures forall q :: q in After(Record(ports, entry), t) ==> IsPort(q)
  {
  }

  /** What a shot does to the used ports: an invalid entry (a corner or a
      cell off the frame) leaves them alone; a valid one adds the entry port
      and the exit port it reports, if any, after the old ones, at most two
      ports and none twice. */
  lemma ShootFacts(b: Board, ports: seq<Coord>, row: int, col: int)
    requires Framed(b) && InGrid(row, col)
    ensures var res := Shoot(b, ports, row, col);
            (res.0 == Invalid <==> !IsPort((row, col))) &&
            (res.0 == Invalid ==> res.1 == ports) &&
            (|ports| <= |res.1| <= |ports| + 2 && res.1[..|ports|] == ports) &&
            (forall q :: q in res.1 <==>
               q in ports || (res.0.Traced? && q == (row, col)) || res.0 == Traced(ExitAt(q))) &&
            (NoDup(ports) ==> NoDup(res.1))
  {
    match StartShootRay(row, col)
    case None =>
    case Some(d) =>
      ShootSome(b, ports, row, col, d);
      AfterFacts(ports, (row, col), Shoot(b, ports, row, col).0.trace);
  }

  /** Only ports are ever recorded as used. */
  lemma ShootPorts(b: Board, ports: seq<Coord>, row: int, col: int)
    requires Framed(b) && InGrid(row, col)
    requires forall q :: q in ports ==> IsPort(q)
    ensures forall q :: q in Shoot(b, ports, row, col).1 ==> IsPort(q)
  {
    match StartShootRay(row, col)
    case None =>
    case Some(d) =>
      var entered := Record(ports, (row, col));
      ShootSome(b, ports, row, col, d);
      var t := Shoot(b, ports, row, col).0.trace;
      WalkExits(b, row, col, d, 0, entered[|entered| - 1], RayFuel);
      AfterPorts(ports, (row, col), t);
  }

  /** Repeating a shot at once changes nothing: no port is new the second
      time, and the result is the same. A ray sent back reports the last
      recorded port, and recording that port again leaves it last. */
  lemma ShootRepeat(b: Board, ports: seq<Coord>, row: int, col: int)
    requires Framed(b) && InGrid(row, col)
    ensures var first := Shoot(b, ports, row, col);
            Shoot(b, first.1, row, col) == first
  {
    match StartShootRay(row, col)
    case None =>
    case Some(d) =>
      var p0 := Record(ports, (row, col));
      var t1 := RayMove(b, row, col, d, 0, p0[|p0| - 1], RayFuel);
      ShootFromLast(b, ports, row, col, d, p0[|p0| - 1], t1);
      var p1 := After(p0, t1);
      assert (row, col) in p1;
      RecordKept(p1, (row, col));
      var t2 := RayMove(b, row, col, d, 0, p1[|p1| - 1], RayFuel);
      ShootFromLast(b, p1, row, col, d, p1[|p1| - 1], t2);
      EntryLastOnlyEchoed(b, row, col, p0[|p0| - 1], p1[|p1| - 1], RayFuel);
      RepeatSame(p0, (row, col), t1, t2);
  }

  /** The list side of an immediate repeat: a second walk that ends like the
      first, or each reporting its own last recorded port, ends alike, and
      records nothing new. */
  lemma RepeatSame(entered: seq<Coord>, entry: Coord, t1: Trace, t2: Trace)
    requires entry in entered
    requires var p1 := After(entered, t1);
             t2 == t1 || (t1 == ExitAt(entered[|entered| - 1]) && t2 == ExitAt(p1[|p1| - 1]))
    ensures t2 == t1 && After(After(entered, t1), t2) == After(entered, t1)
  {
    if t1 == ExitAt(entered[|entered| - 1]) {
      assert After(entered, t1) == entered;
    }
  }

  /** The list side of a repeated shot: after the first walk the entry is
      recorded, and a second walk that ends alike, or reports the last
      recorded port, records nothing new. */
  lemma RepeatAfter(entered: seq<Coord>, entry: Coord, t1: Trace, t2: Trace)
    requires entry in entered
    requires var p1 := After(entered, t1);
             t2 == t1 || (t1.ExitAt? && t2 == ExitAt(p1[|p1| - 1]))
    ensures var p1 := After(entered, t1);
            Record(p1, entry) == p1 && After(p1, t2) == p1
  {
  }

  /** A first shot at a port whose ray is sent straight back costs exactly one
      point: the entry is recorded, and the port reported is the entry itself. */
  lemma FreshEntryEcho(b: Board, ports: seq<Coord>, row: int, col: int)
    requires Framed(b) && InGrid(row, col) && StartShootRay(row, col).Some? && (row, col) !in ports
    requires var d := StartShootRay(row, col).value;
             AtomAt(b, Diag(row, col, d, LeftOf(d))) || AtomAt(b, Diag(row, col, d, RightOf(d)))
    ensures Shoot(b, ports, row, col) == (Traced(ExitAt((row, col))), ports + [(row, col)])
  {
    var p0 := Record(ports, (row, col));
    EntryTurnEchoesLast(b, row, col, p0[|p0| - 1], RayFuel);
  }

  /** A game: the board and atom list fixed at construction, the atoms not
      yet found, the score, and the guessed and used-port coordinates, each
      without repeats. */
  class BlackBoxGame {
    const board: Board
    const atoms: seq<Coord>
    var numAtoms: int
    var score: int
    var guesses: seq<Coord>
    var entriesExits: seq<Coord>

    /** The board shows the atom list; every used port is a port; the score
        is 25 less one per used port and five per wrong guess; the atoms left
        are the atom list's length less the right guesses. */
    ghost predicate Valid()
      reads this
    {
      IsBoardOf(board, atoms) && NoDup(guesses) && NoDup(entriesExits) &&
      (forall p :: p in entriesExits ==> IsPort(p)) &&
      score == 25 - |entriesExits| - 5 * (|guesses| - Hits(guesses, atoms)) &&
      numAtoms == |atoms| - Hits(guesses, atoms)
    }

    constructor (atomList: seq<Coord>)
      ensures Valid()
      ensures atoms == atomList && numAtoms == |atomList| && score == 25
      ensures guesses == [] && entriesExits == []
    {
      var b := BuildBoard(atomList);
      board := b;
      atoms := atomList;
      numAtoms := |atomList|;
      score := 25;
      guesses := [];
      entriesExits := [];
    }

    /** The atom list, which the board's atom cells agree with inside the frame. */
    method GetAtoms() returns (a: seq<Coord>)
      requires Valid()
      ensures a == atoms
      ensures forall r, c :: IsInterior(r, c) ==> (board[r][c] == Atom <==> (r, c) in a)
    {
      a := atoms;
    }

    /** The atoms not yet found, never negative. */
    method AtomsLeft() returns (n: int)
      requires Valid()
      ensures n == numAtoms && n == |atoms| - Hits(guesses, atoms) && 0 <= n <= |atoms|
    {
      HitsBound(guesses, atoms);
      n := numAtoms;
    }

    /** One atom fewer is left. This and DeductScore are public, but only
        GuessAtom and RecordPort call them, and those restore Valid(). A
        caller that calls them directly leaves a state that GetScore and the
        other readers requiring Valid() refuse, although the source's getters
        read such a state without complaint. */
    method SetNumAtoms()
      modifies this
      ensures numAtoms == old(numAtoms) - 1
      ensures score == old(score) && guesses == old(guesses) && entriesExits == old(entriesExits)
    {
      numAtoms := numAtoms - 1;
    }

    /** The score drops by the points given; see SetNumAtoms on Valid(). */
    method DeductScore(points: int)
      modifies this
      ensures score == old(score) - points
      ensures numAtoms == old(numAtoms) && guesses == old(guesses) && entriesExits == old(entriesExits)
    {
      score := score - points;
    }

    /** The score, which never exceeds the 25 a game starts with. */
    method GetScore() returns (s: int)
      requires Valid()
      ensures s == score && s == 25 - |entriesExits| - 5 * (|guesses| - Hits(guesses, atoms))
      ensures s <= 25
    {
      s := score;
    }

    /** Records port p as used and pays one point for it, unless it is
        already recorded. */
    method RecordPort(p: Coord)
      modifies this
      ensures entriesExits == Record(old(entriesExits), p)
      ensures score == old(score) - (|entriesExits| - |old(entriesExits)|)
      ensures numAtoms == old(numAtoms) && guesses == old(guesses)
    {
      if p !in entriesExits {
        entriesExits := entriesExits + [p];
        DeductScore(1);
      }
    }

    /** Shoots a ray in at (row, col): the result and the used ports are
        those of Shoot, one point is paid per newly used port, and the atom
        tally and guesses are untouched. */
    method ShootRay(row: int, col: int) returns (res: Shot)
      requires Valid() && InGrid(row, col)
      modifies this
      ensures Valid()
      ensures (res, entriesExits) == Shoot(board, old(entriesExits), row, col)
      ensures score == old(score) - (|entriesExits| - |old(entriesExits)|)
      ensures old(score) - 2 <= score <= old(score)
      ensures numAtoms == old(numAtoms) && guesses == old(guesses)
    {
      var start := StartShootRay(row, col);
      if start.None? {
        return Invalid;
      }
      var d := start.value;
      RecordPort((row, col));
      var t := RayMove(board, row, col, d, 0, entriesExits[|entriesExits| - 1], RayFuel);
      if t.ExitAt? {
        RecordPort(t.port);
      }
      ShootSome(board, old(entriesExits), row, col, d);
      ShootFacts(board, old(entriesExits), row, col);
      ShootPorts(board, old(entriesExits), row, col);
      res := Traced(t);
    }

    /** Guesses an atom at (row, col): right exactly when the atom list names
        it. A first right guess finds one more atom; a first wrong guess costs
        five points; a repeated guess changes nothing. */
    method GuessAtom(row: int, col: int) returns (hit: bool)
      requires Valid()
      modifies this
      ensures Valid()
      ensures hit <==> (row, col) in atoms
      ensures guesses == Record(old(guesses), (row, col))
      ensures score == old(score) - (if !hit && (row, col) !in old(guesses) then 5 else 0)
      ensures numAtoms == old(numAtoms) - (if hit && (row, col) !in old(guesses) then 1 else 0)
      ensures entriesExits == old(entriesExits)
    {
      HitsRecord(guesses, atoms, (row, col));
      if (row, col) in atoms {
        if (row, col) !in guesses {
          SetNumAtoms();
          guesses := guesses + [(row, col)];
        }
        return true;
      } else {
        if (row, col) !in guesses {
          DeductScore(5);
          guesses := guesses + [(row, col)];
        }
        return false;
      }
    }
  }
}
