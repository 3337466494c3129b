/** Small concrete configurations that pin the behaviour of the simulation down:
    the two ways the move as written departs from the intended one, and the
    order dependence of the infection pass. */
module Scenarios {
  import opened Geometry
  import opened Random
  import opened Nodes
  import opened Worlds

  // ------------------------------------------------------- move, as written

  /** A node 3 east of its home (the origin), free to travel 10. */
  const Wanderer: Node := Node(0, Vec(3.0, 0.0), Zero, false, true, false, 0, 10.0, 1.0)

  /** The candidate offset of `Wanderer` drawing (0, 4) is (3, 4), of length 5. */
  lemma WandererReachesFive(sqrt: real -> real)
    requires sqrt(25.0) == 5.0
    ensures Candidate(Wanderer, Vec(0.0, 4.0)) == Vec(3.0, 4.0)
    ensures Mag(sqrt, Vec(3.0, 4.0)) == 5.0
  {
  }

  /** The unit vector along (0, 4) is (0, 1). */
  lemma UnitUp(sqrt: real -> real)
    requires sqrt(16.0) == 4.0
    ensures Mag(sqrt, Vec(0.0, 4.0)) == 4.0
    ensures Unit(sqrt, Vec(0.0, 4.0)) == Vec(0.0, 1.0)
  {
  }

  /** Drawing the displacement (0, 4), as written the node jumps to (0, 5): the
      candidate's length 5, but along the displacement's direction. */
  lemma MoveAsWrittenLosesCandidate(sqrt: real -> real)
    requires sqrt(25.0) == 5.0 && sqrt(16.0) == 4.0
    ensures MoveAsWritten(Wanderer, Vec(0.0, 4.0), sqrt) == Moved(Wanderer.(cPos := Vec(0.0, 5.0)))
  {
    WandererReachesFive(sqrt);
    UnitUp(sqrt);
    MoveAsWrittenAway(Wanderer, Vec(0.0, 4.0), sqrt);
    assert Scale(Vec(0.0, 1.0), Min(5.0, Wanderer.maxTravel)) == Vec(0.0, 5.0);
  }

  /** Drawing the same displacement, the intended move is the step to (3, 4),
      well within reach. */
  lemma MoveTakesCandidate(sqrt: real -> real)
    requires sqrt(25.0) == 5.0
    ensures Move(Wanderer, Vec(0.0, 4.0), sqrt) == Wanderer.(cPos := Vec(3.0, 4.0))
  {
    var posOff := Vec(0.0, 4.0);
    assert Mag(sqrt, Candidate(Wanderer, posOff)) == 5.0 by {
      assert Candidate(Wanderer, posOff) == Vec(3.0, 4.0);
    }
    assert Unit(sqrt, Candidate(Wanderer, posOff)) == Vec(0.6, 0.8);
  }

  /** Drawing a zero displacement (the distance draw is 0), as written the node
      normalises the zero vector: its new position is not a number. */
  lemma MoveAsWrittenZeroOffset(sqrt: real -> real)
    requires sqrt(9.0) == 3.0 && sqrt(0.0) == 0.0
    ensures MoveAsWritten(Wanderer, Zero, sqrt) == NotANumber
  {
    var home := Wanderer.(cPos := Zero);
    assert Mag(sqrt, Candidate(Wanderer, Zero)) == 3.0 by {
      assert Candidate(Wanderer, Zero) == Vec(3.0, 0.0);
    }
    assert Mag(sqrt, Candidate(home, Zero)) == 0.0 by {
      assert Candidate(home, Zero) == Zero;
    }
  }

  /** Drawing a zero displacement, the intended move leaves the node where it is. */
  lemma MoveZeroOffsetStays(sqrt: real -> real)
    requires sqrt(9.0) == 3.0
    ensures Move(Wanderer, Zero, sqrt) == Wanderer
  {
    var cand := Candidate(Wanderer, Zero);
    assert Mag(sqrt, cand) == 3.0 by {
      assert cand == Vec(3.0, 0.0);
    }
    assert Scale(Unit(sqrt, cand), Min(3.0, Wanderer.maxTravel)) == Vec(3.0, 0.0) by {
      assert cand == Vec(3.0, 0.0);
      assert Unit(sqrt, cand) == Vec(1.0, 0.0);
    }
  }

  // ------------------------------------------------ order of the infection pass

  /** A healthy node `id` at `(x, 0)`. */
  function At(id: int, x: real, infected: bool): Node {
    Node(id, Vec(x, 0.0), Vec(x, 0.0), false, true, infected, 0, 0.0, 1.0)
  }

  /** Three nodes in a row, 3 apart: neighbours touch, the two ends do not. */
  function Row(first: bool, last: bool): seq<Node> {
    [At(0, 0.0, first), At(1, 3.0, false), At(2, 6.0, last)]
  }

  lemma RowContacts(first: bool, last: bool)
    ensures InContact(Row(first, last)[0].cPos, Row(first, last)[1].cPos)
    ensures InContact(Row(first, last)[1].cPos, Row(first, last)[0].cPos)
    ensures InContact(Row(first, last)[1].cPos, Row(first, last)[2].cPos)
    ensures InContact(Row(first, last)[2].cPos, Row(first, last)[1].cPos)
    ensures !InContact(Row(first, last)[0].cPos, Row(first, last)[2].cPos)
    ensures !InContact(Row(first, last)[2].cPos, Row(first, last)[0].cPos)
  {
    assert Sq(3.0) == 9.0 && Sq(-3.0) == 9.0 && Sq(6.0) == 36.0 && Sq(-6.0) == 36.0 && Sq(0.0) == 0.0;
  }

  /** Infection at the front of the row reaches its end in a single pass, because
      each node sees its predecessor's updated flag. */
  lemma FrontInfectsWholeRow()
    ensures forall k :: 0 <= k < 3 ==> InfectionPass(Row(true, false))[k].infected
  {
    var nodes := Row(true, false);
    var r := InfectionPass(nodes);
    RowContacts(true, false);
    InfectionPassSpec(nodes);
    InfectionPassSpread(nodes, 1);
    assert r[1].infected by {
      assert r[0].infected;
    }
    InfectionPassSpread(nodes, 2);
  }

  /** The mirror image does not: infection at the back of the row reaches only
      the middle node, since the front node was scanned before the middle one
      caught it. The outcome of a pass depends on the order of the nodes. */
  lemma BackInfectsOnlyNeighbour()
    ensures !InfectionPass(Row(false, true))[0].infected
    ensures InfectionPass(Row(false, true))[1].infected
    ensures InfectionPass(Row(false, true))[2].infected
  {
    var nodes := Row(false, true);
    RowContacts(false, true);
    InfectionPassSpec(nodes);
    InfectionPassSpread(nodes, 0);
    InfectionPassSpread(nodes, 1);
  }

  /** The row as a world whose nodes cannot leave home. */
  function RowWorld(first: bool, last: bool): World {
    World(Row(first, last), 0, 0, 0.0, 1.0, 0)
  }

  /** Nodes with no reach stay at home through the moves of a tick, whatever
      the draws. */
  lemma PinnedRowStays(s: Stream, lib: MathLib, first: bool, last: bool)
    requires IsSqrt(lib.sqrt)
    ensures Movements(s, Mover(lib), RowWorld(first, last)) == Row(first, last)
  {
    var w := RowWorld(first, last);
    MovementsDraws(s, Mover(lib), w);
    forall i | 0 <= i < 3
      ensures Movements(s, Mover(lib), w)[i] == w.nodes[i]
    {
      var n := w.nodes[i];
      var (u, v) := (DrawAt(s, w.nextSeed, 2 * i), DrawAt(s, w.nextSeed, 2 * i + 1));
      var posOff := lib.displacement(u, v, n.maxSpeed);
      assert Mover(lib)(n, u, v) == Move(n, posOff, lib.sqrt);
      Norm2NonNegative(Candidate(n, posOff));
      MovePinned(n, posOff, lib.sqrt);
    }
  }

  /** A whole tick of the pinned row, infected at the front: everyone ends
      infected. */
  lemma TickFrontInfectsWholeRow(s: Stream, lib: MathLib)
    requires IsSqrt(lib.sqrt)
    ensures forall k :: 0 <= k < 3 ==> Update(s, lib, RowWorld(true, false)).nodes[k].infected
  {
    PinnedRowStays(s, lib, true, false);
    TickShape(s, Mover(lib), RowWorld(true, false));
    FrontInfectsWholeRow();
  }

  /** A whole tick of the mirror image, infected at the back: the front node
      stays healthy. */
  lemma TickBackSparesFront(s: Stream, lib: MathLib)
    requires IsSqrt(lib.sqrt)
    ensures !Update(s, lib, RowWorld(false, true)).nodes[0].infected
    ensures Update(s, lib, RowWorld(false, true)).nodes[1].infected
  {
    PinnedRowStays(s, lib, false, true);
    TickShape(s, Mover(lib), RowWorld(false, true));
    BackInfectsOnlyNeighbour();
  }

  /** The program as written ticks the row exactly as the corrected move does,
      so both scenarios above hold for it too. */
  lemma RowTickAsWritten(s: Stream, lib: MathLib, first: bool, last: bool)
    ensures UpdateAsWritten(s, lib, RowWorld(first, last)) == Ticked(Update(s, lib, RowWorld(first, last)))
  {
    AtHomeTickAgrees(s, lib, RowWorld(first, last));
  }
}
