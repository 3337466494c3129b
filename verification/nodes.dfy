/** One agent of the simulation, the C++ class `Node` (main.cpp:87-126), with its
    two behaviours `move` and `update`, and the contact rule `infectTest`
    (main.cpp:141-144). */
module Nodes {
  import opened Geometry

  /** A node. `sPos` is its home, `cPos` where it currently is. `reinfectable`,
      `infectable` and `infectedFor` are stored and carried unchanged; no
      behaviour reads them. */
  datatype Node = Node(
    id: int,
    cPos: Vec,
    sPos: Vec,
    reinfectable: bool,
    infectable: bool,
    infected: bool,
    infectedFor: int,
    maxTravel: real,
    maxSpeed: real)

  /** The square root used for `mag()`, and the displacement `posOff` that `move`
      draws each tick: `displacement(u, v, maxSpeed)` is
      `(sin(2 PI u), cos(2 PI u)) * (v * maxSpeed)` for the two `drand()` values
      `u` and `v`. Both are floating-point library code and enter as parameters. */
  datatype MathLib = MathLib(sqrt: real -> real, displacement: (real, real, real) -> Vec)

  /** Nodes infect each other when strictly closer than this. */
  const CONTACT_RADIUS: real := 4.0

  /** The node constructor. */
  function NewNode(id: int, pos: Vec, maxTravel: real, maxSpeed: real, reinfect: bool): (n: Node)
    ensures n.id == id && n.sPos == pos && n.cPos == n.sPos
    ensures !n.infected && n.infectable && n.infectedFor == 0
    ensures n.maxTravel == maxTravel && n.maxSpeed == maxSpeed && n.reinfectable == reinfect
  {
    Node(id, pos, pos, reinfect, true, false, 0, maxTravel, maxSpeed)
  }

  /** Two nodes are within contact range, by squared distance. */
  predicate InContact(a: Vec, b: Vec) {
    Norm2(Sub(a, b)) < Sq(CONTACT_RADIUS)
  }

  /** The node is no farther from home than its `maxTravel`. */
  predicate WithinReach(n: Node) {
    Norm2(Sub(n.cPos, n.sPos)) <= Sq(n.maxTravel)
  }

  /** Every field but `cPos` of `b` equals that of `a`. */
  predicate SameButPosition(a: Node, b: Node) {
    b == a.(cPos := b.cPos)
  }

  /** Every field but `infected` of `b` equals that of `a`. */
  predicate SameButInfection(a: Node, b: Node) {
    b == a.(infected := b.infected)
  }

  // ------------------------------------------------------------------ move

  /** The offset from home `move` aims for: the new displacement applied to where
      the node is now, `posOff + cPos - sPos`. */
  function Candidate(n: Node, posOff: Vec): Vec {
    Sub(Add(posOff, n.cPos), n.sPos)
  }

  /** `Node::move` with the candidate offset evaluated once, before the node is
      reset to its home: the node goes home and then moves along the candidate
      offset by its length, clamped to `maxTravel`. */
  function Move(n: Node, posOff: Vec, sqrt: real -> real): (r: Node)
    ensures SameButPosition(n, r)
  {
    var cand := Candidate(n, posOff);
    var ndist := Mag(sqrt, cand);
    var home := n.(cPos := n.sPos);
    if ndist != 0.0 then
      home.(cPos := Add(home.cPos, Scale(Unit(sqrt, cand), Min(ndist, n.maxTravel))))
    else
      home
  }

  /** What `Node::move` computes, step by step as written in main.cpp:110-113.
      The offset on line 113 is evaluated after `cPos` has been reset to `sPos`,
      so it is `posOff` itself rather than the candidate; when `posOff` is zero
      but the node was away from home, `norm()` divides zero by zero and the new
      position is not a number. */
  datatype MoveOutcome = Moved(node: Node) | NotANumber

  function MoveAsWritten(n: Node, posOff: Vec, sqrt: real -> real): MoveOutcome {
    var ndist := Mag(sqrt, Candidate(n, posOff));
    var home := n.(cPos := n.sPos);
    if ndist != 0.0 then
      var dir := Candidate(home, posOff);
      if Mag(sqrt, dir) != 0.0 then
        Moved(home.(cPos := Add(home.cPos, Scale(Unit(sqrt, dir), Min(ndist, n.maxTravel)))))
      else
        NotANumber
    else
      Moved(home)
  }

  /** Moving by `Scale(Unit(a), m)` means moving by `a` scaled by `m / |a|`. */
  lemma UnitScaled(sqrt: real -> real, a: Vec, m: real)
    requires Mag(sqrt, a) != 0.0
    ensures Scale(Unit(sqrt, a), m) == Scale(a, m / Mag(sqrt, a))
  {
    var n := Mag(sqrt, a);
    assert a.x * (1.0 / n) * m == a.x * (m / n);
    assert a.y * (1.0 / n) * m == a.y * (m / n);
  }

  /** After `Move` the node is at home when the candidate offset is zero, and
      otherwise at distance `min(|candidate|, maxTravel)` from home. */
  lemma {:induction false} MoveDistance(n: Node, posOff: Vec, sqrt: real -> real)
    requires IsSqrtAt(sqrt, Norm2(Candidate(n, posOff)))
    ensures var r := Move(n, posOff, sqrt);
      && r.sPos == n.sPos
      && (Candidate(n, posOff) == Zero ==> r.cPos == n.sPos)
      && (Candidate(n, posOff) != Zero ==>
            Norm2(Sub(r.cPos, n.sPos)) == Sq(Min(Mag(sqrt, Candidate(n, posOff)), n.maxTravel)))
  {
    var cand := Candidate(n, posOff);
    var nd := Mag(sqrt, cand);
    MagZeroIff(sqrt, cand);
    if nd != 0.0 {
      var m := Min(nd, n.maxTravel);
      UnitScaled(sqrt, cand, m);
      var r := Move(n, posOff, sqrt);
      assert Sub(r.cPos, n.sPos) == Scale(cand, m / nd);
      ScaleToLength(cand, nd, m);
    }
  }

  /** `Move` goes from home in the direction of the candidate offset: the new
      offset from home is a non-negative multiple of it. */
  lemma {:induction false} MoveDirection(n: Node, posOff: Vec, sqrt: real -> real)
    requires IsSqrtAt(sqrt, Norm2(Candidate(n, posOff)))
    requires 0.0 <= n.maxTravel
    ensures exists k: real :: 0.0 <= k && Sub(Move(n, posOff, sqrt).cPos, n.sPos) == Scale(Candidate(n, posOff), k)
  {
    var cand := Candidate(n, posOff);
    var nd := Mag(sqrt, cand);
    var r := Move(n, posOff, sqrt);
    if nd != 0.0 {
      var m := Min(nd, n.maxTravel);
      UnitScaled(sqrt, cand, m);
      assert Sub(r.cPos, n.sPos) == Scale(cand, m / nd);
      assert 0.0 <= m / nd by {
        assert 0.0 < nd && 0.0 <= m;
      }
    } else {
      assert Sub(r.cPos, n.sPos) == Scale(cand, 0.0);
    }
  }

  /** A node with no reach is back home after every move. */
  lemma {:induction false} MovePinned(n: Node, posOff: Vec, sqrt: real -> real)
    requires IsSqrtAt(sqrt, Norm2(Candidate(n, posOff)))
    requires n.maxTravel == 0.0
    ensures Move(n, posOff, sqrt) == n.(cPos := n.sPos)
  {
    var cand := Candidate(n, posOff);
    var nd := Mag(sqrt, cand);
    assert Min(nd, n.maxTravel) == 0.0;
    if nd != 0.0 {
      assert Scale(Unit(sqrt, cand), 0.0) == Zero;
    }
  }

  /** A displacement that is zero, or of length `min(nd, mt)`, is within `mt`. */
  lemma {:induction false} ClampedWithin(d: Vec, isZero: bool, nd: real, mt: real)
    requires 0.0 <= nd && 0.0 <= mt
    requires isZero ==> d == Zero
    requires !isZero ==> Norm2(d) == Sq(Min(nd, mt))
    ensures Norm2(d) <= Sq(mt)
  {
    SqNonNegative(mt);
    if isZero {
      Norm2ZeroIff(d);
    } else {
      SqAtMost(Min(nd, mt), mt);
    }
  }

  /** A node with a non-negative `maxTravel` ends every move within reach of home. */
  lemma {:induction false} MoveStaysWithinReach(n: Node, posOff: Vec, sqrt: real -> real)
    requires IsSqrtAt(sqrt, Norm2(Candidate(n, posOff)))
    requires 0.0 <= n.maxTravel
    ensures WithinReach(Move(n, posOff, sqrt))
  {
    var cand := Candidate(n, posOff);
    var nd := Mag(sqrt, cand);
    var r := Move(n, posOff, sqrt);
    var d := Sub(r.cPos, n.sPos);
    assert 0.0 <= nd;
    assert r.sPos == n.sPos && r.maxTravel == n.maxTravel;
    assert cand == Zero ==> d == Zero by {
      MoveDistance(n, posOff, sqrt);
    }
    assert cand != Zero ==> Norm2(d) == Sq(Min(nd, n.maxTravel)) by {
      MoveDistance(n, posOff, sqrt);
    }
    ClampedWithin(d, cand == Zero, nd, n.maxTravel);
  }

  lemma OffsetZero(p: Vec, c: Vec, s: Vec)
    requires Sub(Add(p, c), s) == Zero
    ensures s == Add(c, p)
  {
    assert p.x + c.x - s.x == 0.0;
    assert p.y + c.y - s.y == 0.0;
  }

  /** When the candidate offset is within reach the clamp does nothing: the node
      simply takes the step, ending at `cPos + posOff`. */
  lemma {:induction false} MoveUnclamped(n: Node, posOff: Vec, sqrt: real -> real)
    requires IsSqrtAt(sqrt, Norm2(Candidate(n, posOff)))
    requires Mag(sqrt, Candidate(n, posOff)) <= n.maxTravel
    ensures Move(n, posOff, sqrt).cPos == Add(n.cPos, posOff)
  {
    var cand := Candidate(n, posOff);
    var nd := Mag(sqrt, cand);
    var r := Move(n, posOff, sqrt);
    if nd != 0.0 {
      assert r.cPos == Add(n.sPos, Scale(cand, nd / nd)) by {
        assert Min(nd, n.maxTravel) == nd;
        UnitScaled(sqrt, cand, nd);
      }
      assert Scale(cand, nd / nd) == cand by {
        assert nd / nd == 1.0;
      }
      assert Add(n.sPos, cand) == Add(n.cPos, posOff);
    } else {
      assert cand == Zero by {
        MagZeroIff(sqrt, cand);
      }
      assert r.cPos == n.sPos;
      OffsetZero(posOff, n.cPos, n.sPos);
    }
  }

  /** From home, the code as written and the corrected move agree: the candidate
      offset is `posOff` either way. */
  lemma {:induction false} MoveAsWrittenAgreesAtHome(n: Node, posOff: Vec, sqrt: real -> real)
    requires n.cPos == n.sPos
    ensures MoveAsWritten(n, posOff, sqrt) == Moved(Move(n, posOff, sqrt))
  {
    assert Candidate(n.(cPos := n.sPos), posOff) == Candidate(n, posOff);
  }

  /** As written, the move is undefined exactly when `posOff` is zero while the
      candidate offset is not, that is, when a node away from home draws a zero
      displacement. */
  lemma {:induction false} MoveAsWrittenUndefinedIff(n: Node, posOff: Vec, sqrt: real -> real)
    requires IsSqrtAt(sqrt, Norm2(Candidate(n, posOff)))
    requires IsSqrtAt(sqrt, Norm2(posOff))
    ensures MoveAsWritten(n, posOff, sqrt).NotANumber? <==> posOff == Zero && Candidate(n, posOff) != Zero
  {
    assert Candidate(n.(cPos := n.sPos), posOff) == posOff;
    MagZeroIff(sqrt, Candidate(n, posOff));
    MagZeroIff(sqrt, posOff);
  }

  /** As written, a node whose candidate and displacement are both non-zero
      leaves from home along the displacement. */
  lemma MoveAsWrittenAway(n: Node, posOff: Vec, sqrt: real -> real)
    requires Mag(sqrt, Candidate(n, posOff)) != 0.0
    requires Mag(sqrt, posOff) != 0.0
    ensures MoveAsWritten(n, posOff, sqrt)
         == Moved(n.(cPos := Add(n.sPos, Scale(Unit(sqrt, posOff), Min(Mag(sqrt, Candidate(n, posOff)), n.maxTravel)))))
  {
    assert Candidate(n.(cPos := n.sPos), posOff) == posOff;
  }

  /** As written, a defined move keeps every field but `cPos`. */
  lemma {:induction false} MoveAsWrittenKeepsNode(n: Node, posOff: Vec, sqrt: real -> real)
    requires MoveAsWritten(n, posOff, sqrt).Moved?
    ensures SameButPosition(n, MoveAsWritten(n, posOff, sqrt).node)
  {
  }

  /** As written, a node whose candidate offset is zero ends the move at home. */
  lemma {:induction false} MoveAsWrittenStaysHome(n: Node, posOff: Vec, sqrt: real -> real)
    requires Candidate(n, posOff) == Zero
    requires IsSqrtAt(sqrt, 0.0)
    ensures MoveAsWritten(n, posOff, sqrt) == Moved(n.(cPos := n.sPos))
  {
    assert Norm2(Candidate(n, posOff)) == 0.0;
    MagZeroIff(sqrt, Candidate(n, posOff));
    MoveAsWrittenNoDistance(n, posOff, sqrt);
  }

  /** As written, a zero candidate length sends the node home. */
  lemma MoveAsWrittenNoDistance(n: Node, posOff: Vec, sqrt: real -> real)
    requires Mag(sqrt, Candidate(n, posOff)) == 0.0
    ensures MoveAsWritten(n, posOff, sqrt) == Moved(n.(cPos := n.sPos))
  {
  }

  /** As written, a defined move away from home still ends
      `min(|candidate|, maxTravel)` from home, but along `posOff` rather than
      along the candidate. */
  lemma {:induction false} MoveAsWrittenDistance(n: Node, posOff: Vec, sqrt: real -> real)
    requires IsSqrtAt(sqrt, Norm2(Candidate(n, posOff)))
    requires IsSqrtAt(sqrt, Norm2(posOff))
    requires MoveAsWritten(n, posOff, sqrt).Moved?
    requires Candidate(n, posOff) != Zero
    ensures Norm2(Sub(MoveAsWritten(n, posOff, sqrt).node.cPos, n.sPos))
         == Sq(Min(Mag(sqrt, Candidate(n, posOff)), n.maxTravel))
  {
    var cand := Candidate(n, posOff);
    var home := n.(cPos := n.sPos);
    var nd := Mag(sqrt, cand);
    var len := Mag(sqrt, posOff);
    var m := Min(nd, n.maxTravel);
    assert nd != 0.0 && len != 0.0 by {
      MagZeroIff(sqrt, cand);
      assert Candidate(home, posOff) == posOff;
    }
    var step := Scale(posOff, m / len);
    assert MoveAsWritten(n, posOff, sqrt).node.cPos == Add(n.sPos, step) by {
      assert Candidate(home, posOff) == posOff;
      UnitScaled(sqrt, posOff, m);
    }
    assert Sub(Add(n.sPos, step), n.sPos) == step;
    ScaleToLength(posOff, len, m);
  }

  /** As written, a defined move of a node with a non-negative `maxTravel` also
      ends within reach of home: the direction is wrong, the distance is not. */
  lemma {:induction false} MoveAsWrittenStaysWithinReach(n: Node, posOff: Vec, sqrt: real -> real)
    requires IsSqrtAt(sqrt, Norm2(Candidate(n, posOff)))
    requires IsSqrtAt(sqrt, Norm2(posOff))
    requires 0.0 <= n.maxTravel
    requires MoveAsWritten(n, posOff, sqrt).Moved?
    ensures WithinReach(MoveAsWritten(n, posOff, sqrt).node)
  {
    if Candidate(n, posOff) == Zero {
      MagZeroIff(sqrt, Candidate(n, posOff));
      HomeInReach(n, posOff, sqrt);
    } else {
      AwayInReach(n, posOff, sqrt);
    }
  }

  /** The case of `MoveAsWrittenStaysWithinReach` where the node goes home. */
  lemma HomeInReach(n: Node, posOff: Vec, sqrt: real -> real)
    requires Mag(sqrt, Candidate(n, posOff)) == 0.0
    requires 0.0 <= n.maxTravel
    ensures MoveAsWritten(n, posOff, sqrt).Moved?
    ensures WithinReach(MoveAsWritten(n, posOff, sqrt).node)
  {
    var r := n.(cPos := n.sPos);
    MoveAsWrittenNoDistance(n, posOff, sqrt);
    ReachFromOffset(n, r, Zero, true, 0.0);
  }

  /** The case of `MoveAsWrittenStaysWithinReach` where the node leaves home. */
  lemma AwayInReach(n: Node, posOff: Vec, sqrt: real -> real)
    requires IsSqrtAt(sqrt, Norm2(Candidate(n, posOff)))
    requires IsSqrtAt(sqrt, Norm2(posOff))
    requires 0.0 <= n.maxTravel
    requires MoveAsWritten(n, posOff, sqrt).Moved?
    requires Candidate(n, posOff) != Zero
    ensures WithinReach(MoveAsWritten(n, posOff, sqrt).node)
  {
    var r := MoveAsWritten(n, posOff, sqrt).node;
    MoveAsWrittenKeepsNode(n, posOff, sqrt);
    MoveAsWrittenDistance(n, posOff, sqrt);
    ReachFromOffset(n, r, Sub(r.cPos, n.sPos), false, Mag(sqrt, Candidate(n, posOff)));
  }

  /** A node moved by an offset that is zero, or of length `min(nd, maxTravel)`,
      is within reach of home. */
  lemma ReachFromOffset(n: Node, r: Node, d: Vec, isZero: bool, nd: real)
    requires SameButPosition(n, r) && d == Sub(r.cPos, n.sPos)
    requires 0.0 <= nd && 0.0 <= n.maxTravel
    requires isZero ==> d == Zero
    requires !isZero ==> Norm2(d) == Sq(Min(nd, n.maxTravel))
    ensures WithinReach(r)
  {
    ClampedWithin(d, isZero, nd, n.maxTravel);
  }

  // ------------------------------------------------------------- infection

  /** `infectTest(n1, n2)`: `n2` is infected and the two are in contact. The
      distance is compared by its square, so no square root is taken. */
  function InfectTest(n1: Node, n2: Node): (r: bool)
    ensures r ==> n2.infected
  {
    if InContact(n1.cPos, n2.cPos) then n2.infected else false
  }

  /** The squared comparison agrees with the source's `mag() < 4` for any faithful
      square root, and `n1`'s own infection does not matter. */
  lemma {:induction false} InfectTestByMagnitude(n1: Node, n2: Node, sqrt: real -> real)
    requires IsSqrtAt(sqrt, Norm2(Sub(n1.cPos, n2.cPos)))
    ensures InfectTest(n1, n2) <==> Mag(sqrt, Sub(n1.cPos, n2.cPos)) < CONTACT_RADIUS && n2.infected
    ensures InfectTest(n1.(infected := !n1.infected), n2) == InfectTest(n1, n2)
  {
    SqrtLessIff(sqrt, Norm2(Sub(n1.cPos, n2.cPos)), CONTACT_RADIUS);
  }

  /** Contact is symmetric, so between two infected nodes the rule does not
      depend on which of the two is the subject. */
  lemma {:induction false} InfectTestSymmetric(a: Node, b: Node)
    ensures InContact(a.cPos, b.cPos) == InContact(b.cPos, a.cPos)
    ensures a.infected && b.infected ==> InfectTest(a, b) == InfectTest(b, a)
  {
    DistanceSymmetric(a.cPos, b.cPos);
  }

  /** Some node of `nodes` other than `self` (by id) would infect it. */
  predicate Exposed(self: Node, nodes: seq<Node>) {
    exists j :: 0 <= j < |nodes| && nodes[j].id != self.id && InfectTest(self, nodes[j])
  }

  /** `Node::update`: scan `nodes` in order; while not yet infected, test every
      node with another id, and take the result of the test as the new flag. */
  function CheckInfection(self: Node, nodes: seq<Node>): (r: Node)
    ensures SameButInfection(self, r)
    ensures r.infected <==> self.infected || Exposed(self, nodes)
    decreases |nodes|
  {
    if |nodes| == 0 then
      self
    else
      var other := nodes[0];
      var self' := if other.id != self.id && !self.infected then self.(infected := InfectTest(self, other)) else self;
      var r := CheckInfection(self', nodes[1..]);
      assert forall j :: 0 <= j < |nodes| - 1 ==> nodes[1..][j] == nodes[j + 1];
      assert forall o :: InfectTest(self', o) == InfectTest(self, o);
      r
  }
}
