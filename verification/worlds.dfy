/** The population, the C++ class `World` (main.cpp:42-84, 128-139): construction
    from the configuration, and one tick of the simulation. */
module Worlds {
  import opened Geometry
  import opened Random
  import opened Nodes

  /** The constructor's parameters (main.cpp:56-57). The log stream is not part of
      the model. */
  datatype Config = Config(
    numNodes: int,
    minInfTime: int,
    maxInfTime: int,
    suvRate: real,
    reInfect: bool,
    minMaxTravel: real,
    maxMaxTravel: real,
    maxPos: Vec,
    minPos: Vec,
    maxSpeed: real,
    randSeed: int)

  /** The world: its nodes in creation order, the parameters it stores, and the
      seed the next tick starts from. */
  datatype World = World(
    nodes: seq<Node>,
    minInfTime: int,
    maxInfTime: int,
    suvRate: real,
    maxSpeed: real,
    nextSeed: int)

  /** How many nodes the constructor's loop builds: none when `numNodes` is not positive. */
  function NodeCount(cfg: Config): nat {
    if cfg.numNodes < 0 then 0 else cfg.numNodes
  }

  // ---------------------------------------------------------- construction

  /** Node `id` of the constructor, from its three `drand()` values: `ux` and
      `uy` place it in the box `[minPos, maxPos]`, `ut` picks its `maxTravel`
      in `[minMaxTravel, maxMaxTravel]`. */
  function Spawn(cfg: Config, id: int, ux: real, uy: real, ut: real): Node {
    var posDif := Sub(cfg.maxPos, cfg.minPos);
    var pos := Add(cfg.minPos, Mul(Vec(ux, uy), posDif));
    var maxTravel := cfg.minMaxTravel + ut * (cfg.maxMaxTravel - cfg.minMaxTravel);
    NewNode(id, pos, maxTravel, cfg.maxSpeed, cfg.reInfect)
  }

  /** The constructor's loop from index `i` on, drawing from generator state `g`;
      returns the nodes built and the state after the loop. */
  function SpawnFrom(s: Stream, cfg: Config, i: int, g: Rng): (seq<Node>, Rng)
    decreases cfg.numNodes - i
  {
    if cfg.numNodes <= i then
      ([], g)
    else
      var (ux, g1) := Drand(s, g);
      var (uy, g2) := Drand(s, g1);
      var (ut, g3) := Drand(s, g2);
      var (rest, g4) := SpawnFrom(s, cfg, i + 1, g3);
      ([Spawn(cfg, i, ux, uy, ut)] + rest, g4)
  }

  /** `World::World`: seed the generator, build the nodes, keep the next value of
      the generator as the seed of the first tick. */
  function Create(s: Stream, cfg: Config): World {
    var (nodes, g) := SpawnFrom(s, cfg, 0, Srand(cfg.randSeed));
    var (next, _) := Rand(s, g);
    World(nodes, cfg.minInfTime, cfg.maxInfTime, cfg.suvRate, cfg.maxSpeed, next)
  }

  /** Node `i` of the world built with stream `s`, read from draws `3i .. 3i+2`. */
  function SpawnAt(s: Stream, cfg: Config, i: nat): Node {
    var seed := cfg.randSeed;
    Spawn(cfg, i, DrawAt(s, seed, 3 * i), DrawAt(s, seed, 3 * i + 1), DrawAt(s, seed, 3 * i + 2))
  }

  /** One step of the constructor's loop: node `i` reads the next three draws,
      the rest of the loop starts three draws later. */
  lemma SpawnFromStep(s: Stream, cfg: Config, i: int, g: Rng)
    requires i < cfg.numNodes
    ensures SpawnFrom(s, cfg, i, g)
         == ([Spawn(cfg, i, DrawAt(s, g.seed, g.drawn), DrawAt(s, g.seed, g.drawn + 1), DrawAt(s, g.seed, g.drawn + 2))]
             + SpawnFrom(s, cfg, i + 1, Rng(g.seed, g.drawn + 3)).0,
             SpawnFrom(s, cfg, i + 1, Rng(g.seed, g.drawn + 3)).1)
  {
    assert Drand(s, g).1 == Rng(g.seed, g.drawn + 1);
    assert Drand(s, Rng(g.seed, g.drawn + 1)).1 == Rng(g.seed, g.drawn + 2);
    assert Drand(s, Rng(g.seed, g.drawn + 2)).1 == Rng(g.seed, g.drawn + 3);
  }

  /** The loop from index `i` consumes three values per node, node `i + k`
      reading values `3k .. 3k+2` counted from the state it starts in. */
  lemma {:induction false} SpawnFromDraws(s: Stream, cfg: Config, i: int, g: Rng)
    ensures var count := if cfg.numNodes <= i then 0 else cfg.numNodes - i;
      && |SpawnFrom(s, cfg, i, g).0| == count
      && SpawnFrom(s, cfg, i, g).1 == Rng(g.seed, g.drawn + 3 * count)
      && forall k :: 0 <= k < count ==>
           SpawnFrom(s, cfg, i, g).0[k]
           == Spawn(cfg, i + k, DrawAt(s, g.seed, g.drawn + 3 * k),
                    DrawAt(s, g.seed, g.drawn + 3 * k + 1), DrawAt(s, g.seed, g.drawn + 3 * k + 2))
    decreases cfg.numNodes - i
  {
    if i < cfg.numNodes {
      var g3 := Rng(g.seed, g.drawn + 3);
      SpawnFromDraws(s, cfg, i + 1, g3);
      var (rest, g4) := SpawnFrom(s, cfg, i + 1, g3);
      var first := Spawn(cfg, i, DrawAt(s, g.seed, g.drawn), DrawAt(s, g.seed, g.drawn + 1), DrawAt(s, g.seed, g.drawn + 2));
      assert SpawnFrom(s, cfg, i, g) == ([first] + rest, g4) by {
        SpawnFromStep(s, cfg, i, g);
      }
      forall k | 1 <= k < cfg.numNodes - i
        ensures ([first] + rest)[k]
             == Spawn(cfg, i + k, DrawAt(s, g.seed, g.drawn + 3 * k),
                      DrawAt(s, g.seed, g.drawn + 3 * k + 1), DrawAt(s, g.seed, g.drawn + 3 * k + 2))
      {
        assert ([first] + rest)[k] == rest[k - 1];
        assert g3.drawn + 3 * (k - 1) == g.drawn + 3 * k;
      }
    }
  }

  /** Seed chaining at construction: the world has `NodeCount` nodes, node `i`
      is built from draws `3i .. 3i+2` after `srand(randSeed)`, and the first
      tick's seed is draw `3 * NodeCount`. */
  lemma CreateDraws(s: Stream, cfg: Config)
    ensures |Create(s, cfg).nodes| == NodeCount(cfg)
    ensures forall i :: 0 <= i < NodeCount(cfg) ==> Create(s, cfg).nodes[i] == SpawnAt(s, cfg, i)
    ensures Create(s, cfg).nextSeed == s(cfg.randSeed, 3 * NodeCount(cfg))
  {
    SpawnFromDraws(s, cfg, 0, Srand(cfg.randSeed));
  }

  /** `u * w` lies in `[0, w]` for a fraction `u` and a non-negative `w`. */
  lemma FractionOf(u: real, w: real)
    requires 0.0 <= u <= 1.0 && 0.0 <= w
    ensures 0.0 <= u * w <= w
  {
    assert w - u * w == (1.0 - u) * w;
  }

  /** A spawned node's `maxTravel` lies in `[minMaxTravel, maxMaxTravel]` when
      its draw lies in `[0, 1]`. */
  lemma SpawnTravelInRange(cfg: Config, id: int, ux: real, uy: real, ut: real)
    requires 0.0 <= ut <= 1.0
    requires cfg.minMaxTravel <= cfg.maxMaxTravel
    ensures cfg.minMaxTravel <= Spawn(cfg, id, ux, uy, ut).maxTravel <= cfg.maxMaxTravel
  {
    var w := cfg.maxMaxTravel - cfg.minMaxTravel;
    FractionOf(ut, w);
    assert Spawn(cfg, id, ux, uy, ut).maxTravel == cfg.minMaxTravel + ut * w;
  }

  /** A spawned node's home lies in the box `[minPos, maxPos]` when its draws
      lie in `[0, 1]`. */
  lemma SpawnHomeInBox(cfg: Config, id: int, ux: real, uy: real, ut: real)
    requires 0.0 <= ux <= 1.0 && 0.0 <= uy <= 1.0
    requires cfg.minPos.x <= cfg.maxPos.x && cfg.minPos.y <= cfg.maxPos.y
    ensures cfg.minPos.x <= Spawn(cfg, id, ux, uy, ut).sPos.x <= cfg.maxPos.x
    ensures cfg.minPos.y <= Spawn(cfg, id, ux, uy, ut).sPos.y <= cfg.maxPos.y
  {
    var wx := cfg.maxPos.x - cfg.minPos.x;
    var wy := cfg.maxPos.y - cfg.minPos.y;
    FractionOf(ux, wx);
    FractionOf(uy, wy);
    assert Spawn(cfg, id, ux, uy, ut).sPos == Vec(cfg.minPos.x + ux * wx, cfg.minPos.y + uy * wy);
  }

  /** What the constructor promises of every node: ids `0 .. numNodes-1` in
      order, at home, healthy, infectable, the world's `maxSpeed` and
      `reInfect`; `maxTravel` in `[minMaxTravel, maxMaxTravel]` and a home
      inside `[minPos, maxPos]` whenever those bounds are ordered. */
  lemma CreateNodes(s: Stream, cfg: Config)
    ensures var w := Create(s, cfg);
      forall i :: 0 <= i < |w.nodes| ==>
        && w.nodes[i].id == i
        && w.nodes[i].cPos == w.nodes[i].sPos
        && !w.nodes[i].infected && w.nodes[i].infectable && w.nodes[i].infectedFor == 0
        && w.nodes[i].maxSpeed == cfg.maxSpeed == w.maxSpeed
        && w.nodes[i].reinfectable == cfg.reInfect
    ensures var w := Create(s, cfg);
      cfg.minMaxTravel <= cfg.maxMaxTravel ==>
        forall i :: 0 <= i < |w.nodes| ==> cfg.minMaxTravel <= w.nodes[i].maxTravel <= cfg.maxMaxTravel
    ensures var w := Create(s, cfg);
      cfg.minPos.x <= cfg.maxPos.x && cfg.minPos.y <= cfg.maxPos.y ==>
        forall i :: 0 <= i < |w.nodes| ==>
          cfg.minPos.x <= w.nodes[i].sPos.x <= cfg.maxPos.x && cfg.minPos.y <= w.nodes[i].sPos.y <= cfg.maxPos.y
  {
    var w := Create(s, cfg);
    CreateDraws(s, cfg);
    forall i | 0 <= i < |w.nodes|
      ensures cfg.minMaxTravel <= cfg.maxMaxTravel ==>
        cfg.minMaxTravel <= w.nodes[i].maxTravel <= cfg.maxMaxTravel
      ensures cfg.minPos.x <= cfg.maxPos.x && cfg.minPos.y <= cfg.maxPos.y ==>
        cfg.minPos.x <= w.nodes[i].sPos.x <= cfg.maxPos.x && cfg.minPos.y <= w.nodes[i].sPos.y <= cfg.maxPos.y
    {
      var seed := cfg.randSeed;
      var (ux, uy, ut) := (DrawAt(s, seed, 3 * i), DrawAt(s, seed, 3 * i + 1), DrawAt(s, seed, 3 * i + 2));
      ScaledInUnit(s(seed, 3 * i));
      ScaledInUnit(s(seed, 3 * i + 1));
      ScaledInUnit(s(seed, 3 * i + 2));
      assert w.nodes[i] == Spawn(cfg, i, ux, uy, ut);
      if cfg.minMaxTravel <= cfg.maxMaxTravel {
        SpawnTravelInRange(cfg, i, ux, uy, ut);
      }
      if cfg.minPos.x <= cfg.maxPos.x && cfg.minPos.y <= cfg.maxPos.y {
        SpawnHomeInBox(cfg, i, ux, uy, ut);
      }
    }
  }

  // ------------------------------------------------------------------ tick

  /** A node's move as a function of the node and its two `drand()` values. */
  type Step = (Node, real, real) -> Node

  /** `Node::move` given its two `drand()` values: the first picks the direction
      and the second the distance, both through the math library. */
  function Mover(lib: MathLib): Step {
    (n: Node, u: real, v: real) => Move(n, lib.displacement(u, v, n.maxSpeed), lib.sqrt)
  }

  /** `Node::move` as written, given its two `drand()` values. Where the written
      move yields a position that is not a number the node is left as it was;
      `UpdateAsWritten` reports such a tick as `Undefined`, so that stand-in is
      never part of a defined outcome. */
  function WrittenMover(lib: MathLib): Step {
    (n: Node, u: real, v: real) =>
      var o := MoveAsWritten(n, lib.displacement(u, v, n.maxSpeed), lib.sqrt);
      if o.Moved? then o.node else n
  }

  /** Node `n` after `step`, reading draws `k` and `k + 1` after `srand(seed)`. */
  function MovedWith(s: Stream, step: Step, n: Node, seed: int, k: nat): Node {
    step(n, DrawAt(s, seed, k), DrawAt(s, seed, k + 1))
  }

  /** The first loop of `World::update`: every node moves, in order, each move
      drawing two values. */
  function MoveAll(s: Stream, step: Step, nodes: seq<Node>, g: Rng): (res: (seq<Node>, Rng))
    ensures |res.0| == |nodes|
    ensures res.1 == Rng(g.seed, g.drawn + 2 * |nodes|)
    decreases |nodes|
  {
    if |nodes| == 0 then
      ([], g)
    else
      var (u, g1) := Drand(s, g);
      var (v, g2) := Drand(s, g1);
      var (rest, g3) := MoveAll(s, step, nodes[1..], g2);
      ([step(nodes[0], u, v)] + rest, g3)
  }

  /** One step of the loop: the first node moves with the next two draws, the
      rest of the loop starts two draws later. */
  lemma MoveAllStep(s: Stream, step: Step, nodes: seq<Node>, g: Rng)
    requires |nodes| != 0
    ensures MoveAll(s, step, nodes, g).0
         == [MovedWith(s, step, nodes[0], g.seed, g.drawn)] + MoveAll(s, step, nodes[1..], Rng(g.seed, g.drawn + 2)).0
  {
    assert Drand(s, g).1 == Rng(g.seed, g.drawn + 1);
    assert Drand(s, Rng(g.seed, g.drawn + 1)).1 == Rng(g.seed, g.drawn + 2);
  }

  /** Node `i`'s move reads values `2i` and `2i+1` counted from the state the loop
      starts in. */
  lemma {:induction false} MoveAllDraws(s: Stream, step: Step, nodes: seq<Node>, g: Rng)
    ensures forall i :: 0 <= i < |nodes| ==>
      MoveAll(s, step, nodes, g).0[i] == MovedWith(s, step, nodes[i], g.seed, g.drawn + 2 * i)
    decreases |nodes|
  {
    if |nodes| != 0 {
      var g2 := Rng(g.seed, g.drawn + 2);
      var rest := MoveAll(s, step, nodes[1..], g2).0;
      var r := MoveAll(s, step, nodes, g).0;
      var first := MovedWith(s, step, nodes[0], g.seed, g.drawn);
      MoveAllDraws(s, step, nodes[1..], g2);
      assert r == [first] + rest by {
        MoveAllStep(s, step, nodes, g);
      }
      forall i | 1 <= i < |nodes|
        ensures r[i] == MovedWith(s, step, nodes[i], g.seed, g.drawn + 2 * i)
      {
        assert r[i] == rest[i - 1];
        assert nodes[1..][i - 1] == nodes[i];
        assert g2.drawn + 2 * (i - 1) == g.drawn + 2 * i;
      }
    }
  }

  /** The infection loop of `World::update` from index `k` on: node `k` runs
      `Node::update` against the whole population as it stands, with the nodes
      before it already updated, and is replaced in place. */
  function PassFrom(nodes: seq<Node>, k: nat): (r: seq<Node>)
    ensures |r| == |nodes|
    decreases |nodes| - k
  {
    if |nodes| <= k then nodes else PassFrom(nodes[k := CheckInfection(nodes[k], nodes)], k + 1)
  }

  function InfectionPass(nodes: seq<Node>): (r: seq<Node>)
    ensures |r| == |nodes|
  {
    PassFrom(nodes, 0)
  }

  /** The pass from `k` leaves the nodes before `k` alone, and updates each later
      node `j` against the population whose nodes before `j` are already final. */
  lemma {:induction false} PassFromFold(nodes: seq<Node>, k: nat)
    requires k <= |nodes|
    ensures |PassFrom(nodes, k)| == |nodes|
    ensures PassFrom(nodes, k)[..k] == nodes[..k]
    ensures forall j :: k <= j < |nodes| ==>
      PassFrom(nodes, k)[j] == CheckInfection(nodes[j], PassFrom(nodes, k)[..j] + nodes[j..])
    decreases |nodes| - k
  {
    if k < |nodes| {
      var next := nodes[k := CheckInfection(nodes[k], nodes)];
      PassFromFold(next, k + 1);
      var r := PassFrom(nodes, k);
      assert r == PassFrom(next, k + 1);
      assert r[..k] == nodes[..k] by {
        assert r[..k + 1][..k] == r[..k];
        assert next[..k + 1][..k] == nodes[..k];
      }
      assert nodes == r[..k] + nodes[k..];
      assert r[k] == next[k];
      forall j | k < j < |nodes|
        ensures r[j] == CheckInfection(nodes[j], r[..j] + nodes[j..])
      {
        assert next[j] == nodes[j];
        assert next[j..] == nodes[j..];
      }
    }
  }

  /** The infection pass is a left-to-right fold: node `k` is checked against the
      flags of nodes `0 .. k-1` as already updated in this pass and of nodes
      `k ..` as they were. Only `infected` changes, and it is never cleared. */
  lemma InfectionPassSpec(nodes: seq<Node>)
    ensures |InfectionPass(nodes)| == |nodes|
    ensures forall k :: 0 <= k < |nodes| ==>
      InfectionPass(nodes)[k] == CheckInfection(nodes[k], InfectionPass(nodes)[..k] + nodes[k..])
    ensures forall k :: 0 <= k < |nodes| ==> SameButInfection(nodes[k], InfectionPass(nodes)[k])
    ensures forall k :: 0 <= k < |nodes| && nodes[k].infected ==> InfectionPass(nodes)[k].infected
  {
    PassFromFold(nodes, 0);
  }

  /** Infection spread in one pass: node `k` ends infected iff it was infected, or
      some node with another id is in contact with it and is infected at scan
      time: already at the start of the pass if it comes after `k`, at the end
      of the pass if it comes before `k`. */
  lemma {:induction false} InfectionPassSpread(nodes: seq<Node>, k: nat)
    requires k < |nodes|
    ensures InfectionPass(nodes)[k].infected <==>
      || nodes[k].infected
      || exists j :: 0 <= j < |nodes| && nodes[j].id != nodes[k].id
           && InContact(nodes[k].cPos, nodes[j].cPos)
           && (if j < k then InfectionPass(nodes)[j].infected else nodes[j].infected)
  {
    InfectionPassSpec(nodes);
    var r := InfectionPass(nodes);
    var view := r[..k] + nodes[k..];
    assert r[k] == CheckInfection(nodes[k], view);
    assert |view| == |nodes|;
    forall j | 0 <= j < |nodes|
      ensures view[j] == (if j < k then r[j] else nodes[j])
      ensures view[j].id == nodes[j].id && view[j].cPos == nodes[j].cPos
    {
      assert SameButInfection(nodes[j], r[j]);
    }
  }

  /** The nodes after the first loop of `World::update`, each moved by `step`. */
  function Movements(s: Stream, step: Step, w: World): seq<Node> {
    MoveAll(s, step, w.nodes, Srand(w.nextSeed)).0
  }

  /** `World::update` with each node moved by `step`: reseed from `nextSeed`,
      move every node, run the infection pass, and keep the next value of the
      generator as the next seed. */
  function Tick(s: Stream, step: Step, w: World): (r: World)
    ensures |r.nodes| == |w.nodes|
  {
    var (moved, g) := MoveAll(s, step, w.nodes, Srand(w.nextSeed));
    var (next, _) := Rand(s, g);
    w.(nodes := InfectionPass(moved), nextSeed := next)
  }

  /** `World::update` with the corrected move. */
  function Update(s: Stream, lib: MathLib, w: World): (r: World)
    ensures |r.nodes| == |w.nodes|
  {
    Tick(s, Mover(lib), w)
  }

  /** Seed chaining in a tick: all randomness comes from `nextSeed`; the moved
      nodes go through the infection pass; the new `nextSeed` is draw
      `2 * |nodes|`; the stored parameters are untouched. */
  lemma TickShape(s: Stream, step: Step, w: World)
    ensures Tick(s, step, w)
         == w.(nodes := InfectionPass(Movements(s, step, w)), nextSeed := s(w.nextSeed, 2 * |w.nodes|))
  {
  }

  /** Node `i` moves with draws `2i` and `2i+1` after `srand(nextSeed)`. */
  lemma MovementsDraws(s: Stream, step: Step, w: World)
    ensures |Movements(s, step, w)| == |w.nodes|
    ensures forall i :: 0 <= i < |w.nodes| ==>
      Movements(s, step, w)[i] == step(w.nodes[i], DrawAt(s, w.nextSeed, 2 * i), DrawAt(s, w.nextSeed, 2 * i + 1))
  {
    MoveAllDraws(s, step, w.nodes, Srand(w.nextSeed));
  }

  // ------------------------------------------------------------ invariant

  /** A node keeps its invariant: a non-negative `maxTravel` and within reach of home. */
  ghost predicate NodeWellFormed(n: Node) {
    0.0 <= n.maxTravel && WithinReach(n)
  }

  /** The world's invariant: node `i` has id `i` and is well formed. */
  ghost predicate WellFormed(w: World) {
    forall i :: 0 <= i < |w.nodes| ==> w.nodes[i].id == i && NodeWellFormed(w.nodes[i])
  }

  /** A freshly built world is well formed when the travel bounds are ordered
      and non-negative. */
  lemma CreateWellFormed(s: Stream, cfg: Config)
    requires 0.0 <= cfg.minMaxTravel <= cfg.maxMaxTravel
    ensures WellFormed(Create(s, cfg))
  {
    var w := Create(s, cfg);
    CreateNodes(s, cfg);
    forall i | 0 <= i < |w.nodes|
      ensures WithinReach(w.nodes[i])
    {
      var n := w.nodes[i];
      assert Sub(n.cPos, n.sPos) == Zero;
      Norm2ZeroIff(Zero);
      SqNonNegative(n.maxTravel);
    }
  }

  /** A move that changes nothing about a node but its position. */
  ghost predicate KeepsNodes(step: Step) {
    forall n: Node, u: real, v: real :: SameButPosition(n, step(n, u, v))
  }

  /** A move that keeps every well-formed node well formed. */
  ghost predicate KeepsReach(step: Step) {
    forall n: Node, u: real, v: real :: NodeWellFormed(n) ==> NodeWellFormed(step(n, u, v))
  }

  /** The corrected move changes only the position, whatever the draws. */
  lemma MoverKeepsNodes(lib: MathLib)
    ensures KeepsNodes(Mover(lib))
  {
    forall n: Node, u: real, v: real
      ensures SameButPosition(n, Mover(lib)(n, u, v))
    {
      assert Mover(lib)(n, u, v) == Move(n, lib.displacement(u, v, n.maxSpeed), lib.sqrt);
    }
  }

  /** The corrected move keeps a node within reach, for a faithful square root. */
  lemma MoverKeepsReach(lib: MathLib)
    requires IsSqrt(lib.sqrt)
    ensures KeepsReach(Mover(lib))
  {
    forall n: Node, u: real, v: real | NodeWellFormed(n)
      ensures NodeWellFormed(Mover(lib)(n, u, v))
    {
      var posOff := lib.displacement(u, v, n.maxSpeed);
      Norm2NonNegative(Candidate(n, posOff));
      MoveStaysWithinReach(n, posOff, lib.sqrt);
    }
  }

  /** The move as written changes only the position, whatever the draws. */
  lemma WrittenMoverKeepsNodes(lib: MathLib)
    ensures KeepsNodes(WrittenMover(lib))
  {
    forall n: Node, u: real, v: real
      ensures SameButPosition(n, WrittenMover(lib)(n, u, v))
    {
      var posOff := lib.displacement(u, v, n.maxSpeed);
      if MoveAsWritten(n, posOff, lib.sqrt).Moved? {
        MoveAsWrittenKeepsNode(n, posOff, lib.sqrt);
      }
    }
  }

  /** The move as written, when defined, also keeps a node within reach, for a
      faithful square root. */
  lemma WrittenMoverKeepsReach(lib: MathLib)
    requires IsSqrt(lib.sqrt)
    ensures KeepsReach(WrittenMover(lib))
  {
    forall n: Node, u: real, v: real | NodeWellFormed(n)
      ensures NodeWellFormed(WrittenMover(lib)(n, u, v))
    {
      var posOff := lib.displacement(u, v, n.maxSpeed);
      if MoveAsWritten(n, posOff, lib.sqrt).Moved? {
        Norm2NonNegative(Candidate(n, posOff));
        Norm2NonNegative(posOff);
        MoveAsWrittenKeepsNode(n, posOff, lib.sqrt);
        MoveAsWrittenStaysWithinReach(n, posOff, lib.sqrt);
      }
    }
  }

  /** Moving changes only positions. */
  lemma MovementsKeepNodes(s: Stream, step: Step, w: World)
    requires KeepsNodes(step)
    ensures forall i :: 0 <= i < |w.nodes| ==> SameButPosition(w.nodes[i], Movements(s, step, w)[i])
  {
    MovementsDraws(s, step, w);
  }

  /** Every move of a tick keeps its node well formed. */
  lemma MovementsWellFormed(s: Stream, step: Step, w: World)
    requires KeepsReach(step)
    requires forall i :: 0 <= i < |w.nodes| ==> NodeWellFormed(w.nodes[i])
    ensures forall i :: 0 <= i < |w.nodes| ==> NodeWellFormed(Movements(s, step, w)[i])
  {
    MovementsDraws(s, step, w);
  }

  /** A tick keeps the number of nodes, their ids, homes, `maxTravel` and every
      other field but the position and the flag, and never clears an infection. */
  lemma TickKeepsNodes(s: Stream, step: Step, w: World)
    requires KeepsNodes(step)
    ensures |Tick(s, step, w).nodes| == |w.nodes|
    ensures forall i :: 0 <= i < |w.nodes| ==>
      Tick(s, step, w).nodes[i] == w.nodes[i].(cPos := Tick(s, step, w).nodes[i].cPos,
                                                infected := Tick(s, step, w).nodes[i].infected)
    ensures forall i :: 0 <= i < |w.nodes| && w.nodes[i].infected ==> Tick(s, step, w).nodes[i].infected
  {
    TickShape(s, step, w);
    MovementsKeepNodes(s, step, w);
    InfectionPassSpec(Movements(s, step, w));
  }

  /** A tick preserves the invariant. */
  lemma TickWellFormed(s: Stream, step: Step, w: World)
    requires WellFormed(w)
    requires KeepsNodes(step) && KeepsReach(step)
    ensures WellFormed(Tick(s, step, w))
  {
    var r := Tick(s, step, w);
    var moved := Movements(s, step, w);
    TickShape(s, step, w);
    InfectionPassSpec(moved);
    MovementsWellFormed(s, step, w);
    MovementsKeepNodes(s, step, w);
    forall i | 0 <= i < |w.nodes|
      ensures r.nodes[i].id == i && NodeWellFormed(r.nodes[i])
    {
      assert SameButInfection(moved[i], r.nodes[i]);
      assert SameButPosition(w.nodes[i], moved[i]);
    }
  }

  /** `k` ticks in a row. */
  function Run(s: Stream, step: Step, w: World, k: nat): World
    decreases k
  {
    if k == 0 then w else Run(s, step, Tick(s, step, w), k - 1)
  }

  /** `k` ticks in a row with the corrected move. */
  function Ticks(s: Stream, lib: MathLib, w: World, k: nat): World {
    Run(s, Mover(lib), w, k)
  }

  /** Over any number of ticks the node count is fixed and an infected node
      stays infected. */
  lemma {:induction false} RunMonotone(s: Stream, step: Step, w: World, k: nat, i: nat)
    requires KeepsNodes(step)
    requires i < |w.nodes|
    ensures |Run(s, step, w, k).nodes| == |w.nodes|
    ensures w.nodes[i].infected ==> Run(s, step, w, k).nodes[i].infected
    decreases k
  {
    if k > 0 {
      TickKeepsNodes(s, step, w);
      RunMonotone(s, step, Tick(s, step, w), k - 1, i);
    }
  }

  /** Over any number of ticks the invariant holds. */
  lemma {:induction false} RunWellFormed(s: Stream, step: Step, w: World, k: nat)
    requires WellFormed(w)
    requires KeepsNodes(step) && KeepsReach(step)
    ensures WellFormed(Run(s, step, w, k))
    decreases k
  {
    if k > 0 {
      TickWellFormed(s, step, w);
      RunWellFormed(s, step, Tick(s, step, w), k - 1);
    }
  }

  // ------------------------------------------------------ contact over ticks

  /** Points whose x or y coordinates differ by at least the contact radius are
      not in contact. */
  lemma {:induction false} ApartNoContact(a: Vec, b: Vec)
    requires CONTACT_RADIUS <= Abs(a.x - b.x) || CONTACT_RADIUS <= Abs(a.y - b.y)
    ensures !InContact(a, b)
  {
    var d := Sub(a, b);
    SqNonNegative(d.x);
    SqNonNegative(d.y);
    if CONTACT_RADIUS <= Abs(d.x) {
      SqAtMost(CONTACT_RADIUS, Abs(d.x));
      SqAbs(d.x);
    } else {
      SqAtMost(CONTACT_RADIUS, Abs(d.y));
      SqAbs(d.y);
    }
  }

  /** Points whose coordinates both differ by at most 2 are in contact. */
  lemma {:induction false} CloseContact(a: Vec, b: Vec)
    requires Abs(a.x - b.x) <= 2.0 && Abs(a.y - b.y) <= 2.0
    ensures InContact(a, b)
  {
    var d := Sub(a, b);
    SqAtMost(Abs(d.x), 2.0);
    SqAbs(d.x);
    SqAtMost(Abs(d.y), 2.0);
    SqAbs(d.y);
    assert Sq(2.0) == 4.0 && Sq(CONTACT_RADIUS) == 16.0;
  }

  /** A node within reach of home is at most `maxTravel` from it in each coordinate. */
  lemma ReachBoundsCoordinates(n: Node)
    requires WithinReach(n) && 0.0 <= n.maxTravel
    ensures Abs(n.cPos.x - n.sPos.x) <= n.maxTravel && Abs(n.cPos.y - n.sPos.y) <= n.maxTravel
  {
    CoordinatesWithin(Sub(n.cPos, n.sPos), n.maxTravel);
  }

  /** Homes so far apart, in x or in y, that the two nodes can never come within
      the contact radius of each other, however they move. */
  predicate HomesApart(a: Node, b: Node) {
    var gap := a.maxTravel + b.maxTravel + CONTACT_RADIUS;
    gap <= Abs(a.sPos.x - b.sPos.x) || gap <= Abs(a.sPos.y - b.sPos.y)
  }

  /** Node `i` is out of everyone else's reach. */
  ghost predicate Isolated(w: World, i: nat) {
    i < |w.nodes| &&
    forall j :: 0 <= j < |w.nodes| && j != i ==> HomesApart(w.nodes[i], w.nodes[j])
  }

  /** Two nodes within reach of homes that are far apart are not in contact. */
  lemma ApartHomesNoContact(a: Node, b: Node)
    requires WithinReach(a) && 0.0 <= a.maxTravel
    requires WithinReach(b) && 0.0 <= b.maxTravel
    requires HomesApart(a, b)
    ensures !InContact(a.cPos, b.cPos)
  {
    ReachBoundsCoordinates(a);
    ReachBoundsCoordinates(b);
    ApartNoContact(a.cPos, b.cPos);
  }

  /** Two nodes sharing a home, whose reaches add up to at most 2, are always
      in contact. */
  lemma SharedHomeInContact(a: Node, b: Node)
    requires WithinReach(a) && 0.0 <= a.maxTravel
    requires WithinReach(b) && 0.0 <= b.maxTravel
    requires a.sPos == b.sPos && a.maxTravel + b.maxTravel <= 2.0
    ensures InContact(a.cPos, b.cPos)
  {
    ReachBoundsCoordinates(a);
    ReachBoundsCoordinates(b);
    CloseContact(a.cPos, b.cPos);
  }

  /** A healthy node that no other node touches stays healthy through the
      infection pass. */
  lemma PassUntouchedStaysHealthy(nodes: seq<Node>, i: nat)
    requires i < |nodes| && !nodes[i].infected
    requires forall j :: 0 <= j < |nodes| && nodes[j].id != nodes[i].id ==> !InContact(nodes[i].cPos, nodes[j].cPos)
    ensures !InfectionPass(nodes)[i].infected
  {
    InfectionPassSpread(nodes, i);
  }

  /** A healthy isolated node is still healthy, and still isolated, after a tick. */
  lemma TickIsolatedStaysHealthy(s: Stream, step: Step, w: World, i: nat)
    requires WellFormed(w)
    requires KeepsNodes(step) && KeepsReach(step)
    requires Isolated(w, i) && !w.nodes[i].infected
    ensures !Tick(s, step, w).nodes[i].infected
    ensures Isolated(Tick(s, step, w), i)
  {
    var moved := Movements(s, step, w);
    TickShape(s, step, w);
    TickKeepsNodes(s, step, w);
    MovementsWellFormed(s, step, w);
    MovementsKeepNodes(s, step, w);
    forall j | 0 <= j < |moved| && moved[j].id != moved[i].id
      ensures !InContact(moved[i].cPos, moved[j].cPos)
    {
      assert SameButPosition(w.nodes[i], moved[i]) && SameButPosition(w.nodes[j], moved[j]);
      ApartHomesNoContact(moved[i], moved[j]);
    }
    assert SameButPosition(w.nodes[i], moved[i]);
    PassUntouchedStaysHealthy(moved, i);
  }

  /** A healthy isolated node stays healthy, and isolated, for any number of ticks. */
  lemma {:induction false} RunIsolatedStaysHealthy(s: Stream, step: Step, w: World, k: nat, i: nat)
    requires WellFormed(w)
    requires KeepsNodes(step) && KeepsReach(step)
    requires Isolated(w, i) && !w.nodes[i].infected
    ensures Isolated(Run(s, step, w, k), i) && !Run(s, step, w, k).nodes[i].infected
    decreases k
  {
    if k > 0 {
      TickWellFormed(s, step, w);
      TickIsolatedStaysHealthy(s, step, w, i);
      RunIsolatedStaysHealthy(s, step, Tick(s, step, w), k - 1, i);
    }
  }

  /** Contagion between housemates: if two nodes share a home and their reaches
      add up to at most 2, and one of them is infected before a tick, the
      other is infected after it, whatever the draws and whichever comes first. */
  lemma TickSharedHomeContagion(s: Stream, step: Step, w: World, i: nat, j: nat)
    requires WellFormed(w)
    requires KeepsNodes(step) && KeepsReach(step)
    requires i < |w.nodes| && j < |w.nodes| && i != j
    requires w.nodes[i].sPos == w.nodes[j].sPos
    requires w.nodes[i].maxTravel + w.nodes[j].maxTravel <= 2.0
    requires w.nodes[j].infected
    ensures Tick(s, step, w).nodes[i].infected
  {
    var moved := Movements(s, step, w);
    TickShape(s, step, w);
    MovementsWellFormed(s, step, w);
    MovementsKeepNodes(s, step, w);
    InfectionPassSpec(moved);
    assert SameButPosition(w.nodes[i], moved[i]) && SameButPosition(w.nodes[j], moved[j]);
    SharedHomeInContact(moved[i], moved[j]);
    assert moved[j].infected && InfectionPass(moved)[j].infected;
    InfectionPassSpread(moved, i);
  }

  // ------------------------------------------------- the corrected tick

  /** A tick with the corrected move preserves the invariant, for a faithful
      square root. */
  lemma UpdateWellFormed(s: Stream, lib: MathLib, w: World)
    requires WellFormed(w)
    requires IsSqrt(lib.sqrt)
    ensures WellFormed(Update(s, lib, w))
  {
    MoverKeepsNodes(lib);
    MoverKeepsReach(lib);
    TickWellFormed(s, Mover(lib), w);
  }

  /** Over any number of ticks the node count is fixed and an infected node stays
      infected, whatever the world and the square root. */
  lemma TicksMonotone(s: Stream, lib: MathLib, w: World, k: nat, i: nat)
    requires i < |w.nodes|
    ensures |Ticks(s, lib, w, k).nodes| == |w.nodes|
    ensures w.nodes[i].infected ==> Ticks(s, lib, w, k).nodes[i].infected
  {
    MoverKeepsNodes(lib);
    RunMonotone(s, Mover(lib), w, k, i);
  }

  /** Over any number of ticks the invariant holds, for a faithful square root. */
  lemma TicksKeepInfection(s: Stream, lib: MathLib, w: World, k: nat, i: nat)
    requires WellFormed(w)
    requires IsSqrt(lib.sqrt)
    requires i < |w.nodes|
    ensures |Ticks(s, lib, w, k).nodes| == |w.nodes|
    ensures WellFormed(Ticks(s, lib, w, k))
    ensures w.nodes[i].infected ==> Ticks(s, lib, w, k).nodes[i].infected
  {
    MoverKeepsNodes(lib);
    MoverKeepsReach(lib);
    RunWellFormed(s, Mover(lib), w, k);
    RunMonotone(s, Mover(lib), w, k, i);
  }

  /** A healthy isolated node is still healthy, and still isolated, after a
      tick with the corrected move. */
  lemma UpdateIsolatedStaysHealthy(s: Stream, lib: MathLib, w: World, i: nat)
    requires WellFormed(w)
    requires IsSqrt(lib.sqrt)
    requires Isolated(w, i) && !w.nodes[i].infected
    ensures !Update(s, lib, w).nodes[i].infected
    ensures Isolated(Update(s, lib, w), i)
  {
    MoverKeepsNodes(lib);
    MoverKeepsReach(lib);
    TickIsolatedStaysHealthy(s, Mover(lib), w, i);
  }

  /** A healthy isolated node stays healthy for any number of ticks. */
  lemma TicksIsolatedStaysHealthy(s: Stream, lib: MathLib, w: World, k: nat, i: nat)
    requires WellFormed(w)
    requires IsSqrt(lib.sqrt)
    requires Isolated(w, i) && !w.nodes[i].infected
    ensures i < |Ticks(s, lib, w, k).nodes| && !Ticks(s, lib, w, k).nodes[i].infected
  {
    MoverKeepsNodes(lib);
    MoverKeepsReach(lib);
    RunIsolatedStaysHealthy(s, Mover(lib), w, k, i);
  }

  /** Contagion between housemates in a tick with the corrected move. */
  lemma UpdateSharedHomeContagion(s: Stream, lib: MathLib, w: World, i: nat, j: nat)
    requires WellFormed(w)
    requires IsSqrt(lib.sqrt)
    requires i < |w.nodes| && j < |w.nodes| && i != j
    requires w.nodes[i].sPos == w.nodes[j].sPos
    requires w.nodes[i].maxTravel + w.nodes[j].maxTravel <= 2.0
    requires w.nodes[j].infected
    ensures Update(s, lib, w).nodes[i].infected
  {
    MoverKeepsNodes(lib);
    MoverKeepsReach(lib);
    TickSharedHomeContagion(s, Mover(lib), w, i, j);
  }

  // ------------------------------------------------- the tick as written

  /** The outcome of a tick of the program as written: the next world, or
      `Undefined` when some node's move produced a position that is not a
      number. */
  datatype TickOutcome = Ticked(world: World) | Undefined

  /** The displacement node `n` draws from the values `u` and `v`. */
  function Offset(lib: MathLib, n: Node, u: real, v: real): Vec {
    lib.displacement(u, v, n.maxSpeed)
  }

  /** Every move of the tick, as written, has a position that is a number. */
  predicate TickDefined(s: Stream, lib: MathLib, w: World) {
    forall i :: 0 <= i < |w.nodes| ==>
      MoveAsWritten(w.nodes[i], Offset(lib, w.nodes[i], DrawAt(s, w.nextSeed, 2 * i), DrawAt(s, w.nextSeed, 2 * i + 1)), lib.sqrt).Moved?
  }

  /** `World::update` with `Node::move` as written. */
  function UpdateAsWritten(s: Stream, lib: MathLib, w: World): TickOutcome {
    if TickDefined(s, lib, w) then Ticked(Tick(s, WrittenMover(lib), w)) else Undefined
  }

  /** `k` ticks of the program as written, stopping at the first undefined one. */
  function TicksAsWritten(s: Stream, lib: MathLib, w: World, k: nat): TickOutcome
    decreases k
  {
    if k == 0 then
      Ticked(w)
    else
      match UpdateAsWritten(s, lib, w)
      case Undefined => Undefined
      case Ticked(w') => TicksAsWritten(s, lib, w', k - 1)
  }

  /** A tick as written is undefined exactly when some node away from home
      draws a zero displacement, for a faithful square root. */
  lemma UpdateAsWrittenUndefinedIff(s: Stream, lib: MathLib, w: World)
    requires IsSqrt(lib.sqrt)
    ensures UpdateAsWritten(s, lib, w).Undefined? <==>
      exists i :: 0 <= i < |w.nodes| &&
        var posOff := Offset(lib, w.nodes[i], DrawAt(s, w.nextSeed, 2 * i), DrawAt(s, w.nextSeed, 2 * i + 1));
        posOff == Zero && Candidate(w.nodes[i], posOff) != Zero
  {
    forall i | 0 <= i < |w.nodes|
      ensures
        var posOff := Offset(lib, w.nodes[i], DrawAt(s, w.nextSeed, 2 * i), DrawAt(s, w.nextSeed, 2 * i + 1));
        MoveAsWritten(w.nodes[i], posOff, lib.sqrt).NotANumber? <==> posOff == Zero && Candidate(w.nodes[i], posOff) != Zero
    {
      var posOff := Offset(lib, w.nodes[i], DrawAt(s, w.nextSeed, 2 * i), DrawAt(s, w.nextSeed, 2 * i + 1));
      Norm2NonNegative(Candidate(w.nodes[i], posOff));
      Norm2NonNegative(posOff);
      MoveAsWrittenUndefinedIff(w.nodes[i], posOff, lib.sqrt);
    }
  }

  /** When every node is at home, as after construction, the tick as written is
      defined and agrees with the corrected tick. */
  lemma AtHomeTickAgrees(s: Stream, lib: MathLib, w: World)
    requires forall i :: 0 <= i < |w.nodes| ==> w.nodes[i].cPos == w.nodes[i].sPos
    ensures UpdateAsWritten(s, lib, w) == Ticked(Update(s, lib, w))
  {
    var written := Movements(s, WrittenMover(lib), w);
    var fixed := Movements(s, Mover(lib), w);
    MovementsDraws(s, WrittenMover(lib), w);
    MovementsDraws(s, Mover(lib), w);
    forall i | 0 <= i < |w.nodes|
      ensures MoveAsWritten(w.nodes[i], Offset(lib, w.nodes[i], DrawAt(s, w.nextSeed, 2 * i), DrawAt(s, w.nextSeed, 2 * i + 1)), lib.sqrt).Moved?
      ensures written[i] == fixed[i]
    {
      var posOff := Offset(lib, w.nodes[i], DrawAt(s, w.nextSeed, 2 * i), DrawAt(s, w.nextSeed, 2 * i + 1));
      MoveAsWrittenAgreesAtHome(w.nodes[i], posOff, lib.sqrt);
    }
    assert written == fixed;
    TickShape(s, WrittenMover(lib), w);
    TickShape(s, Mover(lib), w);
  }

  /** The first tick after construction is the same for the program as written
      and for the corrected move. */
  lemma CreateTickAgrees(s: Stream, lib: MathLib, cfg: Config)
    ensures UpdateAsWritten(s, lib, Create(s, cfg)) == Ticked(Update(s, lib, Create(s, cfg)))
  {
    CreateNodes(s, cfg);
    AtHomeTickAgrees(s, lib, Create(s, cfg));
  }

  /** A run of the program as written, as long as it stays defined, is the run
      with the move as written. */
  lemma {:induction false} TicksAsWrittenRun(s: Stream, lib: MathLib, w: World, k: nat)
    ensures TicksAsWritten(s, lib, w, k).Ticked? ==>
      TicksAsWritten(s, lib, w, k).world == Run(s, WrittenMover(lib), w, k)
    decreases k
  {
    if k > 0 && UpdateAsWritten(s, lib, w).Ticked? {
      TicksAsWrittenRun(s, lib, Tick(s, WrittenMover(lib), w), k - 1);
    }
  }

  /** A defined tick as written preserves the invariant, for a faithful square root. */
  lemma UpdateAsWrittenWellFormed(s: Stream, lib: MathLib, w: World)
    requires WellFormed(w)
    requires IsSqrt(lib.sqrt)
    ensures UpdateAsWritten(s, lib, w).Ticked? ==> WellFormed(UpdateAsWritten(s, lib, w).world)
  {
    WrittenMoverKeepsNodes(lib);
    WrittenMoverKeepsReach(lib);
    TickWellFormed(s, WrittenMover(lib), w);
  }

  /** Over any number of defined ticks as written the node count is fixed, the
      invariant holds, and an infected node stays infected. */
  lemma TicksAsWrittenKeepInfection(s: Stream, lib: MathLib, w: World, k: nat, i: nat)
    requires WellFormed(w)
    requires IsSqrt(lib.sqrt)
    requires i < |w.nodes|
    ensures TicksAsWritten(s, lib, w, k).Ticked? ==>
      && |TicksAsWritten(s, lib, w, k).world.nodes| == |w.nodes|
      && WellFormed(TicksAsWritten(s, lib, w, k).world)
      && (w.nodes[i].infected ==> TicksAsWritten(s, lib, w, k).world.nodes[i].infected)
  {
    TicksAsWrittenRun(s, lib, w, k);
    WrittenMoverKeepsNodes(lib);
    WrittenMoverKeepsReach(lib);
    RunWellFormed(s, WrittenMover(lib), w, k);
    RunMonotone(s, WrittenMover(lib), w, k, i);
  }

  /** A healthy isolated node is still healthy and isolated after a defined tick
      as written. */
  lemma UpdateAsWrittenIsolatedStaysHealthy(s: Stream, lib: MathLib, w: World, i: nat)
    requires WellFormed(w)
    requires IsSqrt(lib.sqrt)
    requires Isolated(w, i) && !w.nodes[i].infected
    ensures UpdateAsWritten(s, lib, w).Ticked? ==>
      !UpdateAsWritten(s, lib, w).world.nodes[i].infected && Isolated(UpdateAsWritten(s, lib, w).world, i)
  {
    WrittenMoverKeepsNodes(lib);
    WrittenMoverKeepsReach(lib);
    TickIsolatedStaysHealthy(s, WrittenMover(lib), w, i);
  }

  /** A healthy isolated node stays healthy for any number of defined ticks as
      written. */
  lemma TicksAsWrittenIsolatedStaysHealthy(s: Stream, lib: MathLib, w: World, k: nat, i: nat)
    requires WellFormed(w)
    requires IsSqrt(lib.sqrt)
    requires Isolated(w, i) && !w.nodes[i].infected
    ensures TicksAsWritten(s, lib, w, k).Ticked? ==>
      i < |TicksAsWritten(s, lib, w, k).world.nodes| && !TicksAsWritten(s, lib, w, k).world.nodes[i].infected
  {
    TicksAsWrittenRun(s, lib, w, k);
    WrittenMoverKeepsNodes(lib);
    WrittenMoverKeepsReach(lib);
    RunIsolatedStaysHealthy(s, WrittenMover(lib), w, k, i);
  }

  /** Contagion between housemates in a defined tick as written. */
  lemma UpdateAsWrittenSharedHomeContagion(s: Stream, lib: MathLib, w: World, i: nat, j: nat)
    requires WellFormed(w)
    requires IsSqrt(lib.sqrt)
    requires i < |w.nodes| && j < |w.nodes| && i != j
    requires w.nodes[i].sPos == w.nodes[j].sPos
    requires w.nodes[i].maxTravel + w.nodes[j].maxTravel <= 2.0
    requires w.nodes[j].infected
    ensures UpdateAsWritten(s, lib, w).Ticked? ==> UpdateAsWritten(s, lib, w).world.nodes[i].infected
  {
    WrittenMoverKeepsNodes(lib);
    WrittenMoverKeepsReach(lib);
    TickSharedHomeContagion(s, WrittenMover(lib), w, i, j);
  }
}
