# dsim engine in Dafny

A model of the simulation engine of dsim, a small epidemic simulator: a
population of agents (`Node`) that each live around a home position, take a
random step every tick while staying within their own reach of home, and
catch the infection from any infected agent closer than 4 distance units.
The model covers the agent record and its constructor, `Node::move`,
`Node::update`, the contact rule `infectTest`, and the population `World`:
its constructor and its tick `World::update`, all in `main.cpp`.

The model is functional. Nodes are immutable datatypes held in a `seq`, a
tick maps a world to a new world, and doubles are exact `real`s.

- `geometry.dfy` (`Geometry`): the part of `olc::vd2d` the engine uses.
  The square root behind `mag()` and `norm()` is a parameter, and
  `IsSqrtAt` / `IsSqrt` say when it is faithful.
- `random.dfy` (`Random`): `srand` / `rand` / `drand()` as an abstract
  stream `s(seed, k)`, the k-th value of `rand()` after `srand(seed)`, and a
  generator state `Rng(seed, drawn)` threaded through every call. The model
  therefore states which draw each step reads and how the seeds chain.
- `nodes.dfy` (`Nodes`): the node, its move (as intended, and as written),
  the contact rule, and the per-node infection check.
- `worlds.dfy` (`Worlds`): construction, the two loops of a tick, the
  world invariant, and properties that hold over any number of ticks. The
  tick `Tick` takes the node move as a parameter. `Update` is the tick with
  the corrected move; `UpdateAsWritten` is the tick with the move as
  written, and is `Undefined` when a move yields a position that is not a
  number. The invariant, isolation and contagion results are proved once
  for any move that changes only positions and keeps nodes within reach,
  and then stated for both ticks.
- `scenarios.dfy` (`Scenarios`): concrete configurations. They show the
  move's defect and the order dependence of the infection pass.

Contacts compare squared distances with `4 * 4`. `InfectTestByMagnitude`
proves this agrees with the source's `mag() < 4` for a faithful square root.

In the infection pass, `Node::update` reads the live flags of the
population. A node updated earlier in the same pass is therefore seen as
infected by later nodes, and infection chains forward in index order within
one tick. `Worlds.InfectionPassSpread` states this exactly. In
`Scenarios.FrontInfectsWholeRow` and `Scenarios.BackInfectsOnlyNeighbour`,
a row and its mirror image end differently.

## Model

| member | source | states |
|---|---|---|
| `Random.Rand` | main.cpp:14 | `rand()` consumes exactly one value of the stream for the current seed, and returns a value in `[0, RAND_MAX]` |
| `Random.Drand` | main.cpp:13-15 | `drand()` consumes exactly one value of the stream, and lies in `[0, 1]` |
| `Random.DrandIsScaledRand` | main.cpp:13-15 | `drand()` is the value `rand()` would return, divided by RAND_MAX, and consumes the same single draw |
| `Random.ScaledInUnit` | main.cpp:14 | a `rand()` value in `[0, RAND_MAX]` gives a `drand()` value in `[0, 1]` |
| `Nodes.NewNode` | main.cpp:100-104 | a new node is at home (`cPos == sPos == pos`), healthy, infectable, with `infectedFor == 0`, and carries the given id, reach, speed and reinfection flag |
| `Nodes.Move` | main.cpp:106-115 | moving changes nothing but the current position (the corrected move, see Findings) |
| `Nodes.MoveDistance` | main.cpp:106-115 | after a move the home is unchanged; the node is at home when the candidate offset `posOff + cPos - sPos` is zero, and otherwise at squared distance `min(ndist, maxTravel)^2` from home |
| `Nodes.MoveDirection` | main.cpp:109-114 | for a non-negative `maxTravel`, the new offset from home is a non-negative multiple of the candidate offset, which is computed from the position before the reset |
| `Nodes.MoveStaysWithinReach` | main.cpp:106-115 | with a non-negative `maxTravel`, a node is never farther than `maxTravel` from home after a move, wherever it started |
| `Nodes.MoveUnclamped` | main.cpp:110-114 | when the candidate offset is no longer than `maxTravel`, the move is a plain random-walk step: the new position is the old one plus `posOff` |
| `Nodes.MovePinned` | main.cpp:110-114 | a node whose `maxTravel` is zero is at home after every move |
| `Nodes.MoveAsWrittenAgreesAtHome` | main.cpp:110-113 | the move as written agrees with the corrected one whenever the node starts at home |
| `Nodes.MoveAsWrittenUndefinedIff` | main.cpp:110-113 | the move as written divides zero by zero exactly when `posOff` is zero while the node is away from home |
| `Nodes.MoveAsWrittenKeepsNode` | main.cpp:110-113 | when defined, the move as written changes only the position |
| `Nodes.MoveAsWrittenStaysHome` | main.cpp:110-112 | the move as written leaves the node at home when the candidate offset is zero |
| `Nodes.MoveAsWrittenStaysWithinReach` | main.cpp:110-114 | when defined, the move as written also ends within `maxTravel` of home, for a non-negative `maxTravel` |
| `Nodes.MoveAsWrittenDistance` | main.cpp:110-114 | when defined, the move as written keeps the intended distance `min(ndist, maxTravel)` from home, so only the direction is wrong |
| `Nodes.InfectTest` | main.cpp:141-144 | the contact rule is true only if the other node is infected |
| `Nodes.InfectTestByMagnitude` | main.cpp:141-144 | the contact rule holds iff the distance `mag()` is strictly below 4 and the second node is infected; the first node's own flag does not matter |
| `Nodes.InfectTestSymmetric` | main.cpp:141-144 | contact is symmetric in the two nodes, so between two infected nodes the rule does not depend on which is the subject |
| `Nodes.CheckInfection` | main.cpp:117-123 | `Node::update` changes only `infected`, and leaves it set iff it was set or some node with another id is in contact and infected; it never clears it, and it leaves an infected node unchanged |
| `Worlds.SpawnFromDraws` | main.cpp:70-76 | the construction loop from index `i` builds `numNodes - i` nodes (none if `numNodes <= i`); node `i + k` reads draws `3k .. 3k+2` as x, y and reach; the loop consumes three draws per node |
| `Worlds.CreateDraws` | main.cpp:69-76 | a new world has `max(numNodes, 0)` nodes; node `i` comes from draws `3i .. 3i+2` after `srand(randSeed)`, and the first `nextSeed` is draw `3 * numNodes` |
| `Worlds.SpawnTravelInRange` | main.cpp:73 | a node's `maxTravel` lies in `[minMaxTravel, maxMaxTravel]` when its draw lies in `[0, 1]` |
| `Worlds.SpawnHomeInBox` | main.cpp:70-72 | a node's home lies in the box `[minPos, maxPos]` when its two draws lie in `[0, 1]` |
| `Worlds.CreateNodes` | main.cpp:56-77 | the nodes of a new world have ids `0 .. numNodes-1` in order, are at home, healthy and infectable, and carry the world's `maxSpeed` and `reInfect`; whenever the bounds are ordered, the reaches lie in `[minMaxTravel, maxMaxTravel]` and the homes in `[minPos, maxPos]` |
| `Worlds.MoveAll` | main.cpp:131-133 | the move loop keeps the number of nodes and consumes exactly two draws per node |
| `Worlds.MoveAllDraws` | main.cpp:107-108 | in the move loop, node `i` reads draws `2i` and `2i+1` counted from where the loop starts |
| `Worlds.MovementsDraws` | main.cpp:129-133 | in a tick, node `i` moves with draws `2i` and `2i+1` after `srand(nextSeed)` |
| `Worlds.PassFromFold` | main.cpp:134-137 | the infection loop from index `k` leaves the nodes before `k` unchanged; each later node `j` is checked against the population whose nodes before `j` are already updated |
| `Worlds.InfectionPassSpec` | main.cpp:134-137 | the infection pass is a left-to-right fold over the nodes; it changes only `infected`, never clears it, and keeps the node count, the ids and all positions |
| `Worlds.InfectionPassSpread` | main.cpp:117-123 | after the pass, node `k` is infected iff it was, or some node with another id in contact with it was infected when it was scanned: already updated if it comes before `k`, as it was if it comes after |
| `Worlds.CreateWellFormed` | main.cpp:56-77 | a new world satisfies the invariant (node `i` has id `i`, a non-negative reach, and is within reach of home) when `0 <= minMaxTravel <= maxMaxTravel` |
| `Worlds.PassUntouchedStaysHealthy` | main.cpp:134-137 | a healthy node in contact with no other node stays healthy through the infection pass |
| `Worlds.TickShape` | main.cpp:128-139 | a tick draws only from the stored `nextSeed`; the new nodes are the infection pass over the moved nodes; the new `nextSeed` is draw `2 * |nodes|`; no stored parameter changes |
| `Worlds.MoverKeepsNodes` | main.cpp:106-115 | the corrected move changes nothing but the position, whatever the draws |
| `Worlds.MoverKeepsReach` | main.cpp:106-115 | the corrected move keeps every well-formed node well formed, for a faithful square root |
| `Worlds.WrittenMoverKeepsNodes` | main.cpp:106-115 | the move as written changes nothing but the position, whatever the draws |
| `Worlds.WrittenMoverKeepsReach` | main.cpp:106-115 | the move as written, where defined, keeps every well-formed node well formed, for a faithful square root |
| `Worlds.MovementsKeepNodes` | main.cpp:131-133 | with a move that changes only positions, the move loop changes nothing but positions |
| `Worlds.MovementsWellFormed` | main.cpp:131-133 | with a move that keeps nodes within reach, every move of a tick keeps its node within reach of home |
| `Worlds.TickKeepsNodes` | main.cpp:128-139 | with either move, a tick keeps the node count, the ids, homes, reaches and every other field except position and infection, and never clears an infection |
| `Worlds.TickWellFormed` | main.cpp:128-139 | with a move that changes only positions and keeps nodes within reach, a tick preserves the invariant |
| `Worlds.RunMonotone` | main.cpp:128-139 | with a move that changes only positions, over any number of ticks the node count is kept and an infected node stays infected |
| `Worlds.RunWellFormed` | main.cpp:128-139 | with a move that changes only positions and keeps nodes within reach, the invariant holds over any number of ticks |
| `Worlds.TickIsolatedStaysHealthy` | main.cpp:128-144 | with such a move, a healthy node whose home is, in x or in y, at least the two reaches plus 4 away from every other home stays healthy and isolated through a tick |
| `Worlds.RunIsolatedStaysHealthy` | main.cpp:128-144 | with such a move, an isolated healthy node stays isolated and healthy for any number of ticks |
| `Worlds.TickSharedHomeContagion` | main.cpp:128-144 | with such a move, if two nodes share a home and their reaches add up to at most 2, and one is infected before a tick, the other is infected after it, whatever the draws and the order |
| `Worlds.UpdateWellFormed` | main.cpp:128-139 | a tick with the corrected move preserves the invariant, for a faithful square root |
| `Worlds.TicksMonotone` | main.cpp:128-139 | over any number of ticks with the corrected move the node count is kept and an infected node stays infected, for any world and any square root |
| `Worlds.TicksKeepInfection` | main.cpp:128-139 | over any number of ticks with the corrected move the node count and the invariant are kept, and an infected node stays infected |
| `Worlds.UpdateIsolatedStaysHealthy` | main.cpp:128-144 | an isolated healthy node stays healthy and isolated through a tick with the corrected move |
| `Worlds.TicksIsolatedStaysHealthy` | main.cpp:128-144 | an isolated healthy node stays healthy for any number of ticks with the corrected move |
| `Worlds.UpdateSharedHomeContagion` | main.cpp:128-144 | contagion between housemates holds in a tick with the corrected move |
| `Worlds.UpdateAsWrittenUndefinedIff` | main.cpp:128-139 | a tick of the program as written produces a position that is not a number exactly when some node away from home draws a zero displacement |
| `Worlds.AtHomeTickAgrees` | main.cpp:128-139 | when every node is at home, the tick as written is defined and equals the corrected tick |
| `Worlds.CreateTickAgrees` | main.cpp:56-139 | the first tick after construction is the same for the program as written and for the corrected move |
| `Worlds.TicksAsWrittenRun` | main.cpp:128-139 | a run of the program as written, while it stays defined, is the run of ticks with the move as written |
| `Worlds.UpdateAsWrittenWellFormed` | main.cpp:128-139 | a defined tick of the program as written preserves the invariant, for a faithful square root |
| `Worlds.TicksAsWrittenKeepInfection` | main.cpp:128-139 | over any number of defined ticks as written, the node count and the invariant are kept and an infected node stays infected |
| `Worlds.UpdateAsWrittenIsolatedStaysHealthy` | main.cpp:128-144 | an isolated healthy node stays healthy and isolated through a defined tick as written |
| `Worlds.TicksAsWrittenIsolatedStaysHealthy` | main.cpp:128-144 | an isolated healthy node stays healthy for any number of defined ticks as written |
| `Worlds.UpdateAsWrittenSharedHomeContagion` | main.cpp:128-144 | contagion between housemates holds in a defined tick as written |
| `Scenarios.MoveAsWrittenLosesCandidate` | main.cpp:110-113 | the move as written sends a node at (3, 0) from home (0, 0) with displacement (0, 4) to (0, 5) |
| `Scenarios.MoveTakesCandidate` | main.cpp:106-115 | the corrected move sends the same node to (3, 4) |
| `Scenarios.MoveAsWrittenZeroOffset` | main.cpp:113 | the move as written with a zero displacement, for a node away from home, normalises the zero vector |
| `Scenarios.MoveZeroOffsetStays` | main.cpp:106-115 | the corrected move with a zero displacement leaves that node where it is |
| `Scenarios.FrontInfectsWholeRow` | main.cpp:134-137 | in a row of three nodes 3 apart, infection at the front reaches the back node in a single pass |
| `Scenarios.BackInfectsOnlyNeighbour` | main.cpp:134-137 | in the mirror image, infection at the back reaches only the middle node, so the pass depends on node order |
| `Scenarios.PinnedRowStays` | main.cpp:131-133 | nodes with no reach stay at home through the moves of a tick, whatever the draws |
| `Scenarios.TickFrontInfectsWholeRow` | main.cpp:128-139 | a whole tick of the pinned row, infected at the front, infects every node |
| `Scenarios.TickBackSparesFront` | main.cpp:128-139 | a whole tick of the mirrored pinned row, infected at the back, leaves the front node healthy |
| `Scenarios.RowTickAsWritten` | main.cpp:128-139 | the program as written ticks both rows exactly as the corrected move does |

## Left out

- The graphical front end `DSim` and olcPixelGameEngine drawing and input (main.cpp:158-199). This is UI built on an external library.
- Command-line parsing in `main` (main.cpp:201-287). This is driver code, not engine logic.
- The log stream: the header records and `operator<<` (main.cpp:10, 60-68, 130, 136, 146-151). This is output only, and no engine state depends on it.
- The algorithm of `rand` / `srand`: the stream is an arbitrary function of seed and index into `[0, RAND_MAX]`. RAND_MAX is fixed at 2147483647, the GNU C library's value.
- `PI`, `sin` and `cos` (main.cpp:11, 107-109): the displacement `posOff` is a parameter of the model. It is a function of the two draws and the node's `maxSpeed`. `sqrt` is a parameter too.
- The empty `Stats` class (main.cpp:153-156). It has no behaviour.
- The stored but unused `minInfTime`, `maxInfTime`, `suvRate`, `reinfectable`, `infectable` and `infectedFor` are carried through unchanged. No behaviour reads them.
- The `WorldParams` constructor (main.cpp:53-54) only forwards fields, so `Config` serves for both constructors. The deleted copy constructor has no counterpart.
- Nodes.NewNode: does not model the narrowing of the position to `olc::vf2d` and of `maxSpeed` to `float` (main.cpp:100), because all arithmetic is on exact reals.
- Worlds.CreateNodes: the nodes carry the world's `maxSpeed` exactly, because the narrowing to `float` in the `Node` constructor (main.cpp:100) is not modelled.
- Worlds.Spawn: C++ does not fix which of the two `drand()` calls in `olc::vd2d(drand(), drand())` (main.cpp:72) runs first. The model gives the first draw to x.
- Floating-point rounding and the int width of `numNodes`, ids and seeds are not modelled.
- Worlds.UpdateAsWritten: a tick in which a move yields a position that is not a number is `Undefined`. The program goes on with that position, and the model does not follow it there, because NaN comparisons are floating-point behaviour.

## Findings

| source | as written | input that shows it | evidently intended | confidence | as-written member | corrected member |
|---|---|---|---|---|---|---|
| main.cpp:110-113 | line 113 recomputes `posOff + cPos - sPos` after line 111 has set `cPos = sPos`, so the node moves along `posOff`, not along the candidate offset measured on line 110 | home (0, 0), position (3, 0), `maxTravel` 10, `posOff` (0, 4): the node lands on (0, 5) | the step to (3, 4): along the candidate offset, clamped to `maxTravel` | high; not executed | `Scenarios.MoveAsWrittenLosesCandidate` | `Nodes.Move` |
| main.cpp:113 | with `posOff` zero (the distance draw is 0) and the node away from home, `norm()` divides the zero vector by its zero magnitude | home (0, 0), position (3, 0), `posOff` (0, 0): the new position is not a number | the node stays at (3, 0) | high; not executed | `Scenarios.MoveAsWrittenZeroOffset` | `Nodes.Move` |

`Nodes.MoveDirection`, `Nodes.MoveDistance`, `Nodes.MoveUnclamped` and
`Nodes.MoveStaysWithinReach` prove the intended behaviour of the corrected
`Nodes.Move`, which `Worlds.Update` uses. `Nodes.MoveAsWritten` models the
code as written, and `Nodes.MoveAsWrittenUndefinedIff` gives exactly when it
fails. `Worlds.UpdateAsWritten` ticks with it. The first defect leaves the
distance from home intact (`Nodes.MoveAsWrittenStaysWithinReach`); the second
makes the tick `Undefined` (`Worlds.UpdateAsWrittenUndefinedIff`). So every
world-level property above holds for the ticks as written while they stay
defined. `Worlds.CreateTickAgrees` shows that the first tick after
construction is the same either way.
