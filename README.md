# Dollar-game engine core, modelled in Dafny

This project models the core of the dollar-game framework. That framework plays the chip-firing "dollar game" on undirected graphs.

- **Values and edges.** Every node carries an integer value, and a negative value is a debt.
- **Moves.** A *give* on a node hands one unit to each neighbour and takes the node's degree from it. A *take* is the opposite move.
- **Solved and solvable.** A graph is *solved* when no node is in debt. The engine calls it *solvable* when the total of the values is at least the genus |E| − |V| + 1.

The model covers the parts below.

- **`Edge`, its ordering and hash** (`Edges`): an edge is ordered by its (min, max) endpoint pair.
- **`std::set<Edge>`** (`EdgeSets`): a sequence kept strictly ordered by that ordering. `Insert` keeps the element already present when an equivalent edge is inserted.
- **Neighbour lists of an edge set** (`Adjacency`): the neighbour lists that `Graph::init` lays out. This module also recovers the distinct undirected edges from those lists, as `Graph::isSolvable` does.
- **`Range`** (`Ranges`): a slice of the graph's connection buffer, given by offsets.
- **Firing** (`Firing`): give and take as functions on the value sequence.
- **`Graph`** (`Graphs`): a class whose fields are the values, one `Range` per node and the flat connection buffer. It has imperative methods for the copy constructor, `give`, `take`, `init` and `isSolvable`, and predicates for validity and packing.
  - `init` is split into its three passes: counting, carving and filling. Each pass is a method with its own loop.
- **`Move` and `SolverContext`** (`Solving`): the context keeps a private graph copy, a move log, a move budget and a stop flag.
  - With a ghost record of the starting values, its invariant is that the private graph equals the starting values with the logged moves replayed on them.
- **`GraphSolver::solve`** (`SolverHost`): the dangling-node check and the solvability check, then the plugin.
- **The Circular, Star and Uniform generators** (`Circular`, `Star`, `Uniform`, with `GeneratorCommon` for the value-drawing loop). Random draws are supplied as sequences.
  - The Uniform generator's two nested loops are specified by a reference function, `Uniform.UniformFrom`, that takes one attempt per call. Its inner loop is a method of its own, `Uniform.AddNodeEdges`.
- **The TakePoorest and GiveRichest solvers** (`Greedy`), proved against a reference `GreedyTrace`. `GreedyTrace` says that every logged move was made from an unsolved state, on that state's least (or greatest) node.

The plain accessors have no contract worth stating, so the table does not list them:

- `Graphs.Graph.Size`, `GetNodeValue`, `GetNodeConnections` and `IsSolved` (from `src/Graph.hpp:131-162` and `src/Graph.cpp:140-145`);
- `Solving.SolverContext.WasStopped` (from `src/SolverCommon.hpp:107-110`).

Each of them reads one field.

Some definitions carry no contract of their own because the lemmas in the table state their properties:

- `Edges.Less`, for `operator<` (`src/Graph.hpp:86-95`). Its properties are stated by `Edges.LessIsLexicographic`, `LessIrreflexive`, `LessTransitive`, `LessTotal` and `EquivalentIffSameKey`.
- `Edges.Hash` and `Edges.Xor32`, for `std::hash<Edge>` (`src/Graph.hpp:103-106`). They are covered by `Edges.HashSymmetric` and `HashRespectsEquivalence`.
- `Ranges.Range.Size` and `Ranges.Range.Empty`, for `size()` and `empty()` (`src/Graph.hpp:62-70`). They are covered by `Ranges.EmptyIffSizeZero` and `Ranges.MakeRange`.
- `Firing.Fire` and `Firing.AddEach`, for the arithmetic of `give` and `take` (`src/Graph.cpp:23-41`). They are covered by `Firing.FireAt`, `AddEachAt`, `AddEachSum`, `FireConservesSum` and `FireInverse`.
- `Graphs.Solvable` and `Graphs.Solved`, for the tests of `isSolvable` and `isSolved` (`src/Graph.cpp:114-145`). They are covered by `Graphs.Graph.IsSolvable`, `Graphs.InitGenus`, `Graphs.SolvableUnderFire` and `Greedy.SolvedIffPoorestNonNegative`.
- `SolverHost.HasDanglingNode`, for the `any_of` test in `GraphSolver::solve` (`src/Solver.cpp:42-43`). It is covered by `SolverHost.DanglingIffEmptyList` and `SolverHost.Validate`. `SolverHost.PluginMove` names the move each plugin plays.
- `Uniform.LoopState`, `Progress`, `AllReached`, `Building` and `Completed`, the state of the Uniform loops, their invariant and what a completed build promises. They are covered by the `Uniform.Attempt*`, `NextNodeBuilding` and `DoneBuilding` lemmas and by `Uniform.UniformFrom`.
- `Circular.Cycle`, `Circular.Link` and `Star.Spoke`, the edge sets the generators build. They are covered by the `Circular.Cycle*` and `Star.Spokes*` lemmas and by `Circular.BuildCycle` and `Star.BuildStar`.

Two edge cases come straight from the code:

- **Out-of-range edge endpoints.** `Graph::init` indexes `connectionCount[edge.a]` and `connectionCount[edge.b]` without a bounds check (`src/Graph.cpp:68-72`). Passing an endpoint that is not a node is therefore undefined behaviour. `Graphs.Graph.Init` requires every endpoint to be a node (`EndpointsBelow`).
- **The Uniform generator and size 0.** With size 0 the generator is well defined: its loops never run. Size 1 is rejected because `connDist(1, 0)` is an invalid distribution.

## Model

| member | source | states |
|---|---|---|
| Edges.Key | src/Graph.hpp:88-92 | the key of an edge is its endpoint pair in increasing order |
| Edges.LessIsLexicographic | src/Graph.hpp:86-95 | `operator<` on edges is the lexicographic order of their (min, max) keys |
| Edges.LessIrreflexive | src/Graph.hpp:86-95 | no edge is less than itself |
| Edges.LessTransitive | src/Graph.hpp:86-95 | the edge order is transitive |
| Edges.LessTotal | src/Graph.hpp:86-95 | of two edges on different node pairs, one is less than the other |
| Edges.EquivalentIffSameKey | src/Graph.hpp:86-95 | two edges are equivalent for the set exactly when they join the same unordered pair of nodes |
| Edges.ReversedEdgeEquivalent | src/Graph.hpp:86-95 | `Edge(a, b)` and `Edge(b, a)` are the same set element, neither less than the other |
| Edges.HashSymmetric | src/Graph.hpp:103-106 | the 32-bit xor hash does not depend on the direction of the edge |
| Edges.HashRespectsEquivalence | src/Graph.hpp:103-106 | equivalent edges hash alike, as `std::unordered_map` needs |
| Ranges.MakeRange | src/Graph.hpp:29-33 | a range made from a start and a count begins at that start and has that size |
| Ranges.ElementsOfMakeRange | src/Graph.hpp:29-33 | such a range views exactly the `count` buffer entries from its start |
| Ranges.Range.At | src/Graph.hpp:50-60 | indexing below the size yields that element of the slice |
| Ranges.EmptyIffSizeZero | src/Graph.hpp:62-70 | a range is empty exactly when its size is zero |
| EdgeSets.Insert | src/generators/UniformGenerator.cpp:29 | insertion either leaves the set as it was or splices the new edge in at one position |
| EdgeSets.InsertKeys | src/generators/UniformGenerator.cpp:29 | after insertion the set's node pairs are the old ones plus the new edge's pair |
| EdgeSets.InsertElements | src/generators/UniformGenerator.cpp:29 | insertion adds no element other than the inserted edge |
| EdgeSets.InsertSorted | src/generators/UniformGenerator.cpp:29 | insertion keeps the set strictly ordered |
| EdgeSets.InsertSize | src/generators/UniformGenerator.cpp:29-32 | insertion grows the set by one exactly when no equivalent edge was present (the `.second` flag), and otherwise changes nothing |
| EdgeSets.ContainsIffKey | src/generators/UniformGenerator.cpp:29 | an equivalent edge is present exactly when the edge's node pair is among the set's pairs |
| EdgeSets.InsertGreatest | src/generators/CircularGenerator.cpp:16-20 | inserting an edge greater than every element appends it |
| EdgeSets.SortedKeysDistinct | src/Graph.hpp:86-95 | a strictly ordered set never holds two equivalent edges |
| EdgeSets.SortedSizeIsKeyCount | src/Graph.cpp:127 | the size of an edge set is the number of distinct unordered node pairs in it |
| Adjacency.Zeros | src/Graph.cpp:65-66 | the zero-filled count vector has one entry per node and total zero |
| Adjacency.DegreeCountsAt | src/Graph.cpp:68-72 | after the counting pass, each node's count is its degree in the edge set |
| Adjacency.DegreeCountsStep | src/Graph.cpp:68-72 | one counting step raises exactly the two endpoint counts, once each |
| Adjacency.DegreeCountsSum | src/Graph.cpp:75 | the counts add up to twice the number of edges, the size of the connection buffer |
| Adjacency.NeighboursConcat | src/Graph.cpp:88-95 | a node's list over two runs of edges is its list over the first followed by its list over the second |
| Adjacency.SingleNeighbours | src/Graph.cpp:93-94 | one edge contributes the other endpoint to each of its endpoints |
| Adjacency.DegreeSplice | src/generators/UniformGenerator.cpp:29 | splicing an edge into a set raises each node's degree by that edge's contribution to it |
| Adjacency.InsertDegree | src/generators/UniformGenerator.cpp:29 | insertion raises degrees only when the edge is new, and then by its contribution |
| Adjacency.NeighbourMembership | src/Graph.cpp:88-95 | `y` is in node `i`'s list exactly when some edge joins `i` and `y` |
| Adjacency.NeighboursBelow | src/Graph.cpp:88-95 | every list entry is a node of the graph |
| Adjacency.AdjacencyWellFormed | src/Graph.cpp:88-95 | the lists built from an in-range edge set name only nodes of the graph |
| Adjacency.RowKeysStep | src/Graph.cpp:121-124 | one more neighbour adds one node pair to a row's pairs |
| Adjacency.DistinctEdgesOfAdjacency | src/Graph.cpp:114-125 | rebuilding edges from the lists that `init` lays out gives back exactly the original set's node pairs |
| Adjacency.EdgeCountOfAdjacency | src/Graph.cpp:116-127 | so `isSolvable` counts exactly as many edges as `init` was given |
| Firing.AddEachAt | src/Graph.cpp:26-29 | the neighbour loop changes each node by the step times the node's number of occurrences in the list |
| Firing.AddEachSum | src/Graph.cpp:26-29 | the neighbour loop changes the total by the step times the list length |
| Firing.FireAt | src/Graph.cpp:23-41 | after a give (take), the fired node loses (gains) its degree, and every other node gains (loses) its multiplicity in the list |
| Firing.FireConservesSum | src/Graph.cpp:23-41 | a give or a take never changes the total |
| Firing.FireInverse | src/Graph.cpp:23-41 | a take on a node undoes a give on it, and the reverse |
| Firing.FourCycleGiveExample | src/Graph.cpp:23-31 | a worked give on a four-node cycle, with its total kept |
| Graphs.StartStep | src/Graph.cpp:77-83 | each slice begins where the previous one ends |
| Graphs.StartMonotone | src/Graph.cpp:77-83 | slice starts never decrease along the node order |
| Graphs.SlotsApart | src/Graph.cpp:77-83 | a position inside one node's slice lies outside every other node's slice |
| Graphs.FillSlot | src/Graph.cpp:90-94 | writing one edge's two entries appends its contribution to one node's partial list |
| Graphs.FillNode | src/Graph.cpp:90-94 | the same for any node, whether or not it is an endpoint of the edge |
| Graphs.FillEdge | src/Graph.cpp:88-95 | one step of the filling loop writes inside the buffer and extends every node's partial list by that edge |
| Graphs.FilledInitially | src/Graph.cpp:85-87 | zeroed cursors describe empty partial lists |
| Graphs.FilledFinally | src/Graph.cpp:88-95 | once every edge is written, each slice holds exactly that node's neighbour list |
| Graphs.SolvableUnderFire | src/Graph.cpp:114-138 | a give or a take never changes whether the graph is solvable |
| Graphs.InitGenus | src/Graph.cpp:127-137 | for a graph built from an edge set, solvable means total ≥ \|E\| − \|V\| + 1 over that set |
| Graphs.InitLayout | src/Graph.cpp:56-95 | the three passes of `init` together produce valid packed slices holding the neighbour lists |
| Graphs.CarvedPacked | src/Graph.cpp:77-83 | slices carved back to back from the counts start at 0, follow one another and fill the buffer |
| Graphs.AdjOfLayout | src/Graph.cpp:56-95 | slices holding the lists of an edge set make the graph's adjacency those lists, with each slice's size the degree |
| Graphs.CountConnections | src/Graph.cpp:65-72 | the counting loop yields each node's degree, and the counts add up to twice the edge count |
| Graphs.CarveSlices | src/Graph.cpp:74-83 | the carving loop gives node `i` the slice starting at the sum of the earlier counts, of size `count[i]` |
| Graphs.WriteEdge | src/Graph.cpp:88-95 | one iteration of the filling loop keeps the buffer size and extends every partial list by the edge |
| Graphs.FillSlices | src/Graph.cpp:85-95 | the filling loop leaves the neighbour list of node `i` in slice `i` |
| Graphs.EmplaceRow | src/Graph.cpp:121-124 | emplacing one node's neighbours keeps the set ordered and adds exactly that row's node pairs |
| Graphs.Total | src/Graph.cpp:131-135 | the summing loop yields the total of the values |
| Graphs.Graph.Neighbours | src/Graph.hpp:158-162 | a node's connection slice names only nodes of the graph |
| Graphs.Graph.Adj | src/Graph.hpp:147-150 | the neighbour lists, one per node, each being that node's slice |
| Graphs.Graph.constructor | src/Graph.hpp:118 | a default graph is empty, valid and packed |
| Graphs.Graph.Copy | src/Graph.cpp:43-54 | the copy has the same values and buffer, ranges rebased onto its own buffer, and the same adjacency |
| Graphs.Graph.Give | src/Graph.cpp:23-31 | `give` updates the values as a give-firing of the node, leaving the layout alone |
| Graphs.Graph.Take | src/Graph.cpp:33-41 | `take` updates the values as a take-firing of the node, leaving the layout alone |
| Graphs.Graph.Init | src/Graph.cpp:56-96 | `init` stores the values and lays out packed slices whose lists are those of the edge set, with slice sizes the degrees and a buffer of 2\|E\| entries |
| Graphs.Graph.IsSolvable | src/Graph.cpp:114-138 | `isSolvable` answers whether the total reaches the genus over the distinct undirected edges |
| Solving.ReplayStep | src/SolverCommon.hpp:78-89 | logging one more move plays it on the replayed state |
| Solving.ReplayAppend | src/SolverCommon.hpp:78-89 | replaying two logs in turn is replaying their concatenation |
| Solving.ReplayConservesSum | src/SolverCommon.hpp:78-89 | no move sequence changes the total |
| Solving.ReplayKeepsSolvable | src/SolverCommon.hpp:58-61 | no move sequence changes solvability |
| Solving.Opposite | src/SolverCommon.hpp:15-31 | the opposite move is on the same node with the other type |
| Solving.OppositeInvolutive | src/SolverCommon.hpp:15-31 | taking the opposite twice gives the move back |
| Solving.Undo | src/SolverCommon.hpp:15-31 | the undo log holds the opposite moves in reverse order |
| Solving.ReplayUndo | src/SolverCommon.hpp:78-89 | playing a log and then its undo log restores the starting values |
| Solving.SolverContext.constructor | src/SolverCommon.hpp:42-49 | a new context holds a copy of the graph, an empty log, the given budget and a lowered stop flag |
| Solving.SolverContext.RegisterMove | src/SolverCommon.hpp:78-89 | the move is appended to the log and played on the private graph, and nothing else changes |
| Solving.SolverContext.RegisterMoveOf | src/SolverCommon.hpp:63-76 | the same for the typed overload |
| Solving.SolverContext.IsSolved | src/SolverCommon.hpp:91-100 | the stop flag goes up once the log exceeds the budget, and the answer is stopped-or-solved |
| Solving.SolverContext.Stop | src/SolverCommon.hpp:102-105 | the stop flag is raised |
| Solving.SolverContext.IsSolvable | src/SolverCommon.hpp:58-61 | solvability of the private graph, which equals that of the starting values |
| SolverHost.DanglingIffEmptyList | src/Solver.cpp:42-46 | a node has an empty slice exactly when its neighbour list is empty |
| SolverHost.Validate | src/Solver.cpp:42-51 | dangling nodes are reported first, then unsolvability, and the graph passes otherwise |
| SolverHost.Solve | src/Solver.cpp:38-53 | a rejected context and its graph are left entirely unchanged; an accepted one is run by the plugin until stopped or solved, keeping the old log as its prefix, the budget and the adjacency, and appending a greedy trace of the plugin's move whose replay is the final graph; the stop flag ends up set exactly when it was already set or the log has outgrown the budget, and a context that was already stopped gets no moves |
| GeneratorCommon.DrawValues | src/generators/CircularGenerator.cpp:8-13 | one drawn value per node, in node order, each within [minValue, maxValue] |
| Circular.PathFrom | src/generators/CircularGenerator.cpp:16-20 | the path holds the edges (lo+j, lo+j+1) in order |
| Circular.PathGrow | src/generators/CircularGenerator.cpp:16-20 | each new path edge is greater than every earlier edge and extends the path |
| Circular.PathSorted | src/generators/CircularGenerator.cpp:16-20 | the path is strictly ordered |
| Circular.PathDegree | src/generators/CircularGenerator.cpp:16-20 | degrees along the path: 1 at its ends, 2 inside, 0 off it |
| Circular.CloseCycle | src/generators/CircularGenerator.cpp:22-23 | inserting the closing edge into the path gives the cycle |
| Circular.CycleSorted | src/generators/CircularGenerator.cpp:15-23 | the cycle's edge set is strictly ordered |
| Circular.CycleEdges | src/generators/CircularGenerator.cpp:15-23 | the cycle's node pairs are the consecutive pairs plus the closing pair |
| Circular.CycleSize | src/generators/CircularGenerator.cpp:15-23 | from three nodes up, the cycle has as many edges as nodes |
| Circular.CycleDegree | src/generators/CircularGenerator.cpp:15-23 | from three nodes up, every node has degree 2 |
| Circular.TwoNodeCycle | src/generators/CircularGenerator.cpp:23 | with two nodes the closing edge is equivalent to the path edge, so the set keeps one edge |
| Circular.CycleEndpoints | src/generators/CircularGenerator.cpp:15-23 | every endpoint is a node |
| Circular.CycleGenus | src/generators/CircularGenerator.cpp:15-25 | a cycle of three or more nodes is solvable exactly when its total is at least 1 |
| Circular.FourCycleExamples | src/generators/CircularGenerator.cpp:15-25 | a four-node cycle with total 1 is solvable; one with total 0 is not |
| Circular.BuildCycle | src/generators/CircularGenerator.cpp:15-23 | the edge loop and the closing insert build exactly the cycle, an ordered in-range set |
| Circular.Generate | src/generators/CircularGenerator.cpp:6-26 | the graph gets the drawn values and the cycle's neighbour lists, valid and packed |
| Star.Spokes | src/generators/StarGenerator.cpp:15-20 | the spokes are the edges (0, j) for j from 1 below n, in order |
| Star.SpokesGrow | src/generators/StarGenerator.cpp:15-20 | each new spoke is greater than every earlier one and extends the list |
| Star.SpokesShape | src/generators/StarGenerator.cpp:15-20 | the spokes form an ordered in-range set without self-loops |
| Star.SpokesDegree | src/generators/StarGenerator.cpp:15-20 | the centre has degree n − 1, every other node degree 1 |
| Star.NoDanglingNode | src/generators/StarGenerator.cpp:15-20 | from two nodes up, no node of a star is dangling |
| Star.StarGenus | src/generators/StarGenerator.cpp:15-22 | a star is solvable exactly when its total is non-negative |
| Star.BuildStar | src/generators/StarGenerator.cpp:15-20 | the edge loop builds exactly the spokes |
| Star.Generate | src/generators/StarGenerator.cpp:6-23 | the graph gets the drawn values and the star's neighbour lists, valid and packed |
| Uniform.OffsetMovesAway | src/generators/UniformGenerator.cpp:25-26 | a node plus an offset in [1, n−1], taken modulo n, is another node |
| Uniform.InsertKeepsShape | src/generators/UniformGenerator.cpp:28-32 | inserting such an edge keeps the set ordered, loop-free and in range; it grows by one exactly when the edge is new, and no degree drops |
| Uniform.ReachedGrow | src/generators/UniformGenerator.cpp:25 | an edge reached by one of the first offsets stays reached when more are drawn |
| Uniform.InsertReached | src/generators/UniformGenerator.cpp:25-29 | inserting a reached edge into a set of reached edges leaves only reached edges |
| Uniform.AttemptProgress | src/generators/UniformGenerator.cpp:25-32 | one attempt keeps the set ordered, loop-free and in range, with two new edges per finished node and, for the current node, its count of new edges as a lower bound on its degree and as the set's growth |
| Uniform.AttemptReached | src/generators/UniformGenerator.cpp:25-29 | after one attempt every edge is still reached by one of the offsets drawn so far |
| Uniform.AttemptBuilding | src/generators/UniformGenerator.cpp:23-33 | one attempt keeps the whole loop invariant `Building`, including that at least two offsets per new edge pair have been drawn |
| Uniform.NextNodeBuilding | src/generators/UniformGenerator.cpp:21-23 | a node with its two new edges hands the loop invariant on to the next node |
| Uniform.DoneBuilding | src/generators/UniformGenerator.cpp:21-34 | once every node has its two edges, the loop invariant yields the completed shape |
| Uniform.UniformFrom | src/generators/UniformGenerator.cpp:21-34 | the reference definition of both loops, one offset per attempt: started from a state satisfying the loop invariant, every set it completes is ordered, loop-free and in range, holds exactly 2n edges, gives every node degree at least 2, joins each edge's first node to the node a supplied offset reaches from it, and needed at least 2n offsets |
| Uniform.UniformEdges | src/generators/UniformGenerator.cpp:18-34 | for sizes up to 2^31 and offsets in [1, n−1], the edge set built from the empty set is, when completed, of that shape |
| Uniform.UnfoldAttempt | src/generators/UniformGenerator.cpp:25-32 | one attempt inserts the edge from the drawn offset and counts it only when `insert` reports it new |
| Uniform.UnfoldNextNode | src/generators/UniformGenerator.cpp:21-23 | after two new edges the build moves on to the next node with a fresh count |
| Uniform.UnfoldDone | src/generators/UniformGenerator.cpp:21 | past the last node the build returns its set |
| Uniform.EmptyUniform | src/generators/UniformGenerator.cpp:20-21 | size 0 yields the empty set without drawing an offset |
| Uniform.AddNodeEdges | src/generators/UniformGenerator.cpp:23-33 | the inner loop for one node does what the reference definition does from the same state: when it stops with `done` false, that definition gives `None` from the starting state; otherwise it reaches a state at the next node from which that definition gives the same result |
| Uniform.BuildUniform | src/generators/UniformGenerator.cpp:20-34 | the result is exactly the reference definition's edge set for the supplied offsets, and a completed set has the shape `UniformFrom` promises |
| Uniform.UniformGenus | src/generators/UniformGenerator.cpp:36 | a completed Uniform graph is solvable exactly when its total is at least n + 1 |
| Uniform.Generate | src/generators/UniformGenerator.cpp:9-37 | the result is the reference definition's edge set, and the graph is left unchanged exactly when the offsets ran out; on success the graph gets the drawn values and the neighbour lists of that set, and is solvable exactly when its total is at least n + 1 |
| Greedy.PoorestNode | src/solvers/TakePoorestSolver.cpp:6-10 | the first index holding a least value, as `std::min_element` finds it |
| Greedy.RichestNode | src/solvers/GiveRichestSolver.cpp:6-10 | the first index holding a greatest value, as `std::max_element` finds it |
| Greedy.SolvedIffPoorestNonNegative | src/Graph.cpp:140-145 | a non-empty graph is solved exactly when its poorest node is out of debt |
| Greedy.PoorestInDebt | src/solvers/TakePoorestSolver.cpp:14-17 | in an unsolved graph the poorest node is in debt |
| Greedy.TraceExtend | src/solvers/TakePoorestSolver.cpp:14-18 | one more greedy move from an unsolved state extends a greedy trace |
| Greedy.TakenNodesInDebt | src/solvers/TakePoorestSolver.cpp:14-18 | every take the poorest-first solver plays is on a node in debt at that moment |
| Greedy.LogStep | src/solvers/TakePoorestSolver.cpp:16-17 | appending a greedy move keeps the old head of the log and extends the greedy tail |
| Greedy.Advance | src/solvers/GiveRichestSolver.cpp:16-17 | one loop body: register the chosen move, which adds exactly one entry to the log, and re-test, keeping the loop invariant; the stop flag is then set exactly when the log has outgrown the budget, and the result is the flag or the graph being solved |
| Greedy.TakePoorest | src/solvers/TakePoorestSolver.cpp:12-18 | the loop ends stopped or solved, within the budget; the stop flag ends up set exactly when it was already set or the log has outgrown the budget, and an already stopped context gets no moves; the moves it appends are a poorest-first trace whose replay is the final graph |
| Greedy.GiveRichest | src/solvers/GiveRichestSolver.cpp:12-18 | the same as `Greedy.TakePoorest`, with the stop flag tied to the budget in the same way, for the richest-first trace; the total is unchanged |

## Left out

- The plugin machinery is not modelled: loading solver and generator libraries (`DllUtils`, the `GraphSolver` and generator constructors) and `getName`/`getDescription`. The model calls the two solvers and three generators directly.
- `trySolve` in `src/DollarGame.cpp` with its asynchronous task and timeout, the `BogoSolver`, the retrying `generateGraph` and the command-line front end are outside the core. The only part of the concurrent stop request that is modelled is `SolverContext.Stop`.
- Random number generation is not modelled. The Mersenne Twister draws become supplied sequences, with preconditions that each draw lies in its distribution's range.
- `NodeValue` is a signed 32-bit integer in the source. The model keeps values unbounded, in `give`/`take` and in the total of `isSolvable`. The source's signed 32-bit overflow, which is undefined behaviour in C++, is not modelled.
- Graphs.Graph.Init: requires every edge endpoint to be a node, because the source indexes unchecked there. `Graph.size()` and the `NodeHandle` loop counters are not bounded.
- Greedy.TakePoorest: requires at most `NullNode` nodes, because the chosen index is cast to the 32-bit `NodeHandle` and must not collide with `NullNode`.
- Greedy.GiveRichest: the same requirement as `Greedy.TakePoorest`, for the same reason.
- SolverHost.Solve: the same requirement as `Greedy.TakePoorest`, for the same reason.
- GeneratorCommon.DrawValues: requires a size of at most `NullNode`, because the 32-bit `nodeIt` loop of every generator would otherwise never end.
- Circular.BuildCycle: requires at least one node. With size 0, `params.size() - 1` wraps and the edge loop does not end.
- Uniform.BuildUniform: requires a size of at most 2^31 so that `nodeIt + offset` cannot wrap in 32 bits. Size 1 is excluded because its offset distribution is empty.
- Uniform.BuildUniform: the source retries without bound until it finds a fresh edge. The model consumes one supplied offset per attempt and returns `None` when the offsets run out first.
- `SolverContext` holds `m_moves` as a reference to the caller's vector. That aliasing is not modelled: the log is a field of the context.
- `Range` holds raw pointers in the source and offsets into the buffer in the model. So the copy constructor's pointer rebasing appears as copying the offsets unchanged.
