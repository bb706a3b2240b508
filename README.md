# antares — a verified model of the arbitrage core

antares watches a cryptocurrency exchange for triangular arbitrage. It builds a directed
graph of currencies from the exchange's list of trading pairs, prunes it, and enumerates
the short elementary cycles of the graph once. It then reads a stream of order-book
messages. Each message overwrites edge weights (best bid and ask, with sizes). After each
message it recomputes every cycle's gain after a 1.2% taker fee. It reports the best cycle
when its gain exceeds 1.0. A terminal dashboard keeps a rolling log of 100 messages and
highlights the best path.

The model has four modules, one per part of the program:

- `GraphCycles` (`graph_cycles.dfy`) covers the bounded Johnson circuit search of
  `src/graph_cycles.rs`. `CycleFinder` is a class whose `blocked`, `b`, `stack` and `s`
  fields its methods update in place. `Cycles`, `VisitCycles` and `VisitAllCycles` run
  it over a list of strongly connected components.
  - `CycleFinder` follows the corrected control flow of "## Findings". The properties
    below are proved for that flow. They also hold for the program as written whenever
    the visitor never answers `Break`, as in `visit_all_cycles` and `cycles`.
  - Every cycle shown to the visitor is elementary. It has 3 to 5 vertices, each joined to
    the next by an edge, the last one joined back to the first, and none repeated. It
    starts at the root of its round and stays inside one component.
  - `circuit` leaves the stack as it found it whenever it returns `Continue`.
  - `unblock` never frees a vertex that is still on the stack.
  - `unblock(v)` has a closed form, `Unblocked`: it frees v and every blocked vertex
    reachable from v through the B sets of blocked vertices, and empties their B sets. The
    cascade gives this state whatever order it visits the B sets in.
  - A stateful visitor (`FnMut`) is a function of the list of cycles it has been shown so
    far.
- `CircuitControl` (`circuit_control.dfy`) models the control flow of `circuit` as
  written, next to the corrected flow that `CycleFinder.Circuit` follows (see
  "## Findings").
- `Market` (`market.dfy`) covers `src/main.rs`:
  - the pair filters and the graph build;
  - the one-pass pruning of nodes with exactly one outgoing edge;
  - snapshot and l2update messages turned into edge overwrites;
  - `calculate_gain`;
  - the `max_by` choice of the best deal and the `> 1.0` report gate;
  - node lookup.

  `MarketGraph` is a class holding the node list and an edge map `(from, to) -> Edge`.
- `Ui` (`ui.dfy`) covers `src/ui.rs`:
  - `AppState::new` and `add_log`, which keeps the last 100 messages;
  - the window of the log that the log panel shows;
  - the test of whether a graph edge lies on the best path so far.

  `src/ui.rs` is not declared as a module of the program, so this part is dead code in
  the program itself.

`Wrappers` holds `Option` and `Result`. `Seqs` holds `Distinct` and `Position`, which is
`iter().position`.

Prices and sizes are `real`. A runtime panic of the program (`unwrap` on a missing node, a
product id without `-`, or an empty order book) becomes an `Err(Fault)` result.

Where the code behaves differently from what one might expect, the model follows the code:

- The length window of 3 to 5 vertices is checked only when a cycle is shown to the
  visitor. Recursion is not cut off at depth 5.
  - A vertex whose only way back to the root is too long therefore stays blocked.
  - So the search is not complete. It misses the 4-cycle 0→3→4→5→0 in the graph
    0→1→2→3→4→5→0 plus 0→3, when 1 is explored before 3.
  - The model proves soundness only.
- Pruning removes the nodes whose out-degree is exactly 1 before any removal, in one pass.
  It does not remove the nodes whose out-degree would be 1 after pruning.
- The fee (1.2%), the length window (3 to 5), the report threshold (1.0) and the excluded
  currencies (EUR, GBP) are constants, not configuration.
- A frame that is not a ticker entry is skipped. A snapshot or l2update whose body does not
  decode leaves the edges as they are, and the cycles are rated again. The program
  panics, which the model writes as an `Err(Fault)`, on:
  - a product id without `-`;
  - a currency that is not a node;
  - an empty side of a snapshot's book;
  - the absence of any cycle.

  It also panics on a number that does not parse, which the model leaves out with the
  parsing.
- Nothing in `src/main.rs` feeds the dashboard state.

## Model

| member | source | states |
|---|---|---|
| Seqs.Position | src/graph_cycles.rs:163 | the first index holding the value, and `None` exactly when the value is absent |
| GraphCycles.AdjacentVertices | src/graph_cycles.rs:160-165 | every result is a component-local index, and w is a result exactly when the graph has an edge from scc[v] to scc[w] |
| GraphCycles.StackIsCycle | src/graph_cycles.rs:121-125 | a stack of 3 to 5 distinct vertices, joined in order and back to the first, is an elementary cycle inside the component starting at the root |
| GraphCycles.PushKeeps | src/graph_cycles.rs:117-118 | pushing an unblocked successor of the top vertex and blocking it keeps the search invariant (path distinct, joined by edges, every stack vertex blocked) |
| GraphCycles.PopAfterFound | src/graph_cycles.rs:137-138 | after an unblock cascade from the top vertex, only vertices blocked after it was pushed have been freed, so every vertex below it on the stack stays blocked |
| GraphCycles.PopAfterFailed | src/graph_cycles.rs:139-145 | recording v in the B set of each neighbour and popping keeps the search invariant |
| GraphCycles.CycleFinder.constructor | src/graph_cycles.rs:82-92 | nothing blocked, every B set empty, empty stack, root 0 |
| GraphCycles.CycleFinder.Unblock | src/graph_cycles.rs:149-158 | the flags and B sets become `Unblocked` of the old ones: v and exactly the blocked vertices reachable from v through B sets of blocked vertices are unblocked with empty B sets, and every other flag and B set is unchanged; every vertex it freed was blocked after time t |
| GraphCycles.UnblockedFrame | src/graph_cycles.rs:149-158 | in `Unblocked` from v: v is unblocked with an empty B set; a vertex still blocked was blocked and keeps its B set; a freed vertex has an empty B set and is reached from v; a vertex that was not blocked keeps its B set; the blocked members of a freed vertex's B set are freed too |
| GraphCycles.UnblockedExactly | src/graph_cycles.rs:149-158 | a state that frees v, frees only vertices reached from v through B sets, keeps the rest, and leaves no blocked vertex in a freed vertex's B set is exactly `Unblocked` of the old state, whatever order the B sets were visited in |
| GraphCycles.CycleFinder.Remember | src/graph_cycles.rs:140-142 | v is added to the B set of exactly its out-neighbours; other B sets are unchanged |
| GraphCycles.CycleFinder.Push | src/graph_cycles.rs:117-118 | the stack grows by scc[v], v becomes blocked, and the search invariant holds |
| GraphCycles.CycleFinder.Release | src/graph_cycles.rs:137-138 | after a found circuit the flags and B sets become `Unblocked` of the old ones from v, and the search invariant holds again for the path below v; unless v is the start, every vertex blocked before v was stamped stays blocked |
| GraphCycles.CycleFinder.Defer | src/graph_cycles.rs:139-142 | when every neighbour of v is blocked, the B sets become `Remembered` (v added to the B set of exactly its out-neighbours), the flags are unchanged, and the search invariant holds again for the path below v |
| GraphCycles.CycleFinder.Pop | src/graph_cycles.rs:145 | the stack and the path each lose exactly their last element |
| GraphCycles.CycleFinder.Retreat | src/graph_cycles.rs:136-145 | pops v; the flags and B sets become `Retreated`: the unblock closure from v when a cycle was found, otherwise v added to its out-neighbours' B sets; v stays blocked exactly when nothing was found; vertices blocked before v was pushed stay blocked |
| GraphCycles.CycleFinder.Circuit | src/graph_cycles.rs:112-147 | every new cycle shown is elementary, starts at scc[s] and lies in the component; on `Continue(f)` the stack is as at entry and f says whether a cycle was shown; on `Break(b)` the visitor's last answer was `Break(b)` and all earlier answers were `Continue` |
| GraphCycles.CycleFinder.Scan | src/graph_cycles.rs:121-134 | the neighbour loop; same guarantees as Circuit, and with no cycle found every neighbour other than the root is blocked |
| GraphCycles.CycleFinder.Step | src/graph_cycles.rs:122-133 | one neighbour w: shows the stack when w is the root and the stack holds 3 to 5 vertices, otherwise enters w when it is unblocked; with nothing found, w is the root or blocked |
| GraphCycles.CycleFinder.Restart | src/graph_cycles.rs:99-103 | the flags and B sets become `Restarted`: blocked[s..] cleared, B sets after s emptied, b[s] and everything before s kept |
| GraphCycles.CycleFinder.Visit | src/graph_cycles.rs:94-110 | all new cycles are elementary cycles of the component; `Break(b)` exactly repeats the visitor's first `Break` answer |
| GraphCycles.CloseCycle | src/graph_cycles.rs:62-64 | c is an elementary cycle exactly when c followed by c[0] is a closed cycle |
| GraphCycles.VisitCycles | src/graph_cycles.rs:16-24 | every cycle shown is elementary and inside one given component; `Some(b)` exactly for the visitor's first `Break(b)`, after which nothing more is shown; `None` when every answer was `Continue` |
| GraphCycles.AlwaysContinue | src/graph_cycles.rs:33-36 | the visitor of `visit_all_cycles` always answers `Continue` |
| GraphCycles.VisitAllCycles | src/graph_cycles.rs:31-37 | every cycle shown is elementary and inside one component |
| GraphCycles.Cycles | src/graph_cycles.rs:59-67 | every returned entry is an elementary cycle of 3 to 5 vertices inside one component, closed by repeating its first node; which cycles are returned is not fixed (see "## Left out") |
| CircuitControl.SilentFrameNeverBreaks | src/graph_cycles.rs:130 | as written, a frame that never shows the stack itself never returns `Break`, whatever its nested frames answer |
| CircuitControl.VisitAsWrittenNeverBreaks | src/graph_cycles.rs:98-109 | as written, `visit` never stops early when no root frame shows the stack; a root frame shows it only through an edge from the root to itself, so this covers every component in which no vertex has an edge to itself |
| CircuitControl.SelfLoopBreakEscapes | src/graph_cycles.rs:98-130 | as written, with an edge from 1 to itself and a visitor that always answers `Break`, the round of root 0 loses two `Break`s and leaves two vertices pushed, and the round of root 1 shows the stack [0, 1, 1] and its `Break` leaves `visit` |
| CircuitControl.CorrectedBreaksIffAnswered | src/graph_cycles.rs:125-130 | corrected, a frame returns `Break` exactly when a `Break` answer occurs anywhere in its run |
| CircuitControl.CorrectedContinueRestoresStack | src/graph_cycles.rs:145-146 | corrected, a frame that returns `Continue` leaves the stack height as it found it |
| CircuitControl.TriangleBreakIsLost | src/graph_cycles.rs:130 | on the triangle 0→1→2→0 with a visitor that answers `Break`, the written code loses the `Break` and leaves one vertex pushed; the corrected flow returns it |
| Market.OnlinePairs | src/main.rs:44 | keeps exactly the catalogue pairs whose status is "online" |
| Market.OnlinePairsInOrder | src/main.rs:44 | filtering a catalogue in two parts gives the two filtered parts in order |
| Market.OnlinePairsSingle | src/main.rs:44 | a single pair is kept exactly when its status is "online" |
| Market.NodesOfSpec | src/main.rs:149-160 | each currency of a pair without EUR or GBP becomes exactly one node, and no other name does |
| Market.EdgesOfSpec | src/main.rs:163-176 | there is an edge a→c exactly when some such pair joins a and c in either direction, and every edge weighs price 0, size 0 |
| Market.ViewOnlyPairsIgnored | src/main.rs:151-156 | pairs with EUR or GBP on either side change neither the nodes nor the edges |
| Market.KeepOnly | src/main.rs:188-190 | keeps exactly the names not removed, in order, and distinct names stay distinct |
| Market.KeepOnlyMore | src/main.rs:188-190 | removing nodes one at a time equals removing them all at once |
| Market.Between | src/main.rs:189 | the edges whose two ends both remain, with their weights |
| Market.BetweenFewer | src/main.rs:188-190 | cutting edges down to fewer nodes twice equals cutting once |
| Market.MarketGraph.constructor | src/main.rs:146 | no nodes, no edges |
| Market.MarketGraph.AddNode | src/main.rs:158-159 | the name is appended, its index is returned, edges are unchanged |
| Market.MarketGraph.UpdateEdge | src/main.rs:81-82 | replaces the weight of from→to, or adds the edge; nothing else changes |
| Market.MarketGraph.RemoveNode | src/main.rs:189 | the node goes, with every edge into or out of it |
| Market.OneEdgeOut | src/main.rs:181-183 | lists exactly the nodes with out-degree 1 |
| Market.PruneOutcome | src/main.rs:180-190 | removing exactly the nodes of out-degree 1 leaves distinct nodes whose out-degree was not 1, and edges only between them |
| Market.MarketGraph.Prune | src/main.rs:180-190 | keeps exactly the nodes whose out-degree before pruning was not 1, in the model's order (see "## Left out" on `remove_node`), and exactly the edges between kept nodes, with their weights |
| Market.BuildGraph | src/main.rs:146-176 | the graph has the nodes and edges of the two loops of `main` |
| Market.Startup | src/main.rs:140-192 | a node survives exactly when some online tradable pair names it and its out-degree in the built graph is not 1; the edges are the built ones between survivors |
| Market.PruneRunsOnce | src/main.rs:180-190 | on the chain A-B-C-D, pruning removes A and D only, although B and C then have out-degree 1 |
| Market.SplitOnce | src/main.rs:71 | `None` exactly when the id has no '-'; otherwise the parts joined by '-' give the id, and the first part has no '-' |
| Market.FindNodeWithWeight | src/main.rs:117-122 | the first index holding the name, and `None` exactly when it is absent |
| Market.NodeWithWeight | src/main.rs:124-133 | true exactly when the name is a node |
| Market.WatchedPairs | src/main.rs:56 | keeps exactly the pairs whose two currencies are both nodes |
| Market.AskEdge | src/main.rs:82 | the quote→base edge of an ask: price times ask price is 1, size is ask size times ask price |
| Market.SnapshotEdges | src/main.rs:75-83 | an error exactly when a side of the book is empty; otherwise base→quote holds the best bid, quote→base the ask edge, and no other edge changes |
| Market.ChangeStep | src/main.rs:90-99 | a "buy" change overwrites base→quote with the bid, a "sell" change overwrites quote→base with the ask edge, any other side changes nothing |
| Market.MarketGraph.ApplyUpdate | src/main.rs:90-100 | the edges become those of applying the changes in order, nodes unchanged |
| Market.ApplyChangesLastWrite | src/main.rs:90-100 | after a batch each edge holds the last write to it, or its old weight if none |
| Market.LastWriteOnPair | src/main.rs:90-100 | a batch writes only base→quote and quote→base |
| Market.ApplyChangesFrame | src/main.rs:90-100 | a batch changes no edge other than the pair's two |
| Market.ApplyChangesIdempotent | src/main.rs:90-100 | applying a batch twice equals applying it once |
| Market.Receive | src/main.rs:69-103 | a non-ticker message changes nothing; an id without '-' fails; on success both currencies are nodes, no edge is lost, new edges join nodes, and every cycle's hops stay edges |
| Market.CalculateGain | src/main.rs:203-217 | the loop returns the product of price × 0.988 over the hops, and the bottleneck size carried from an unbounded start |
| Market.RateFactors | src/main.rs:210-212 | the gain over n hops is 0.988^n times the product of the prices |
| Market.SizeIsBottleneck | src/main.rs:205-213 | with non-negative weights the size is finite, non-negative, and at most the size of each hop carried through the rest of the cycle |
| Market.CarriedIsSizeTimesRate | src/main.rs:213 | a hop's size carried to the end equals that size times the rate of the remaining hops |
| Market.BottleneckAt | src/main.rs:213 | the size after n hops is at most hop j's size carried to the end |
| Market.BreakEvenTriangle | src/main.rs:203-217 | for A→B (2, 10), B→C (0.5, 100), C→A (1, 1) the gain is 0.988³ = 0.964430272 and the size is 0.988 |
| Market.LastMaxIsGreatest | src/main.rs:105 | no cycle is above the chosen one in (gain, size) order, and every later cycle is below it, so the last of equals wins as with `max_by` |
| Market.BestDeal | src/main.rs:105 | the loop picks the index that `max_by` picks |
| Market.Evaluate | src/main.rs:104-108 | an error exactly when there are no cycles; no report exactly when every gain is at most 1; a report is one of the cycles, has gain above 1, and nothing is above it |
| Market.RateCycles | src/main.rs:104 | one assessment per cycle, in order |
| Market.Adjacency | src/main.rs:51 | the index graph the cycle search runs on: j is a successor of i exactly when the edge names[i]→names[j] exists |
| Market.NamesOfClosedCycle | src/main.rs:51 | a closed cycle of the index graph names a closed walk of 3 to 5 hops over existing edges; when node names are distinct, its currencies apart from the closing one do not repeat |
| Market.NamedCyclesOver | src/main.rs:51 | every closed cycle of the index graph, written as names, is a closed walk of 3 to 5 hops over existing edges |
| Market.MarketGraph.Cycles | src/main.rs:51 | every returned cycle is the names of a closed cycle of the index graph, and so a closed walk of 3 to 5 hops over existing edges; which cycles are returned is not fixed (see "## Left out") |
| Market.MarketGraph.HandleMessage | src/main.rs:66-109 | applies the message's edge effect; after anything but a snapshot it returns the evaluation of all cycles on the new edges; a panic in `Receive` leaves the edges unchanged; nodes are unchanged |
| Market.TurnOf | src/main.rs:67-113 | one frame: the cycles stay walks over edges; a report is a listed cycle with gain above 1 and comes only without a panic; a skipped frame changes nothing; an update with no cycles panics |
| Market.Replay | src/main.rs:66-114 | the read loop over a run of frames: at most one report per frame, each with gain above 1; the cycles stay walks over edges; a run of skipped frames changes nothing |
| Market.HandledIsTurn | src/main.rs:67-113 | what HandleMessage promises for a frame is that frame's turn of Replay |
| Market.ReadStep | src/main.rs:66-114 | handling frame i advances Replay by one turn: a panic ends the run with the edges at that point, otherwise the report, if any, is appended |
| Market.MarketGraph.ReadLoop | src/main.rs:66-114 | the final edges, the reports in order and the first panic are exactly those of Replay on the starting edges; every report is one of the listed cycles |
| Market.MarketGraph.FetchExchangeRates | src/main.rs:48-115 | watches exactly the pairs with both currencies in the graph; the final edges, the reports in order and the first panic are those of Replay, on the starting edges, over a list of closed walks of 3 to 5 hops over existing edges computed once; every report has gain above 1 and is such a walk; nodes are unchanged |
| Ui.AppState.constructor | src/ui.rs:32-46 | zero counters, not ready, no opportunities, no best-ever record, empty logs |
| Ui.AppState.AddLog | src/ui.rs:48-54 | the message is the last entry; from at most 100 entries the queue becomes the last 100 of the old entries plus the message; it keeps holding the last 100 messages ever logged |
| Ui.LastOfAppend | src/ui.rs:48-54 | keeping the last 100 after every append keeps the last 100 of all messages |
| Ui.SaturatingSub | src/ui.rs:338 | a - b when a ≥ b, else 0 |
| Ui.LogWindowStart | src/ui.rs:338-343 | the start never passes the end, and the window holds min(count, height - 2) entries |
| Ui.VisibleLogs | src/ui.rs:337-345 | the panel shows the newest entries that fit, in order |
| Ui.Split | src/ui.rs:184 | `split` always yields at least one piece |
| Ui.SplitJoin | src/ui.rs:184 | joining the pieces with the separator gives back the text |
| Ui.SplitPiecesFree | src/ui.rs:184 | no piece contains the separator |
| Ui.SplitJoinNames | src/ui.rs:184 | names without spaces joined with " > " split back into the same names |
| Ui.AnyAdjacent | src/ui.rs:196-199 | true exactly when some two neighbours of the path are the edge's ends, in either order |
| Ui.OnBestPath | src/ui.rs:183-202 | an edge is highlighted exactly when its ends are neighbours in the best-ever path split on " > "; nothing is highlighted without a best-ever record |
| Ui.OnBestPathSymmetric | src/ui.rs:196-199 | the highlight does not depend on the edge's direction |
| Ui.NodeOnBestPath | src/ui.rs:221 | a node is highlighted exactly when it is on the best path; none without a record |
| Ui.HighlightedEdgeEnds | src/ui.rs:194-221 | both ends of a highlighted edge are highlighted nodes |
| Ui.PathExample | src/ui.rs:183-202 | on the path A > B > C > A the edge C-B is highlighted and A-A is not |

## Left out

- `tarjan_scc` is a petgraph call. The components are an input: distinct node ids of the graph.
- petgraph's internals are replaced by a node list and an edge map. The model does not
  follow node indices renumbered by `remove_node`, which is the reason for `.rev()`. It
  does not follow the order of `neighbors`.
- Parallel edges are not modelled. Pairs are assumed unique, so `add_edge` is modelled as
  `UpdateEdge`.
- `f64` is modelled as `real`. There is no rounding, no NaN and no infinity. `f64::MAX` is
  `Size.Unbounded`.
- String-to-float parsing is left out, as are the HTTP catalogue fetch and JSON decoding.
  Messages arrive decoded.
- The WebSocket connection, the subscription string and the read loop's transport are left
  out. The read loop runs over a finite list of messages.
- Market.AskEdge, Market.SnapshotEdges, Market.ChangeStep, Market.ApplyChangesLastWrite,
  Market.LastWriteOnPair, Market.ApplyChangesFrame, Market.ApplyChangesIdempotent,
  Market.MarketGraph.ApplyUpdate, Market.Receive, Market.TurnOf, Market.Replay,
  Market.HandledIsTurn, Market.ReadStep, Market.MarketGraph.ReadLoop,
  Market.MarketGraph.FetchExchangeRates and Market.MarketGraph.HandleMessage: require the
  best ask of a snapshot and the price of every "sell" change to be non-zero, because the
  program divides by them and the model's `real` has no infinity.
- Market.MarketGraph.Cycles: returns cycles as currency names rather than node indices.
- Market.MarketGraph.FetchExchangeRates: reports are listed where the program prints them.
- `print_cycle`, every `println!`, and all rendering in `src/ui.rs` are left out. This
  includes the layout in `calculate_node_positions` and the colour thresholds.
- GraphCycles.CycleFinder.Circuit: after `Break` it does not promise the finder's
  invariant, because the finder is discarded.
- GraphCycles.Cycles: does not fix which cycles are returned, and an empty list meets its
  contract. The search has no definition apart from its code, so the contract states only
  that every returned entry is a closed elementary cycle of 3 to 5 vertices inside one
  component. It does not promise completeness either, because the search is not complete.
- Market.MarketGraph.Cycles: does not fix which cycles are returned, and an empty list meets
  its contract, for the same reason as `GraphCycles.Cycles`.
- Market.MarketGraph.FetchExchangeRates: does not fix which cycles it rates, and an empty
  list meets its contract, for the same reason as `GraphCycles.Cycles`.
- The program compares with `partial_cmp(..).unwrap()`, which panics on NaN. NaN is not
  modelled.

## Findings

| source | as written | input that shows it | evidently intended | confidence | as-written member | corrected member |
|---|---|---|---|---|---|---|
| src/graph_cycles.rs:130 | the result of a nested `circuit` is only matched against `Continue(true)`, so a nested `Break` is dropped; the caller goes on with its next neighbour and later pops a vertex that is not its own. The vertices left pushed stay at the bottom of the stack, so later rounds can show stacks that are not cycles and do not start at their root; with an edge from a vertex to itself, a later root frame can show such a stack and its `Break` then leaves `visit` (CircuitControl.SelfLoopBreakEscapes) | the triangle 0→1→2→0 as one component, with a visitor that answers `Break` to the first cycle: `visit_cycles` returns `None`, and one vertex stays on the stack | a `Break` from any depth stops the search and is returned as `Some(b)`, as the documentation of `visit_cycles` says | not executed | CircuitControl.TriangleBreakIsLost | CircuitControl.CorrectedBreaksIffAnswered |
