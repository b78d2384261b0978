# Delivery-cost engine of the parcel-station window

This project models the computing core of a small Qt desktop app for a
parcel station. `MainWindow` keeps three pieces of state:

- a node vector `map`, where node 0 is the depot and each node holds a name
  and a map from neighbour name to distance;
- a package list;
- a delivery-car profile.

Three operations act on that state:

- **Map load** (`loadMapData`). It reads a node count `n` and an edge
  count `m` and rejects the load when either is not positive. It resizes the
  node vector to `n` and writes the `n` names in order. Then it writes each
  of the `m` edge lines `u v w` (1-based endpoints) into both endpoints'
  adjacency maps, keyed by the other endpoint's name; a line with an
  out-of-range endpoint is skipped. A file that ends early stops the load
  where it is.
- **Package load** (`loadPackageData`). It appends the records read, in
  order.
- **Route evaluation** (`calculateOptimalRoute`). It refuses to run with no
  map or no packages, and groups the packages by exact destination string.
  For each destination with a direct depot edge of positive length `d`, it
  adds `d * (car weight + group weight)` to the cost, and counts the
  packages whose travel time `d / speed` exceeds their deadline.

The Dafny model has five modules in four files:

- `DeliveryTypes` (types.dfy) holds the records. `Wrappers` holds `Option`.
- `Graph` (graph.dfy) gives the state a map load leaves as the function
  `MapAfterLoad`, with lemmas about it: symmetry, overwriting, skipped
  lines, stale entries and truncation.
- `Routing` (routing.dfy) defines the total cost and the late count
  directly over the package list, with lemmas about them: every package
  falls in exactly one group, and the result does not depend on package
  order.
- `DeliveryEngine` (session.dfy) has the `Session` class. Its fields
  `nodes`, `packages` and the constant `car` stand for the window's state.
  Its methods `LoadMap`, `LoadPackages` and `Calculate` are loops proved
  against the functions above.

Input files arrive already split into tokens: the two counts, the name
tokens, the edge triples and the package records. A token list shorter than
the declared count is a file that ends early.

The code and a plain reading of the app's intent differ in two places,
and the model follows the code in both:

- **A truncated map load does not roll back.** The vector has already been
  resized, and the names and edges read so far stay in place
  (mainwindow.cpp:67-81). See `Graph.TruncatedLoadKeepsPartialNodes`.
- **A reload does not replace the graph.** `QVector::resize` keeps the nodes
  that survive, with their adjacency maps. Entries keyed by names that no
  longer exist stay too. See `Graph.ReloadKeepsStaleEdges` and
  `Graph.LoadKeepsSurvivingEdges`.

`QMap` visits the destination groups in ascending key order. The model
visits them in an arbitrary order, chosen by `:|`. The results are stated
as order-free sums over the destination set, so they hold for the `QMap`
order in particular.

## Model

| member | source | states |
|---|---|---|
| DeliveryEngine.Session.constructor | mainwindow.cpp:7-17 | a new window has no nodes and no packages |
| Graph.Resized | mainwindow.cpp:67 | `resize(n)` leaves exactly `n` nodes: the surviving ones unchanged, adjacency included, and blank nodes after them |
| Graph.Renamed | mainwindow.cpp:68-75 | after `k` names are read, node `i < k` is named by the `i`-th token; other names and every adjacency map are unchanged |
| Graph.InsertEdge | mainwindow.cpp:88-99 | an edge line keeps the node count and every name; an out-of-range line changes nothing |
| Graph.InsertEdgeEffect | mainwindow.cpp:98-99 | an in-range edge sets `w` at `(u, name v)` and at `(v, name u)`; every other entry keeps its presence and value; no entry is removed |
| Graph.InsertEdges | mainwindow.cpp:77-100 | inserting edge lines in order keeps the node count and names and never removes an entry |
| Graph.MapAfterLoad | mainwindow.cpp:43-104 | the outcome is `BadCounts` exactly when `n <= 0` or `m <= 0`, and then the nodes are untouched; otherwise exactly `n` nodes remain; it is `MissingNames(k)` exactly when only `k < n` names exist; `MissingEdges(k)` exactly when all names but only `k < m` edge lines exist; `Loaded` otherwise |
| Graph.LoadWritesNames | mainwindow.cpp:67-75 | with valid counts, node `i` has the `i`-th name token, or its pre-load name, or `""` past the old size when the tokens ran out |
| Graph.LoadKeepsSurvivingEdges | mainwindow.cpp:67-99 | with valid counts, no adjacency entry of a node that survives the resize is removed |
| Graph.InsertEdgesAppend | mainwindow.cpp:77-100 | inserting `xs + ys` is inserting `xs`, then `ys` |
| Graph.InsertEdgesPrefix | mainwindow.cpp:77-100 | one more edge line extends the prefix already inserted |
| Graph.SkipOutOfRangeEdge | mainwindow.cpp:92-96 | an out-of-range line can be dropped from any position without changing the result, so the lines after it still take effect |
| Graph.LaterEdgeOverwrites | mainwindow.cpp:98-99 | a second line between the same two endpoints, in either direction, leaves exactly what the second line alone would |
| Graph.InsertEdgeKeepsSymmetric | mainwindow.cpp:98-99 | with distinct names, one edge line keeps every entry paired with an equal reverse entry |
| Graph.InsertEdgesKeepsSymmetric | mainwindow.cpp:77-100 | with distinct names, any run of edge lines keeps the graph symmetric |
| Graph.FreshLoadSymmetric | mainwindow.cpp:43-104 | a load into nodes without adjacency, with distinct names, leaves a symmetric graph, truncated or not |
| Graph.ReloadKeepsStaleEdges | mainwindow.cpp:67-99 | concrete: reloading two linked nodes as one node `X` keeps `X`'s stale distance to `B` |
| Graph.TwoNodeScenario | mainwindow.cpp:43-104 | concrete: nodes `A`, `B` and edge `1 2 10` give `A→B = 10` and `B→A = 10` |
| Graph.TruncatedLoadKeepsPartialNodes | mainwindow.cpp:67-72 | concrete: a file with one of three names leaves three nodes, only the first named, and reports one name read |
| Routing.Filter | mainwindow.cpp:136-139 | a destination's group holds exactly the packages bound for that exact string, in load order |
| Routing.FilterSnoc | mainwindow.cpp:137-139 | appending a package adds it to the end of its own group only, and adds its destination to the key set |
| Routing.FilterMultiset | mainwindow.cpp:136-139 | each package occurs in its own group as often as in the whole list, and in no other group |
| Routing.Distance | mainwindow.cpp:154 | definition: the depot's distance to the destination, or 0.0 when the depot has no edge keyed by it, as `value(dest, 0.0)` |
| Routing.WeightSum | mainwindow.cpp:147-150 | definition: the sum of the group's package weights, added in load order |
| Routing.IsLate | mainwindow.cpp:155-161 | definition: a package is late when its destination's depot distance is positive and that distance divided by the car's speed exceeds its deadline |
| Routing.GroupCost | mainwindow.cpp:154-156 | definition: a group adds `distance * (car weight + group weight)` when the depot distance is positive, and 0 otherwise |
| Routing.TotalCost | mainwindow.cpp:132-166 | definition: the sum of the group costs over the set of distinct destination strings |
| Routing.LateCount | mainwindow.cpp:159-164 | the late count never exceeds the number of packages |
| Routing.CostOverSplit | mainwindow.cpp:142-166 | the cost sum over destinations may take any destination first |
| Routing.LateOverSplit | mainwindow.cpp:142-166 | the lateness sum over destinations may take any destination first |
| Routing.LateOverAll | mainwindow.cpp:135-166 | counting late packages group by group over all destinations counts each late package exactly once |
| Routing.OrderIndependent | mainwindow.cpp:135-166 | reordering the packages changes neither the total cost nor the late count |
| Routing.GroupPermutation | mainwindow.cpp:136-150 | reordering the packages reorders each group and keeps its weight |
| Routing.WeightSumPermutation | mainwindow.cpp:147-150 | a group's weight does not depend on the order of its packages |
| Routing.LateCountPermutation | mainwindow.cpp:159-164 | the late count does not depend on package order |
| Routing.NoDirectEdgeNoCost | mainwindow.cpp:154-165 | a package list in which no destination has a positive direct edge costs 0 and has no late package |
| Routing.NoDirectEdgeAddsNothing | mainwindow.cpp:135-166 | appending packages whose destinations have no positive direct edge to any package list changes neither its total cost nor its late count, even when they join a group already present |
| Routing.FilterSkips | mainwindow.cpp:137-139 | packages bound elsewhere leave a destination's group unchanged |
| Routing.CostOverDropZeros | mainwindow.cpp:142-166 | destinations whose groups cost nothing can be left out of the cost sum |
| Routing.SingleDestinationScenario | mainwindow.cpp:154-164 | concrete: depot `A` 10 from `B` with one 5-unit package: cost 10·(100+5) = 1050; late exactly when the deadline is under 10 |
| DeliveryEngine.Session.LoadMap | mainwindow.cpp:43-104 | the nodes and outcome are exactly those of `MapAfterLoad` on the old nodes; the packages are untouched |
| DeliveryEngine.Session.ReadNames | mainwindow.cpp:68-75 | the name loop completes exactly when there are enough tokens, and leaves the nodes renamed up to where it stopped |
| DeliveryEngine.Session.ReadEdges | mainwindow.cpp:77-100 | the edge loop inserts the first `m` lines, or all of them and reports how many when fewer exist |
| DeliveryEngine.WriteEdge | mainwindow.cpp:89-99 | the two indexed writes of one edge line, or the skip of an out-of-range line, leave exactly `InsertEdge` of the nodes |
| DeliveryEngine.Session.LoadPackages | mainwindow.cpp:106-122 | the new package list is the old one followed by the records, in order, duplicates kept; the map is untouched |
| DeliveryEngine.Session.Calculate | mainwindow.cpp:124-171 | there is no result exactly when there are no nodes or no packages; otherwise the result is the total cost and the late count over all packages, measured from node 0 |
| DeliveryEngine.TallyStep | mainwindow.cpp:142-166 | finishing one more destination adds its group's cost and late packages to the running sums |
| DeliveryEngine.GroupByDestination | mainwindow.cpp:136-139 | the grouping has one key per destination string, each mapped to its group in load order |
| DeliveryEngine.GroupStep | mainwindow.cpp:138 | appending one package to its destination's group keeps the grouping exact |
| DeliveryEngine.GroupTotals | mainwindow.cpp:143-165 | one destination adds its group's cost and late count when the depot edge is positive, nothing otherwise |
| DeliveryEngine.GroupWeight | mainwindow.cpp:147-150 | the weight loop returns the group's total weight |
| DeliveryEngine.CountLate | mainwindow.cpp:159-164 | the deadline loop returns the group's late count |
| DeliveryEngine.Scenario | mainwindow.cpp:43-171 | concrete session: load `A B`, an edge of 10 and one 5-unit package for `B`; calculating gives cost 1050 and one late package exactly when the deadline is under 10 |

## Left out

- The Qt user interface: button wiring and file dialogs (mainwindow.cpp:20-35), `QMessageBox` warnings and their text, `qDebug` output, and appending the result to `txtResult` (mainwindow.cpp:169-170). `Calculate` returns the two numbers instead, and `LoadMap` returns the outcome that picks the final warning. The warning shown for each out-of-range edge line (mainwindow.cpp:93-95) has no counterpart: a `Loaded` outcome can follow any number of skipped lines.
- `displayResults` (mainwindow.cpp:173-203): it only formats fields into a text widget.
- Opening and closing files (mainwindow.cpp:45-49, 102, 108-112, 121): this is I/O. A file that cannot be opened changes nothing.
- `QTextStream` token conversion and `atEnd`: what `>>` yields for a non-numeric token, and `atEnd()` staying false before trailing whitespace. For packages (mainwindow.cpp:116-118), a trailing newline appends one more record with stale fields. For names and edges (mainwindow.cpp:69-73, 78-95), it lets the loop read one more empty name, or one failed edge line that is then skipped as out of range; the source then counts one more name or edge line read than the tokens hold, and a file one name or one line short can even be reported as complete. Input is modelled as token sequences that are already complete.
- `double` rounding: weights, distances and the cost are exact reals. The order-independence lemmas therefore hold for exact arithmetic only.
- `DeliveryCar::maxLoad`, `currentLoad` and `packages` (mainwindow.h:37-39): the engine never reads them after the constructor sets them.
- The ascending key order in which `QMap` visits destinations: `Calculate` visits them in an arbitrary order, and its result is proved not to depend on that order.
- Routing.IsLate: requires a positive car speed, because the source divides by `car.speed`; the only car the window builds has speed 1.0.
- Graph.FreshLoadSymmetric: is stated only for the first load and distinct names. Stale entries from an earlier load, and duplicate names, can make a reloaded graph asymmetric; `Graph.ReloadKeepsStaleEdges` shows a stale entry.
