# Kruskal's animation — a verified model

This Dafny project models the core of `KruskalsAnimation.java`, a JavaFX program. The program places `numVertices` points and builds the complete graph on them. It sorts the edges by length and runs Kruskal's algorithm with a union-find structure. The structure uses path compression and union by height. The program then animates the accepted edges one by one: a partial line grows over `frames` frames, and the two ends of the edge being drawn are highlighted. The keys SPACE, N, Q and E pause, rerun, rewind and finish the animation.

The model has five modules. They follow the program's structure.

- `UnionFind` (`unionfind.dfy`) defines the parent and height tables as a value, `Forest`.
  - `Root` is the representative find returns, and `Compress` is what find does to the tables.
  - `Link` is the second half of union, and `Unite` is the whole union.
  - Each of these is proved to keep the tables well formed and to preserve or merge the partition exactly as the program intends.
- `DisjointSets` (`disjointset.dfy`) defines the class `DisjointSet`, which holds the two tables as arrays updated in place.
  - Its constructor is the make-set loop.
  - `Find` is the recursive find that rewrites `parent`.
  - `Union` is union by height.
  - Each method is proved to change the arrays exactly as the matching pure function says.
- `Graph` (`graph.dfy`) covers the edges.
  - The edge record is `Edge`.
  - `BuildEdges` is the nested loop that generates them.
  - `SortByWeight` is the stable sort by weight.
- `Kruskal` (`kruskal.dfy`) covers the algorithm itself.
  - `Select` is a reference definition of the greedy scan over component labels.
  - `RunKruskal` is the program's loop over the union-find tables. Its invariant, `ScanInv`, ties the roots of the tables to the labels of `Select`.
  - Lemmas prove what the run promises: the loop stays inside the edge list, and it stops with `n-1` accepted edges. Those edges are acyclic, appear in scan order and connect every vertex.
- `Animation` (`animation.dfy`) covers the playback.
  - The playback state is a value, `Player`, stepped by `Tick` (one frame of `draw`) and `Press` (a key).
  - `Snapshot` is what a frame shows.
  - The class `KruskalsAnimation` holds the program's fields. Its methods `Draw`, `KeyPressed` and `RunKruskals` are proved to move that state exactly as the step functions say, and to keep the class invariant `Valid`.

Vertices are the indices `0..n-1`. The weight of the pair `(i, j)` is given by a caller-supplied function `w(i, j)` into `int`.

## Model

| member | source | states |
|---|---|---|
| UnionFind.Singletons | KruskalsAnimation.java:165-166 | make-set: every vertex is its own parent with height 1, and the tables are well formed |
| UnionFind.Root | KruskalsAnimation.java:203-208 | the vertex find returns is a root (its own parent) and is at least as high as the vertex |
| UnionFind.PathFacts | KruskalsAnimation.java:203-208 | every vertex on find's path is a non-root, strictly lower than the root, with the same root |
| UnionFind.Compress | KruskalsAnimation.java:203-208 | path compression never changes a height |
| UnionFind.CompressPointers | KruskalsAnimation.java:204-205 | after find(v), exactly the vertices on v's former path point at v's root, and every other parent entry is unchanged |
| UnionFind.CompressValid | KruskalsAnimation.java:203-208 | path compression keeps the tables well formed |
| UnionFind.CompressRoots | KruskalsAnimation.java:203-208 | path compression changes the root of no vertex, so the partition is unchanged |
| UnionFind.CompressFlattens | KruskalsAnimation.java:203-208 | after find(v), v points directly at its root, and its path has at most one step and is never longer than before |
| UnionFind.Link | KruskalsAnimation.java:214-223 | linking two roots keeps the sizes of both tables |
| UnionFind.LinkSpec | KruskalsAnimation.java:214-223 | linking two distinct roots sets exactly one parent entry (the lower root's, root2's on a tie) to the survivor; it raises only root1's height, by exactly one and only on a tie; it sends the vertices of both trees to the survivor and leaves all other roots unchanged |
| UnionFind.LinkRootAt | KruskalsAnimation.java:214-223 | the root of one vertex after linking: the survivor for both trees, the old root otherwise |
| UnionFind.Unite | KruskalsAnimation.java:210-224 | union as a value: find(v1), find(v2) on the compressed tables, then Link of the two roots found; UniteSpec and UniteHeights state what it does to roots and heights |
| UnionFind.UniteSpec | KruskalsAnimation.java:210-224 | union keeps the tables well formed; afterwards v1 and v2 share a root, which is one of their two old roots; every other vertex keeps its root; when the roots already agree, only the two finds' compression has happened |
| UnionFind.UniteHeights | KruskalsAnimation.java:214-223 | union by height raises the height of root1 by one exactly when the two roots differ and have equal heights, and changes no other height |
| UnionFind.TallerShrinks | KruskalsAnimation.java:204-205 | the recursion of find terminates: a parent has strictly fewer vertices above it than its child |
| DisjointSets.DisjointSet.constructor | KruskalsAnimation.java:160-167 | the make-set loop leaves the arrays equal to Singletons(n) |
| DisjointSets.DisjointSet.Find | KruskalsAnimation.java:203-208 | find returns Root(v) of the old tables and leaves them equal to Compress(old, v) |
| DisjointSets.DisjointSet.Union | KruskalsAnimation.java:210-224 | union leaves the arrays well formed and equal to Unite(old, v1, v2) |
| DisjointSets.DisjointSet.LinkRoots | KruskalsAnimation.java:214-223 | the three branches on the heights leave the arrays well formed and equal to Link(old, root1, root2) |
| Graph.BuildEdges | KruskalsAnimation.java:171-178 | the nested loops produce Pairs(n, w): n(n-1)/2 edges, each with u < v < n and weight w(u, v) |
| Graph.Row | KruskalsAnimation.java:172-177 | the inner loop for row i as a value; RowFacts, RowHas and RowsOrdered state its length, entries and order |
| Graph.Rows | KruskalsAnimation.java:171-178 | the first i rows of the nested loops; RowsCount, RowsBounds, RowsOrdered and RowsHas state their count, range, order and completeness |
| Graph.Pairs | KruskalsAnimation.java:171-178 | the whole edge list the nested loops build; PairsCount and PairsNested state n(n-1)/2 edges in nested order containing every pair |
| Graph.RowFacts | KruskalsAnimation.java:172-177 | the inner loop for i yields the edges (i, i+1), (i, i+2), … in order |
| Graph.RowsCount | KruskalsAnimation.java:171-178 | after the first i rows there are i(2n-1-i)/2 edges |
| Graph.PairsCount | KruskalsAnimation.java:171-178 | edge construction yields exactly n(n-1)/2 edges |
| Graph.RowsBounds | KruskalsAnimation.java:171-178 | every edge of the first i rows has u < i, u < v < n and weight w(u, v) |
| Graph.RowsOrdered | KruskalsAnimation.java:171-178 | the edges of the first i rows are in nested ascending order of (u, v) |
| Graph.RowHas | KruskalsAnimation.java:172-176 | the inner loop for i generates the pair (i, b) for each i < b < n |
| Graph.RowsHas | KruskalsAnimation.java:171-178 | the first i rows contain every pair (a, b) with a < i and a < b < n |
| Graph.PairsShape | KruskalsAnimation.java:171-178 | every generated edge is a pair u < v < n carrying its weight w(u, v) |
| Graph.PairsNested | KruskalsAnimation.java:171-178 | the edges come in nested ascending order, and every pair i < j < n occurs |
| Graph.Insert | KruskalsAnimation.java:179 | one step of the stable sort; InsertPermutes, InsertSorted and InsertStable state what it keeps |
| Graph.SortByWeight | KruskalsAnimation.java:179 | the sort by weight; SortSpec states that it is a permutation, non-decreasing in weight and stable |
| Graph.InsertPermutes | KruskalsAnimation.java:179 | one insertion step adds exactly the inserted edge to the multiset |
| Graph.InsertSorted | KruskalsAnimation.java:179 | inserting into a list with non-decreasing weights keeps the weights non-decreasing |
| Graph.InsertStable | KruskalsAnimation.java:179 | insertion places the new edge before every edge of the same weight |
| Graph.SortPermutes | KruskalsAnimation.java:179 | the sort is a permutation of its input |
| Graph.SortSorted | KruskalsAnimation.java:179 | the sorted weights are non-decreasing |
| Graph.SortStable | KruskalsAnimation.java:179 | for every weight c, the edges of weight c keep their input order (the sort is stable) |
| Graph.SortSpec | KruskalsAnimation.java:179 | the sort is a permutation with non-decreasing weights that keeps the order of equal-weight edges |
| Kruskal.Identity | KruskalsAnimation.java:160-167 | the labelling of the fresh tables; PartitionStart ties it to make-set and IdentityClasses counts n components |
| Kruskal.IdentityClasses | KruskalsAnimation.java:160-167 | n vertices start as n distinct components |
| Kruskal.MergeClasses | KruskalsAnimation.java:186-187 | joining two different components removes exactly one component |
| Kruskal.MergeJoins | KruskalsAnimation.java:186-187 | after joining, the two endpoints share a component, and vertices that shared one still do |
| Kruskal.OneClass | KruskalsAnimation.java:182-190 | all vertices are connected exactly when there is a single component |
| Kruskal.Select | KruskalsAnimation.java:182-190 | the greedy scan as a reference definition on labels; SelectForest, SelectInOrder, SelectNext and CompleteScan state what it accepts |
| Kruskal.SelectForest | KruskalsAnimation.java:182-190 | the accepted edges stay within 0..n-1 and never close a cycle, and the scan's labels are the components of the accepted edges |
| Kruskal.SelectInOrder | KruskalsAnimation.java:182-190 | the accepted edges are a subsequence of the scanned edges, in scan order |
| Kruskal.SelectConnects | KruskalsAnimation.java:186-187 | after the scan, the two ends of every scanned edge are in one component (a rejected edge closed a cycle) |
| Kruskal.SelectCount | KruskalsAnimation.java:182-190 | the number of components plus the number of accepted edges is always n |
| Kruskal.SelectNext | KruskalsAnimation.java:183-189 | one more edge is accepted and its components joined exactly when its ends lie in different components; otherwise nothing changes |
| Kruskal.SelectGrows | KruskalsAnimation.java:182-190 | scanning more edges never decreases the number accepted |
| Kruskal.CompleteScan | KruskalsAnimation.java:182-190 | over a list containing every pair i < j < n, the scan connects all vertices and accepts n-1 edges (none for n = 0) |
| Kruskal.StopsAtFirst | KruskalsAnimation.java:182 | the loop stops at the first prefix with n-1 accepted edges: no shorter prefix has that many |
| Kruskal.StopsAtUnique | KruskalsAnimation.java:182 | the stopping point of the loop is unique |
| Kruskal.PartitionStart | KruskalsAnimation.java:160-167 | the fresh tables and the identity labelling describe the same partition |
| Kruskal.PartitionCompress | KruskalsAnimation.java:203-208 | find keeps the tables describing the same partition as the labels |
| Kruskal.PartitionUnite | KruskalsAnimation.java:210-224 | union of two differently labelled vertices matches the label merge |
| Kruskal.PartitionStep | KruskalsAnimation.java:186-187 | the loop's two finds report different roots exactly when the labels differ, and then the union matches the label merge |
| Kruskal.ScanStart | KruskalsAnimation.java:149-153 | the loop invariant holds with nothing scanned, nothing accepted and fresh tables |
| Kruskal.ScanContinues | KruskalsAnimation.java:182-183 | while fewer than n-1 edges are accepted on the complete edge list, currEdge is inside the list, so the get never fails |
| Kruskal.ScanStep | KruskalsAnimation.java:183-189 | one pass of the loop body keeps the invariant, appending the edge exactly when its ends had different roots |
| Kruskal.SelectDone | KruskalsAnimation.java:182-190 | once n-1 edges are accepted there are exactly n-1, and they form a spanning tree: within range, acyclic, connecting every vertex |
| Kruskal.PartitionConnected | KruskalsAnimation.java:182-190 | when the labels show one component, every vertex has the same root in the tables |
| Kruskal.ScanDone | KruskalsAnimation.java:182-190 | at loop exit exactly n-1 edges are accepted (none for n = 0); they are acyclic and connect every vertex, and every vertex has the same find root |
| Kruskal.SortedPairs | KruskalsAnimation.java:171-179 | the sorted edge list has n(n-1)/2 edges with non-decreasing weights, within range, and contains every pair i < j < n |
| Kruskal.ScanEdge | KruskalsAnimation.java:183-189 | one pass of the loop body over the tables keeps the invariant and advances currEdge by one |
| Kruskal.ScanEdges | KruskalsAnimation.java:182-190 | the while loop stops at the first point where n-1 edges are accepted, which lies inside the list; the accepted edges are the greedy selection from that prefix; they are acyclic and spanning; every vertex ends with one root |
| Kruskal.RunKruskal | KruskalsAnimation.java:170-190 | edges are all pairs sorted stably by weight; the loop result is as ScanEdges states |
| Animation.Tick | KruskalsAnimation.java:227-233 | the counter update of draw; TickInv and TicksOneEdge state the invariant it keeps and that exactly frames frames finish one edge |
| Animation.Ticks | KruskalsAnimation.java:62-64 | the frames the timeline runs in a row; TicksEdges and WholeRun state how far they get |
| Animation.TickInv | KruskalsAnimation.java:227-233 | a frame keeps 0 <= cursor <= size and edgeFrames < frames; it changes no other field; it advances the cursor by one exactly when unpaused, incomplete and the edge's frames are used up |
| Animation.TicksIdle | KruskalsAnimation.java:227 | paused, or once complete, any number of frames changes nothing |
| Animation.TicksAdd | KruskalsAnimation.java:227-233 | a+b frames equal a frames followed by b frames |
| Animation.TicksWithinEdge | KruskalsAnimation.java:228-229 | j < frames frames into an edge, edgeFrames is j and the cursor has not moved |
| Animation.TicksOneEdge | KruskalsAnimation.java:227-233 | exactly frames unpaused frames from edgeFrames = 0 advance the cursor by one and reset edgeFrames; fewer do not advance it |
| Animation.TicksEdges | KruskalsAnimation.java:227-233 | m edges' worth of frames advance the cursor by m, stopping at the end of the list |
| Animation.TicksBelow | KruskalsAnimation.java:227-233 | before all remaining edges have had their frames, the animation is not complete |
| Animation.WholeRun | KruskalsAnimation.java:227-233 | from a reset, the tree is complete after size*frames frames and not before |
| Animation.Period | KruskalsAnimation.java:229 | the frames an edge takes; TicksOneEdge states that exactly that many unpaused frames finish one edge |
| Animation.Press | KruskalsAnimation.java:66-84 | the key handler on the playback state; PressInv, SpaceTwice and KeysJump state what each key does |
| Animation.PressInv | KruskalsAnimation.java:66-84 | every key keeps the playback invariant, the list size and the frame count |
| Animation.SpaceTwice | KruskalsAnimation.java:68-70 | SPACE only flips paused, so pressing it twice restores the state |
| Animation.KeysJump | KruskalsAnimation.java:75-82 | E shows the whole tree with nothing growing or highlighted; Q clears the drawing and restarts the first edge from zero |
| Animation.Snapshot | KruskalsAnimation.java:237-278 | what draw shows; SnapshotSpec states the drawn edges, the one growing edge and the highlighted ends |
| Animation.SnapshotSpec | KruskalsAnimation.java:237-273 | a frame draws the edges below the cursor fully; one partial edge (the one at the cursor, with edgeFrames < frames) exists exactly when incomplete, and its two ends are highlighted; when complete, nothing is highlighted |
| Animation.TickGrowsDrawing | KruskalsAnimation.java:237-242 | a frame never takes back a drawn edge |
| Animation.Count | KruskalsAnimation.java:160-182 | the vertices a count creates; FirstGetFails states for which counts the scan then fails |
| Animation.Minus1 | KruskalsAnimation.java:182 | numVertices - 1 in 32-bit arithmetic stays an int, and is below numVertices except at the smallest int, where it wraps |
| Animation.FirstGetFails | KruskalsAnimation.java:182-183 | the scan's first test sends it to edges.get(0) on an empty edge list exactly when the count is the smallest int |
| Animation.Load | KruskalsAnimation.java:141-190 | a run yields the sorted edge list and the n-1 accepted edges, with consistent union-find tables and the scan position |
| Animation.KruskalsAnimation.constructor | KruskalsAnimation.java:52-60 | start: stores the vertex count and frames, runs the algorithm, and begins playback from a reset state |
| Animation.KruskalsAnimation.Start | KruskalsAnimation.java:52-60 | start with any int count: it fails (None) exactly for the smallest int, and otherwise yields a fresh application in a valid, reset state with the given frame count and mode (random or not, which decides what N does), the sorted edges and n-1 accepted edges |
| Animation.KruskalsAnimation.RunKruskals | KruskalsAnimation.java:141-190 | a run resets edgeFrames, currEdgeDraw and paused, stores the sorted edges and the accepted tree, and keeps the class invariant |
| Animation.KruskalsAnimation.Draw | KruskalsAnimation.java:226-279 | draw moves the playback state by exactly one Tick and returns the Snapshot of the new state |
| Animation.KruskalsAnimation.KeyPressed | KruskalsAnimation.java:66-84 | N with random vertices reruns the algorithm; every other key moves the playback state as Press says and leaves the edges, the tree and the tables alone |

## Left out

- JavaFX rendering is not modelled: the pane, lines, circles, colours, stroke widths, z-order, the 60 Hz timeline and the screen bounds. A frame is the value `Frame`.
- The dialogs (`promptUser`) and `Integer.parseInt` are not modelled. The vertex count and the frame count are parameters, so a non-numeric entry is not modelled either.
- `parseFile` is not modelled: file reading and the floating-point bounding-box scaling. The model covers random mode. In file mode the program keeps the loaded vertices, and that path appears only as the `random` flag that disables N.
- Random vertex placement and the `diameter` heuristic are not modelled. Both are randomness and floating point and do not affect the algorithm.
- Graph.BuildEdges: the weight is an abstract `w(i, j)` into `int`, not the `Math.sqrt` Euclidean distance in `double`. The proofs hold for every weight function.
- Graph.SortByWeight: `List.sort` is a library TimSort. It is modelled by a stable insertion sort. A stable sort by weight has only one possible result, so the edge order is the same.
- Animation.Snapshot: the floating-point interpolation of the partial line is not modelled. The fraction is kept as the pair `elapsed`/`frames`. With `frames` = 0 the program divides 0 by 0, and that NaN is not modelled.
- Animation.Snapshot: the program finds the endpoints to highlight by exact coordinate equality. They are modelled as the endpoint indices of the growing edge. Two vertices at the same coordinates, which the program could confuse, are not modelled.
- Kruskal.RunKruskal: the model proves that the accepted edges form a spanning tree chosen greedily in weight order. It does not prove that the tree has minimum total weight.
- There is no error for too few vertices, because the code has none. With `n <= 1` the scan loop never runs and nothing is accepted; for n = 1 the make-set loop and the outer edge loop still run once. A negative count other than the smallest int behaves like zero (`Count`).
- Animation.Count: a negative count maps to zero vertices. At the smallest int the scan's test wraps and start fails; that case is modelled by `Minus1`, `FirstGetFails` and `KruskalsAnimation.Start`, not by `Count`.
- Animation.KruskalsAnimation.constructor: requires a count other than the smallest int. For that count the program's start fails at the first edges.get, and `KruskalsAnimation.Start` returns None instead of calling the constructor.
- Kruskal.RunKruskal: Java lists hold at most 2^31-1 elements, and the model does not bound the edge list that way. Counts large enough for n(n-1)/2 to pass that bound are not modelled.
- Animation.KruskalsAnimation.RunKruskals: after a run the union-find tables are kept as a `Forest` value, not as the arrays. The in-place updates during the run are modelled by `DisjointSet`.
