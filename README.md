# Kahn topological sort of an edge list, in three languages

The repository holds one small program written three times: `graph_kahn.java`,
`graph_kahn.rs` and `graph_kahn.py`. Each reads a directed graph as a text
file with one edge `from to` per line, and each orders its nodes with Kahn's
algorithm:

1. Start the frontier `S` with the nodes that have no incoming edge.
2. Repeatedly take a node `n` out of `S` and append it to the order `L`.
3. Remove every edge leaving `n`. A target left without incoming edges joins `S`.

If edges remain at the end, the graph has a cycle. When fewer than 100 remain,
the program prints them. When 100 or more remain, the Java and Rust versions
print only their count and the count of nodes, followed by an example cycle:
Java finds one with a backtracking search (`findCycle` / `findBacktrack`), and
Rust prints an empty placeholder. The Python script always prints the
remaining edges.

The model has one Dafny module per source unit:

- `Tokens`: splitting a line into fields. It covers Java `split("[, ]")`, Rust
  `split` on `,` or space, and Python `strip().split(",")` with Python's
  `isspace`.
- `Digraph`: edges, filtering, removing the first equal element, cycles and
  topological orders. An edge is `Edge(id, from, to)`. `id` is what the
  language's list removal compares:
  - Java: the allocation number of the `Node[]` array, because arrays compare
    by reference;
  - Rust: nothing, because edges compare by their endpoints;
  - Python: the whole field list, because lists compare by content.
- `KahnSpec`: the Kahn loop invariants, shared by the three programs, and the
  lemmas that carry them step by step. At the end, either the order is
  topological or the remaining edges contain a cycle, and edges remain exactly
  when the input has a cycle.
- `JavaGraph`, `JavaCycle`, `JavaMain`:
  - `Graph.read`, the edge-store queries and `remove_edge` (a class with
    `nodes` and `edges` fields);
  - the Kahn loop of `main`, as a method with the source's two nested loops;
  - the adjacency map and the backtracking cycle search, proved exhaustive:
    on a graph with a cycle it always returns a simple cycle;
  - the report of `main`.
- `RustGraph`: `Graph::read` with `register_node`, where names are numbered
  densely `0 .. n-1`. It also covers the queries, `remove_edge`, the Kahn loop
  and the report of `main`.
- `PyGraph`: the `Graph` class and the module-level Kahn loop, including the
  `ValueError` of `_unused, m = e` on an edge with other than two fields.
- `Scenarios`: small inputs worked through the Java model:
  - a triangle, whose only simple cycles are its rotations and from which
    nothing can be emitted;
  - the chain `1 2 3` with the shortcut `1 3`, which is acyclic and whose only order is `1 2 3`;
  - parallel edges, which stay distinct;
  - an empty file.

Reading a file is modelled on its lines, a `seq<string>`. A read that throws
or panics on line `i` is `Err(i)`.

### Behaviour worth knowing

- There is no dual incoming/outgoing index. Each program keeps one flat edge
  list and removes edges by linear search.
- The cycle search does not push its start node on `visited`.
- The Python script keeps self-loops, and it does not treat `%` as a comment
  marker.
- The Rust program registers both names of a self-loop line as nodes.
- Blank or one-field lines fail, as the code does: an index error or panic.
  A field list longer than two is read by Java and Rust from its first two
  fields. Python stores it, and the Kahn loop raises `ValueError` when it reaches
  that edge. With the lines `a,b`, `b,a`, `a,c,x` the edge `a c x` is never
  reached, because `a` never enters the frontier, so the script reports the
  cycle instead.

## Model

| member | source | states |
|---|---|---|
| Tokens.StartsWith | graph_kahn.java:137 | the line is non-empty and its first character is the given one, as `startsWith` and `starts_with` with a one-character prefix |
| Tokens.IsSpace | graph_kahn.py:13 | the code points Python's `str.isspace` accepts: tab to carriage return, the file/group/record/unit separators, space, NEL, no-break space, and the Unicode spaces and line/paragraph separators |
| Tokens.Fields | graph_kahn.rs:64 | splitting gives at least one field, and no field contains a separator |
| Tokens.FieldsCount | graph_kahn.rs:64 | splitting gives one field more than there are separators, so empty fields are kept |
| Tokens.JavaSplit | graph_kahn.java:138 | Java's split gives no more fields than the plain split, and no field contains a separator |
| Tokens.Strip | graph_kahn.py:13 | `strip` never lengthens the string |
| Tokens.StripEnds | graph_kahn.py:13 | the stripped string neither starts nor ends with whitespace; it is empty exactly when the string is all whitespace, and unchanged when the string has no whitespace at its ends |
| Tokens.FieldsSingle | graph_kahn.py:13 | a string without a separator is one single field |
| Tokens.FieldsCons | graph_kahn.rs:64 | a separator-free prefix followed by a separator splits off as the first field |
| Tokens.FieldsFirstTwo | graph_kahn.rs:64-66 | a line `a c b rest` with separator `c` has `a` and `b` as its first two fields, `b` possibly empty |
| Tokens.FieldsOfJoin | graph_kahn.py:13 | splitting the comma-join of separator-free fields gives back exactly those fields |
| Tokens.JoinOfFields | graph_kahn.py:13 | joining the fields of a one-separator split rebuilds the original string |
| Tokens.DropTrailingEmpty | graph_kahn.java:138 | Java's split keeps a prefix of the plain fields, drops only empty trailing fields, and ends on a non-empty field |
| Tokens.JavaSplitFirstTwo | graph_kahn.java:138-140 | when the second field is not empty, Java's split keeps the first two fields `a` and `b` of a line `a c b rest` |
| Tokens.TrimStart | graph_kahn.py:13 | the result is a suffix of the string, everything dropped is whitespace, and the result does not start with whitespace |
| Tokens.TrimEnd | graph_kahn.py:13 | the result is a prefix of the string, everything dropped is whitespace, and the result does not end with whitespace |
| Tokens.StripPadding | graph_kahn.py:13 | `strip` removes exactly the whitespace padding around a text with no whitespace at its ends |
| Digraph.Filter | graph_kahn.java:165-167 | the result holds exactly the elements satisfying the criterion and is no longer than the input |
| Digraph.FilterCounts | graph_kahn.rs:98-100 | each value is kept as often as it occurs if it passes the criterion, and dropped otherwise |
| Digraph.FilterConcat | graph_kahn.py:18-23 | filtering a concatenation is the concatenation of the filtered parts |
| Digraph.FilterSnoc | graph_kahn.py:20-22 | filtering a list with one more element appends that element exactly when it passes |
| Digraph.From | graph_kahn.java:34 | the edges leaving `n` are exactly the listed edges whose source is `n` |
| Digraph.FilterFrom | graph_kahn.java:34 | collecting with the criterion "source is `n`" gives the edges leaving `n`, in list order |
| Digraph.Into | graph_kahn.py:25-27 | the edges into `n`: an edge is in the list exactly when it is an edge of the graph pointing to `n` |
| Digraph.IntoCounts | graph_kahn.py:25-29 | the edges into `n` keep every copy of each such edge and no other edge |
| Digraph.FilterSame | graph_kahn.py:18-23 | two criteria that select the same elements collect the same list |
| Digraph.FilterInto | graph_kahn.py:25-27 | collecting with the criterion "target is `n`" gives the edges into `n`, in list order |
| Digraph.Targets | graph_kahn.java:170 | the set of nodes that some edge points to, as `nodes_with_incoming` collects it |
| Digraph.Outside | graph_kahn.java:44 | the edges kept are exactly those whose source is not in the given set |
| Digraph.OutsideGrow | graph_kahn.java:34-41 | dropping the edges out of `D`, then those out of `n`, drops those out of `D` and `n` |
| Digraph.Position | graph_kahn.rs:112 | `position` finds an index exactly when the element is present, and that index is its first occurrence |
| Digraph.RemoveFirst | graph_kahn.java:178-180 | removal shortens the list by one when the element is present and leaves it unchanged otherwise |
| Digraph.RemoveFirstCounts | graph_kahn.py:45 | `list.remove` takes exactly one copy of the element out of the multiset of edges |
| Digraph.RemoveFirstAt | graph_kahn.rs:111-115 | removing at the first position where the element occurs is the same as removing the first equal element |
| Digraph.RemoveFirstAppended | graph_kahn.java:178-180 | removing an element just appended, and not present before, restores the list |
| Digraph.RemoveFirstTargets | graph_kahn.java:37-40 | removing an edge can take away incoming edges only from that edge's target |
| Digraph.SelfLoopCycle | graph_kahn.py:14 | an edge from a node to itself is a cycle |
| Digraph.CycleOfSubset | graph_kahn.java:44-52 | a cycle of some of the edges is a cycle of the whole list |
| Digraph.CycleInSuperset | graph_kahn.java:44-52 | if some of the edges have a cycle, so does the whole list |
| Digraph.DistinctBound | graph_kahn.java:27-31 | a list of distinct nodes is no longer than the node set |
| Digraph.CycleForbidsOrder | graph_kahn.java:44-45 | a graph with a cycle has no topological order |
| Digraph.ResidualHasCycle | graph_kahn.java:44-45 | a nonempty edge list in which every source also has an incoming edge contains a cycle |
| KahnSpec.SkipFromNone | graph_kahn.java:34 | skipping no edges out of `n` leaves the list as it was |
| KahnSpec.SkipFromStep | graph_kahn.java:35-37 | the next collected edge out of `n` is still present, and removing it skips one more edge out of `n` |
| KahnSpec.SkipFromAll | graph_kahn.java:35-41 | after all collected edges out of `n` are removed, exactly the edges leaving `n` are gone |
| KahnSpec.OrderedHead | graph_kahn.java:20 | the first node emitted has no incoming edge in the input |
| KahnSpec.KahnStart | graph_kahn.java:20 | the initial frontier (nodes without incoming edges) establishes the outer loop invariant |
| KahnSpec.KahnEmit | graph_kahn.java:29-31 | the picked node is new to `L`, and emitting it establishes the inner loop invariant |
| KahnSpec.KahnRemove | graph_kahn.java:35-40 | the edge to remove is present and points to a node; after removal, adding its target exactly when no incoming edge is left keeps the invariant |
| KahnSpec.KahnInnerDone | graph_kahn.java:35-41 | once all edges out of `n` are removed, the outer invariant holds again |
| KahnSpec.KahnDone | graph_kahn.java:44-56 | with an empty frontier:<br>- no edge left means `L` is a topological order of all nodes;<br>- edges left contain a cycle;<br>- edges remain exactly when the input has a cycle |
| JavaGraph.ParseLine | graph_kahn.java:137-140 | a line is a comment exactly when it starts with `#` or `%`; the two names of an edge line contain no separator |
| JavaGraph.AddLine | graph_kahn.java:137-148 | a line throws exactly when it is malformed, and then the failure names this line; otherwise nodes and edges only grow, by at most one edge |
| JavaGraph.Load | graph_kahn.java:127-162 | a failure names one of the lines, and there is at most one edge per line |
| JavaGraph.LoadFailsAt | graph_kahn.java:137-140 | the read succeeds exactly when no line is malformed; otherwise it fails on a malformed line, and every earlier line is well formed |
| JavaGraph.ParseEdgeLine | graph_kahn.java:137-140 | a non-comment line `a,b` or `a b` (then anything after a further separator) gives the edge from `a` to `b` |
| JavaGraph.ParseShortLine | graph_kahn.java:138-140 | a line with no separator, or nothing after its first one, has no second field, so `pair[1]` throws |
| JavaGraph.AddLineWellRead | graph_kahn.java:137-148 | reading one more line keeps the nodes exactly the endpoints, keeps self-loops out and numbers the new edge by its position |
| JavaGraph.WellReadClosed | graph_kahn.java:141-148 | after a successful read every edge joins two nodes and no two edges share a number |
| JavaGraph.LoadWellRead | graph_kahn.java:141-148 | after reading:<br>- the nodes are exactly the endpoints of the edges;<br>- there are no self-loops;<br>- the edges are distinct objects in reading order;<br>- every edge joins two nodes |
| JavaGraph.LoadIgnoresLine | graph_kahn.java:137-144 | inserting a comment or self-loop line anywhere changes neither the success of reading nor what is read |
| JavaGraph.LoadErrSticks | graph_kahn.java:138-140 | once a line throws, no later line can make the read succeed |
| JavaGraph.Graph.constructor | graph_kahn.java:157-161 | the graph holds the nodes and edges it was built from |
| JavaGraph.Graph.CollectEdges | graph_kahn.java:165-167 | the result holds exactly the edges satisfying the criterion and is no longer than the edge list |
| JavaGraph.Graph.HasIncomingEdges | graph_kahn.java:174-176 | true exactly when some edge points to `n` |
| JavaGraph.Graph.CollectNodesWithoutIncoming | graph_kahn.java:169-172 | exactly the nodes that no edge points to |
| JavaGraph.Graph.RemoveEdge | graph_kahn.java:178-180 | drops the first edge identical to `e`, and nothing else changes |
| JavaGraph.RemoveOneInstance | graph_kahn.java:145 | with distinct edge objects, removing one deletes exactly that position and keeps every parallel copy |
| JavaGraph.Read | graph_kahn.java:127-162 | the loop builds exactly the graph of `Load`, or fails on the line `Load` fails on |
| JavaGraph.Kahn | graph_kahn.java:20-42 | Kahn's loop:<br>- emits distinct nodes, each after all its predecessors;<br>- the edges left are those not leaving an emitted node;<br>- no edge left means a topological order of all nodes;<br>- edges left contain a cycle, and remain exactly when the input has one |
| JavaCycle.SuccOfEdges | graph_kahn.java:61-63 | the successor list built for `u` holds exactly the targets of edges from `u`, and is empty when `u` is no source |
| JavaCycle.BuildMapRepr | graph_kahn.java:60-63 | the map's keys are the sources; each entry lists the targets in edge order, so the map has an arc exactly where an edge exists |
| JavaCycle.NoClosingWalk | graph_kahn.java:90-102 | if the search from every successor failed, no walk from `current` revisits the stack |
| JavaCycle.FindBacktrack | graph_kahn.java:84-103 | if the search fails, `visited` is restored and no walk from `current` closes on it. If it succeeds, `visited` has been extended by a walk from `current` whose last node occurs earlier |
| JavaCycle.CycleWalkCloses | graph_kahn.java:67-69 | every cycle gives a walk from its first node that closes on an empty stack |
| JavaCycle.StackSuffix | graph_kahn.java:71-72 | `visited.subList(visited.indexOf(last), visited.size()-1)`: a stretch of the stack ending just below its top entry, and starting with that entry when it is not empty |
| JavaCycle.CycleOfStack | graph_kahn.java:71-72 | the stack from the first occurrence of its last node, without that last entry, is a closed walk |
| JavaCycle.StackCycle | graph_kahn.java:71-73 | after a successful search, the stack from the first occurrence of its top entry (that entry excluded) is a simple cycle of the edges, so the edges have a cycle |
| JavaCycle.CycleGivesClosingWalk | graph_kahn.java:67-69 | a graph with a cycle has an edge source from which some walk closes on an empty stack |
| JavaCycle.NoClosingNoCycle | graph_kahn.java:67-78 | if the search fails from every edge source, the edges have no cycle |
| JavaCycle.FindCycle | graph_kahn.java:59-82 | on edges with a cycle it returns a simple cycle of them; on acyclic edges it returns the empty list |
| JavaMain.Run | graph_kahn.java:11-57 | the report:<br>- read fails exactly when `Load` fails;<br>- sorted exactly when the graph is acyclic, with a topological order;<br>- otherwise the remaining edges contain a cycle;<br>- an example cycle is searched for exactly when 100 or more edges remain, and it is a simple cycle of the remaining edges, and so of the graph |
| PyGraph.ParseLine | graph_kahn.py:11-16 | a line is skipped exactly when it starts with `#`; a parsed pair has at least two fields, none containing a comma |
| PyGraph.EdgeOf | graph_kahn.py:13-14 | the stored edge is the field list itself, running from its first to its second field |
| PyGraph.AddLine | graph_kahn.py:11-16 | a line raises exactly when its fields cannot be indexed, and then the failure names this line; otherwise the edges only grow, by at most one |
| PyGraph.Load | graph_kahn.py:8-16 | a failure names one of the lines, and there is at most one edge per line |
| PyGraph.LoadFailsAt | graph_kahn.py:11-16 | the read succeeds exactly when no line raises; otherwise it fails on a line that raises, and no earlier line does |
| PyGraph.ReadAdvance | graph_kahn.py:10-16 | after the lines before line `i`, that line ends the read, is skipped, or appends its edge and adds its two endpoints |
| PyGraph.ParseFieldsLine | graph_kahn.py:13-14 | a line of two or more comma-separated fields, padded only by whitespace and the line break, is read as exactly those fields |
| PyGraph.ParseNoComma | graph_kahn.py:13-16 | a non-comment line whose stripped text has no comma makes `pair[1]` raise |
| PyGraph.LoadFieldsAgree | graph_kahn.py:14-16 | every stored edge is the field list of its line, running from its first to its second field |
| PyGraph.LoadErrSticks | graph_kahn.py:10-16 | once a line raises, no later line can make the read succeed |
| PyGraph.LoadStep | graph_kahn.py:10-16 | reading one more line applies that line's effect, and a line that raises ends the read with its index |
| PyGraph.Graph.constructor | graph_kahn.py:4-6 | a new graph has no nodes and no edges |
| PyGraph.Graph.ReadLine | graph_kahn.py:11-16 | one pass of the loop: raises exactly when `ParseLine` says so, changes nothing on a comment, and otherwise appends the line's edge and adds its two endpoints |
| PyGraph.Graph.Read | graph_kahn.py:8-16 | `read` appends exactly the edges of `Load` and adds their endpoints, or reports the line that raises |
| PyGraph.Graph.CollectEdges | graph_kahn.py:18-23 | the loop returns the edges satisfying the criterion, in list order |
| PyGraph.Graph.IncomingEdges | graph_kahn.py:25-29 | the result is the list of edges into `n`, every copy in list order (`Into`, whose copies `IntoCounts` counts), and it is empty exactly when no edge points to `n` |
| PyGraph.InitialFrontier | graph_kahn.py:36 | exactly the nodes without incoming edges |
| PyGraph.CollectedEdge | graph_kahn.py:42-44 | each edge collected out of `n` is an edge of the graph read, and its second field is its target |
| PyGraph.Kahn | graph_kahn.py:35-48 | the loop:<br>- fails only on an edge of the input with other than two fields, and cannot fail when every edge has two;<br>- otherwise it has the same guarantees as the Java loop |
| PyGraph.Run | graph_kahn.py:31-54 | the report:<br>- read fails exactly when `Load` fails;<br>- an unpack failure names a stored edge of other than two fields;<br>- when every edge has two fields there is no unpack failure, and the script sorts exactly when the graph is acyclic;<br>- a sorted report is a topological order of the nodes;<br>- otherwise the remaining edges, and the input, contain a cycle |
| PyGraph.SelfLoopLine | graph_kahn.py:13-16 | a read line `a,a` leaves a self-loop, so the graph has a cycle and cannot be sorted |
| PyGraph.LoadedLine | graph_kahn.py:13-14 | every line read as an edge contributes its edge to the stored list |
| RustGraph.ParseLine | graph_kahn.rs:63-66 | a line is a comment exactly when it starts with `#` or `%`; the two names of an edge line contain no separator |
| RustGraph.ParseEdgeLine | graph_kahn.rs:63-66 | a non-comment line `a c b rest` gives the names `a` and `b`, even when `b` is empty |
| RustGraph.ParseShortLine | graph_kahn.rs:64-66 | a line without a separator has no second field, so `pair[1]` panics |
| RustGraph.Intern | graph_kahn.rs:85-95 | a known name keeps its number; a new name gets the next number; other entries are unchanged and numbering stays dense |
| RustGraph.RegisterNode | graph_kahn.rs:85-95 | returns the number `Intern` gives the name, and the updated map |
| RustGraph.DenseInjective | graph_kahn.rs:85-95 | in a dense numbering two names share a number only if they are the same name |
| RustGraph.InjectiveValues | graph_kahn.rs:80 | a numbering that gives no two names the same number uses as many numbers as it has names |
| RustGraph.DenseValues | graph_kahn.rs:80 | the node list holds exactly the numbers `0 .. n-1` for `n` distinct names |
| RustGraph.AddLine | graph_kahn.rs:63-71 | a line panics exactly when it is malformed, and then the failure names this line; otherwise the numbered names and the edges only grow |
| RustGraph.AddPair | graph_kahn.rs:65-71 | both names become numbered, every earlier number is kept, and at most one edge is appended |
| RustGraph.Load | graph_kahn.rs:54-83 | a failure names one of the lines, and there is at most one edge per line |
| RustGraph.LoadFailsAt | graph_kahn.rs:63-66 | the read succeeds exactly when no line is malformed; otherwise it fails on a malformed line, and every earlier line is well formed |
| RustGraph.Pairs | graph_kahn.rs:61-66 | the name pairs of the lines: at most one per line, and a failure names one of the lines |
| RustGraph.Encode | graph_kahn.rs:65-71 | the encoded edges are no more than the pairs, and join numbers the map gives to names |
| RustGraph.LoadErrSticks | graph_kahn.rs:64-66 | once a line panics, no later line can make the read succeed |
| RustGraph.LoadStep | graph_kahn.rs:61-78 | reading one more line applies that line's effect, and a line that panics ends the read with its index |
| RustGraph.AddPairDense | graph_kahn.rs:65-66 | registering both names of a line keeps the numbering dense |
| RustGraph.AddPairNames | graph_kahn.rs:65-66 | after a line, the numbered names are those of all pairs read so far, self-loops included |
| RustGraph.AddPairEdges | graph_kahn.rs:65-71 | after a line, the edges are the encoding of all pairs read so far |
| RustGraph.LoadPairsAgree | graph_kahn.rs:61-78 | the read fails exactly when the pair list fails, and on the same line |
| RustGraph.LoadDense | graph_kahn.rs:55-95 | the numbering built by the read is dense |
| RustGraph.LoadNames | graph_kahn.rs:65-66 | the numbered names are exactly the names on the lines read |
| RustGraph.LoadEdges | graph_kahn.rs:67-71 | the edges are the numbered non-self-loop pairs, in line order |
| RustGraph.LoadEncodes | graph_kahn.rs:54-83 | the read succeeds exactly when every line has two fields; then the numbering is dense over the names read, and the edges encode the pairs |
| RustGraph.EncodeClosed | graph_kahn.rs:67-71 | every encoded edge joins two numbered nodes, and none is a self-loop when the numbering is dense |
| RustGraph.LoadWellFormed | graph_kahn.rs:54-83 | after reading, the nodes are `0 .. n-1`, every edge joins two of them, and no edge is a self-loop |
| RustGraph.Graph.constructor | graph_kahn.rs:79-82 | the graph holds the nodes and edges it was built from |
| RustGraph.Graph.CollectEdges | graph_kahn.rs:98-100 | the result holds exactly the edges satisfying the criterion and is no longer than the edge list |
| RustGraph.Graph.HasIncomingEdges | graph_kahn.rs:107-109 | true exactly when some edge points to `n` |
| RustGraph.Graph.CollectNodesWithoutIncoming | graph_kahn.rs:102-105 | exactly the nodes that no edge points to |
| RustGraph.Graph.RemoveEdge | graph_kahn.rs:111-115 | drops the first edge equal to `e` by endpoints and reports whether one was present; nothing else changes |
| RustGraph.Read | graph_kahn.rs:54-83 | the loop builds exactly the numbering and edges of `Load`, or fails on the line `Load` fails on |
| RustGraph.Kahn | graph_kahn.rs:133-156 | the same guarantees as the Java loop, over node numbers |
| RustGraph.Run | graph_kahn.rs:123-170 | the report:<br>- read fails exactly when `Load` fails;<br>- sorted exactly when acyclic, with an order of all numbers `0 .. n-1`;<br>- otherwise the remaining edges contain a cycle, and the example is the empty placeholder exactly when 100 or more edges remain |
| Scenarios.DigitLines | graph_kahn.java:137-140 | a line `u v` of one-character names reads as the edge from `u` to `v` |
| Scenarios.LoadPrefix | graph_kahn.java:133-155 | reading one more line applies that line's effect to what was read so far |
| Scenarios.LoadEdgeLine | graph_kahn.java:137-148 | a line `u v` naming two different one-character nodes adds both nodes and an edge numbered by the count of earlier edges |
| Scenarios.ChainPrefix | graph_kahn.java:127-162 | a file starting with the lines `1 2`, `2 3` has read two numbered edges over the nodes 1, 2, 3 after them |
| Scenarios.TriangleLoads | graph_kahn.java:127-162 | the lines `1 2`, `2 3`, `3 1` read as three distinct edges over the nodes 1, 2, 3 |
| Scenarios.ShortcutLoads | graph_kahn.java:127-162 | the lines `1 2`, `2 3`, `1 3` read as three distinct edges over the nodes 1, 2, 3 |
| Scenarios.TriangleIsCyclic | graph_kahn.java:44-45 | `1 2 3` is a cycle of the triangle, which therefore has no topological order |
| Scenarios.TriangleKeepsAllEdges | graph_kahn.java:20-42 | no node of the triangle can be emitted, so all three edges remain |
| Scenarios.TriangleStep | graph_kahn.java:90-96 | along a cycle of the triangle each node is followed by its only successor |
| Scenarios.TriangleRotation | graph_kahn.java:59-82 | each of the three rotations of `1 2 3` is a simple cycle of the triangle |
| Scenarios.TriangleCycleIsRotation | graph_kahn.java:59-82 | every simple cycle of the triangle is one of the three rotations of `1 2 3` |
| Scenarios.TriangleCycles | graph_kahn.java:59-82 | a sequence is a simple cycle of the triangle exactly when it is one of the three rotations of `1 2 3`, so these are all that `findCycle` can return |
| Scenarios.ShortcutOrder | graph_kahn.java:44-56 | the graph `1 2`, `2 3`, `1 3` has no cycle, and a sequence is a topological order of it exactly when it is `1 2 3`, so the sort succeeds with that order |
| Scenarios.ParallelEdgesLoad | graph_kahn.java:145-148 | two equal lines give two edges, numbered apart |
| Scenarios.ParallelEdgesRemove | graph_kahn.java:178-180 | removing the first of two parallel edges leaves the second |
| Scenarios.EmptyFile | graph_kahn.java:127-162 | an empty file gives no nodes and no edges, and the empty order is its only order |

## Left out

- File opening, reading and closing, and all console output: the model takes the file as its list of lines, and returns the report it would print.
- The timestamps of `ts()` in Java and of `tstamp.rs`, and the progress counters `i` and `L.size() % 1000`: they only feed log lines.
- JavaMain.Run: `Graph.dump` (graph_kahn.java:64, 182-198) is not modelled, and it has two effects on the run that the model does not capture. First, it sorts each successor list of the adjacency map in place by `numId` (graph_kahn.java:187-188), so `findBacktrack` walks the successors in numeric order, not in edge order as `BuildMapRepr` lists them. The proved guarantee of `FindCycle` depends only on which arcs exist, so it holds for either order, but the cycle found may differ. Second, `numId` is `new Integer(n)` (graph_kahn.java:118). It throws `NumberFormatException` on a name that is not a decimal integer, and only `IOException` is caught (graph_kahn.java:195). So when 100 or more edges remain and the dump file opens, `main` can abort with a non-integer name, where the model returns `Cyclic(…, Some(cycle))`. The YAML file itself is diagnostics only.
- `dltree.rs` is not part of this model: it is no part of the sort.
- Hash-set and hash-map iteration order: the frontier pick is an arbitrary element of `S`, so every proved property holds for each possible pick.
- Rust `nodes` is a `Vec<usize>` filled from a hash map; the model keeps it as a set, so its order is not modelled (its contents are: `DenseValues`).
- The Python `read` appends the field list and adds `pair[0]` before `pair[1]` raises. The model stops at the error and does not keep that partial state, since the script dies there.
- Python's `ln[0]` on an empty string is modelled as a failure, though `readlines` never yields an empty line.
- Python `isspace` is modelled by its code-point list; other Unicode behaviour of `strip` (and of the other languages' string handling) is not modelled.
- Java `String`/`Node` hashing, and the stack depth of the recursive cycle search (a deep graph can overflow the Java stack).
- JavaGraph.Read: Java reports no line number for the failed `pair[1]` access; the model's `Err(i)` names the line only to identify the failure.
- RustGraph.Graph.RemoveEdge: for an absent edge `unwrap` panics, while the model returns `false` and keeps the edges. The Kahn loop only removes edges it has just collected and that are still present (`KahnSpec.KahnRemove`), so the panic cannot occur there.
- RustGraph.Run: the example cycle is the empty placeholder the program prints, not a cycle.
- JavaCycle.FindCycle: the check that throws when `visited` is not empty after a failed start is proved never to fire; the exception path is not modelled.
