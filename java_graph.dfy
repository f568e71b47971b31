/**
 * The Java program's graph: reading the edge list, the edge store with its
 * queries and edge removal, and the Kahn loop of `main`.
 *
 * A Java edge is a freshly allocated two-element `Node[]` array, and
 * `ArrayList.remove(Object)` compares arrays by reference. The model gives
 * each edge its allocation number as identity, so two edges between the same
 * nodes stay distinct, while nodes compare by their text as `Node.equals`
 * does.
 */
module JavaGraph {
  import opened Wrappers
  import opened Tokens
  import opened Digraph
  import opened KahnSpec

  type JEdge = Edge<nat, string>

  /** The separators of the pattern `[, ]`. */
  const Separators: set<char> := {',', ' '}

  /**
   * How `Graph.read` classifies one line: lines starting with `#` or `%`
   * are comments, and only those.
   */
  function ParseLine(ln: string): (r: Line)
    ensures r.Comment? <==> StartsWith(ln, '#') || StartsWith(ln, '%')
    ensures r.Fields2? ==> NoSep(r.first, Separators) && NoSep(r.second, Separators)
  {
    if StartsWith(ln, '#') || StartsWith(ln, '%') then Comment
    else
      var pair := JavaSplit(ln, Separators);
      if |pair| < 2 then Malformed else Fields2(pair[0], pair[1])
  }

  /** A line `a,b` or `a b` (then anything after a further separator) gives the edge from `a` to `b`. */
  lemma {:induction false} ParseEdgeLine(a: string, c: char, b: string, rest: string)
    requires a == [] || (a[0] != '#' && a[0] != '%')
    requires NoSep(a, Separators) && NoSep(b, Separators) && c in Separators && b != ""
    requires rest == [] || rest[0] in Separators
    ensures ParseLine(a + [c] + b + rest) == Fields2(a, b)
  {
    JavaSplitFirstTwo(a, c, b, rest, Separators);
    assert a == [] ==> (a + [c] + b + rest)[0] == c;
    assert a != [] ==> (a + [c] + b + rest)[0] == a[0];
  }

  /** A line with no separator, or with nothing after its first one, has no second field. */
  lemma {:induction false} ParseShortLine(a: string, c: char)
    requires a == [] || (a[0] != '#' && a[0] != '%')
    requires NoSep(a, Separators) && c in Separators
    ensures ParseLine(a) == Malformed && ParseLine(a + [c]) == Malformed
  {
    var s := a + [c];
    assert !NoSep(s, Separators) by { assert s[|a|] == c; }
    FieldsCons(a, c, [], Separators);
    FieldsSingle([], Separators);
    assert Fields(s, Separators) == [a, []];
    assert s == [] || s[0] == c || s[0] == a[0];
  }

  /** The nodes and edges `read` has collected. */
  datatype Loaded = Loaded(nodes: set<string>, edges: seq<JEdge>)

  /** The effect of line number `i` on what `read` has collected; `Err(i)` when indexing its fields throws. */
  function AddLine(g: Loaded, ln: string, i: nat): (r: Result<Loaded, nat>)
    ensures r.Err? <==> ParseLine(ln).Malformed?
    ensures r.Err? ==> r.error == i
    ensures r.Ok? ==> g.nodes <= r.value.nodes && g.edges <= r.value.edges && |r.value.edges| <= |g.edges| + 1
  {
    match ParseLine(ln)
    case Comment => Ok(g)
    case Malformed => Err(i)
    case Fields2(a, b) =>
      if a == b then Ok(g) else Ok(Loaded(g.nodes + {a, b}, g.edges + [Edge(|g.edges|, a, b)]))
  }

  /** What `read` returns for the lines of a file, or the index of the line it fails on. */
  function Load(lines: seq<string>): (r: Result<Loaded, nat>)
    ensures r.Err? ==> r.error < |lines|
    ensures r.Ok? ==> |r.value.edges| <= |lines|
  {
    if lines == [] then Ok(Loaded({}, []))
    else
      var r := Load(lines[..|lines| - 1]);
      if r.Err? then r else AddLine(r.value, lines[|lines| - 1], |lines| - 1)
  }

  /** Every edge is numbered by its position in the list. */
  ghost predicate NumberedByPosition(es: seq<JEdge>) {
    forall k :: 0 <= k < |es| ==> es[k].id == k
  }

  ghost predicate NoSelfLoops<I(!new), N(!new)>(es: seq<Edge<I, N>>) {
    forall e :: e in es ==> e.from != e.to
  }

  /** Distinct positions hold distinct edges, even between the same nodes. */
  ghost predicate DistinctIds(es: seq<JEdge>) {
    forall i, j :: 0 <= i < j < |es| ==> es[i].id != es[j].id
  }

  /** What a successful `read` guarantees: the nodes are exactly the endpoints, there are no self-loops and edges are distinct objects. */
  ghost predicate WellRead(g: Loaded) {
    && g.nodes == Sources(g.edges) + Targets(g.edges)
    && NoSelfLoops(g.edges) && NumberedByPosition(g.edges)
  }

  /** Reading one more line keeps what `read` guarantees. */
  lemma {:induction false} AddLineWellRead(g: Loaded, ln: string, i: nat)
    requires WellRead(g)
    ensures AddLine(g, ln, i).Ok? ==> WellRead(AddLine(g, ln, i).value)
  {
    if ParseLine(ln).Fields2? && ParseLine(ln).first != ParseLine(ln).second {
      var a, b := ParseLine(ln).first, ParseLine(ln).second;
      var es := g.edges + [Edge(|g.edges|, a, b)];
      assert Sources(es) == Sources(g.edges) + {a};
      assert Targets(es) == Targets(g.edges) + {b};
    }
  }

  /** The nodes of a successful read hold every endpoint, and its edges are distinct objects. */
  lemma {:induction false} WellReadClosed(g: Loaded)
    requires WellRead(g)
    ensures Closed(g.nodes, g.edges) && DistinctIds(g.edges)
  {
    forall e | e in g.edges ensures e.from in g.nodes && e.to in g.nodes {
      assert e.from in Sources(g.edges) && e.to in Targets(g.edges);
    }
  }

  lemma {:induction false} LoadWellRead(lines: seq<string>)
    ensures Load(lines).Ok? ==> WellRead(Load(lines).value)
    ensures Load(lines).Ok? ==> Closed(Load(lines).value.nodes, Load(lines).value.edges)
    ensures Load(lines).Ok? ==> DistinctIds(Load(lines).value.edges)
    decreases |lines|
  {
    if lines != [] {
      var init := lines[..|lines| - 1];
      LoadWellRead(init);
      if Load(init).Ok? {
        AddLineWellRead(Load(init).value, lines[|lines| - 1], |lines| - 1);
      }
    }
    if Load(lines).Ok? {
      WellReadClosed(Load(lines).value);
    }
  }

  /** Removing a comment line, or a line naming one node twice, changes nothing `read` collects. */
  lemma {:induction false} LoadIgnoresLine(a: seq<string>, c: string, b: seq<string>)
    requires ParseLine(c).Comment? || (ParseLine(c).Fields2? && ParseLine(c).first == ParseLine(c).second)
    ensures Load(a + [c] + b).Ok? <==> Load(a + b).Ok?
    ensures Load(a + b).Ok? ==> Load(a + [c] + b) == Load(a + b)
    decreases |b|
  {
    if b == [] {
      assert a + [c] + b == a + [c] && (a + [c])[..|a|] == a;
      assert a + b == a;
    } else {
      var b' := b[..|b| - 1];
      LoadIgnoresLine(a, c, b');
      assert (a + [c] + b)[..|a + [c] + b| - 1] == a + [c] + b';
      assert (a + b)[..|a + b| - 1] == a + b';
      assert (a + [c] + b)[|a + [c] + b| - 1] == (a + b)[|a + b| - 1] == b[|b| - 1];
    }
  }

  /** The read fails exactly on the first line whose fields cannot be indexed. */
  lemma {:induction false} LoadFailsAt(lines: seq<string>)
    ensures Load(lines).Ok? <==> forall j {:trigger ParseLine(lines[j])} :: 0 <= j < |lines| ==> !ParseLine(lines[j]).Malformed?
    ensures Load(lines).Err? ==> ParseLine(lines[Load(lines).error]).Malformed?
    ensures Load(lines).Err? ==> forall j {:trigger ParseLine(lines[j])} :: 0 <= j < Load(lines).error ==> !ParseLine(lines[j]).Malformed?
    decreases |lines|
  {
    if lines != [] {
      var init := lines[..|lines| - 1];
      LoadFailsAt(init);
      assert forall j :: 0 <= j < |init| ==> init[j] == lines[j];
    }
  }

  lemma {:induction false} LoadErrSticks(lines: seq<string>, i: nat, more: seq<string>)
    requires Load(lines) == Err(i)
    ensures Load(lines + more) == Err(i)
    decreases |more|
  {
    if more == [] {
      assert lines + more == lines;
    } else {
      LoadErrSticks(lines, i, more[..|more| - 1]);
      assert (lines + more)[..|lines + more| - 1] == lines + more[..|more| - 1];
    }
  }

  /** The graph `read` builds and the Kahn loop consumes. */
  class Graph {
    var nodes: set<string>
    var edges: seq<JEdge>

    constructor (nodes: set<string>, edges: seq<JEdge>)
      ensures this.nodes == nodes && this.edges == edges
    {
      this.nodes := nodes;
      this.edges := edges;
    }

    /** The edges satisfying `criteria`, in list order (a stream filter). */
    function CollectEdges(criteria: JEdge -> bool): (r: seq<JEdge>)
      reads this
      ensures |r| <= |edges|
      ensures forall e :: e in r <==> e in edges && criteria(e)
    {
      Filter(edges, criteria)
    }

    /** The edge list contains an edge into `n`. */
    function HasIncomingEdges(n: string): (b: bool)
      reads this
      ensures b <==> n in Targets(edges)
    {
      exists k :: 0 <= k < |edges| && edges[k].to == n
    }

    /** The nodes without an incoming edge. */
    function CollectNodesWithoutIncoming(): (r: set<string>)
      reads this
      ensures forall n :: n in r <==> n in nodes && !HasIncomingEdges(n)
      ensures r == nodes - Targets(edges)
    {
      var withIncoming := set e | e in edges :: e.to;
      set n | n in nodes && n !in withIncoming
    }

    /** `ArrayList.remove(Object)`: drops the first edge equal to `e`, if any. */
    method RemoveEdge(e: JEdge)
      modifies this
      ensures nodes == old(nodes)
      ensures edges == RemoveFirst(old(edges), e)
    {
      edges := RemoveFirst(edges, e);
    }
  }

  /** With distinct edge objects, removing one deletes exactly that one and keeps its parallel copies. */
  lemma {:induction false} RemoveOneInstance(es: seq<JEdge>, i: nat)
    requires DistinctIds(es) && i < |es|
    ensures RemoveFirst(es, es[i]) == es[..i] + es[i + 1..]
    ensures forall e :: e in es && e.id != es[i].id ==> e in RemoveFirst(es, es[i])
  {
    assert es[i] !in es[..i];
    RemoveFirstAt(es, es[i], i);
    forall e | e in es && e.id != es[i].id ensures e in es[..i] + es[i + 1..] {
      var k :| 0 <= k < |es| && es[k] == e;
      if k < i { assert es[..i][k] == e; } else { assert es[i + 1..][k - i - 1] == e; }
    }
  }

  /** `Graph.read` over the lines of a file. */
  method Read(lines: seq<string>) returns (r: Result<Graph, nat>)
    ensures r.Err? ==> Load(lines) == Err(r.error)
    ensures r.Ok? ==> Load(lines) == Ok(Loaded(r.value.nodes, r.value.edges))
    ensures r.Ok? ==> fresh(r.value)
  {
    var nodes: set<string> := {};
    var edges: seq<JEdge> := [];
    var i := 0;
    while i < |lines|
      invariant 0 <= i <= |lines|
      invariant Load(lines[..i]) == Ok(Loaded(nodes, edges))
    {
      var ln := lines[i];
      assert lines[..i + 1][..i] == lines[..i];
      if !StartsWith(ln, '#') && !StartsWith(ln, '%') {
        var pair := JavaSplit(ln, Separators);
        if |pair| < 2 {
          LoadErrSticks(lines[..i + 1], i, lines[i + 1..]);
          assert lines[..i + 1] + lines[i + 1..] == lines;
          return Err(i);
        }
        var from, to := pair[0], pair[1];
        if from != to {
          nodes := nodes + {from, to};
          edges := edges + [Edge(|edges|, from, to)];
        }
      }
      i := i + 1;
    }
    assert lines[..i] == lines;
    var g := new Graph(nodes, edges);
    return Ok(g);
  }

  /**
   * The loop of `main`: repeatedly takes some node of the frontier `S` (the
   * iteration order of a hash set is not modelled, so any member may come
   * first), appends it to `L`, and removes its outgoing edges, adding each
   * target that loses its last incoming edge to `S`.
   */
  method Kahn(G: Graph) returns (L: seq<string>)
    requires Closed(G.nodes, G.edges)
    modifies G
    ensures G.nodes == old(G.nodes)
    ensures NoDup(L) && Elems(L) <= G.nodes && |L| <= |G.nodes|
    ensures Ordered(L, old(G.edges))
    ensures G.edges == Outside(old(G.edges), Elems(L))
    ensures G.edges == [] ==> IsTopologicalOrder(L, G.nodes, old(G.edges))
    ensures G.edges != [] ==> HasCycle(G.edges)
    ensures (G.edges == []) == !HasCycle(old(G.edges))
  {
    ghost var V, E0 := G.nodes, G.edges;
    var S := G.CollectNodesWithoutIncoming();
    KahnStart(V, E0);
    L := [];
    while |S| > 0
      invariant G.nodes == V
      invariant Outer(V, E0, G.edges, S, L)
      decreases V - Elems(L)
    {
      var n :| n in S;
      KahnEmit(V, E0, G.edges, S, L, n);
      ElemsAppend(L, n);
      S := S - {n};
      L := L + [n];
      ghost var start := G.edges;
      var leavesN := (e: JEdge) => e.from == n;
      var fromNToM := G.CollectEdges(leavesN);
      FilterFrom(G.edges, leavesN, n);
      var k := 0;
      while k < |fromNToM|
        invariant G.nodes == V
        invariant fromNToM == From(start, n)
        invariant Inner(V, E0, start, n, k, G.edges, S, L)
      {
        var e := fromNToM[k];
        var m := e.to;
        KahnRemove(V, E0, start, n, k, G.edges, S, L);
        G.RemoveEdge(e);
        if !G.HasIncomingEdges(m) {
          S := S + {m};
        }
        k := k + 1;
      }
      KahnInnerDone(V, E0, start, n, k, G.edges, S, L);
    }
    KahnDone(V, E0, G.edges, L);
  }
}
