/**
 * The Rust program: reading the edge list while numbering node names densely
 * (`register_node`), the graph of node numbers with its queries and edge
 * removal, and the Kahn loop of `main`.
 *
 * A Rust edge is a pair of node numbers compared by value, so parallel edges
 * between the same nodes are equal and `remove_edge` takes out the first of
 * them.
 */
module RustGraph {
  import opened Wrappers
  import opened Tokens
  import opened Digraph
  import opened KahnSpec

  type REdge = Edge<(), nat>
  type Indices = map<string, nat>

  /** The separators of `split(|c| c == ',' || c == ' ')`. */
  const Separators: set<char> := {',', ' '}

  /** How `Graph::read` classifies one line; the split keeps empty fields, and `pair[1]` panics on a line with one field. */
  function ParseLine(ln: string): (r: Line)
    ensures r.Comment? <==> StartsWith(ln, '#') || StartsWith(ln, '%')
    ensures r.Fields2? ==> NoSep(r.first, Separators) && NoSep(r.second, Separators)
  {
    if StartsWith(ln, '#') || StartsWith(ln, '%') then Comment
    else
      var pair := Fields(ln, Separators);
      if |pair| < 2 then Malformed else Fields2(pair[0], pair[1])
  }

  /** The first two fields of a line name the edge, empty ones included. */
  lemma {:induction false} ParseEdgeLine(a: string, c: char, b: string, rest: string)
    requires a == [] || (a[0] != '#' && a[0] != '%')
    requires NoSep(a, Separators) && NoSep(b, Separators) && c in Separators
    requires rest == [] || rest[0] in Separators
    ensures ParseLine(a + [c] + b + rest) == Fields2(a, b)
  {
    FieldsFirstTwo(a, c, b, rest, Separators);
    assert a == [] ==> (a + [c] + b + rest)[0] == c;
    assert a != [] ==> (a + [c] + b + rest)[0] == a[0];
  }

  /** A line without separator panics. */
  lemma {:induction false} ParseShortLine(a: string)
    requires a == [] || (a[0] != '#' && a[0] != '%')
    requires NoSep(a, Separators)
    ensures ParseLine(a) == Malformed
  {
    FieldsSingle(a, Separators);
  }

  // ---------------------------------------------------------------- node numbering

  /** The names are numbered `0 .. |m| - 1`, each number used once. */
  ghost predicate Dense(m: Indices) {
    && (forall k :: k in m ==> m[k] < |m|)
    && (forall j, k :: j in m && k in m && j != k ==> m[j] != m[k])
  }

  /** The numbering after registering `n`: unchanged if `n` has a number, else `n` gets the next one. */
  function Intern(m: Indices, n: string): (r: Indices)
    ensures n in r && r.Keys == m.Keys + {n}
    ensures forall k :: k in m ==> r[k] == m[k]
    ensures n !in m ==> r[n] == |m| && |r| == |m| + 1
    ensures Dense(m) ==> Dense(r)
  {
    if n in m then m
    else
      assert m[n := |m|].Keys == m.Keys + {n};
      m[n := |m|]
  }

  /** `register_node`. */
  method RegisterNode(n: string, nodeIndices: Indices) returns (index: nat, updated: Indices)
    ensures updated == Intern(nodeIndices, n) && index == updated[n]
  {
    if n in nodeIndices {
      return nodeIndices[n], nodeIndices;
    }
    var newIndex := |nodeIndices|;
    updated := nodeIndices[n := newIndex];
    return newIndex, updated;
  }

  /** In a dense numbering two names share a number only if they are the same name. */
  lemma {:induction false} DenseInjective(m: Indices, a: string, b: string)
    requires Dense(m) && a in m && b in m
    ensures m[a] == m[b] <==> a == b
  {
  }

  /** The numbers `0 .. n - 1`. */
  ghost function Below(n: nat): (r: set<nat>)
    ensures forall i: nat :: i in r <==> i < n
    ensures |r| == n
  {
    if n == 0 then {} else Below(n - 1) + {n - 1}
  }

  /** A subset is no larger. */
  lemma {:induction false} SubsetCard<T>(A: set<T>, B: set<T>)
    requires A <= B
    ensures |A| <= |B|
    decreases |B|
  {
    if A != {} {
      var x :| x in A;
      SubsetCard(A - {x}, B - {x});
    }
  }

  /** A numbering that gives no two names the same number uses as many numbers as it has names. */
  lemma {:induction false} InjectiveValues(m: Indices)
    requires forall j, k :: j in m && k in m && j != k ==> m[j] != m[k]
    ensures |m.Values| == |m|
    decreases |m|
  {
    if |m| > 0 {
      var k :| k in m;
      var m' := m - {k};
      assert m'.Values == m.Values - {m[k]} by {
        forall v | v in m.Values ensures v in m'.Values || v == m[k] {
          var j :| j in m && m[j] == v;
          if j != k { assert j in m'; }
        }
      }
      InjectiveValues(m');
    }
  }

  /** A dense numbering uses exactly the numbers `0 .. |m| - 1`: `nodes` lists each index once. */
  lemma {:induction false} DenseValues(m: Indices)
    requires Dense(m)
    ensures m.Values == Below(|m|)
  {
    InjectiveValues(m);
    assert m.Values <= Below(|m|);
    if m.Values != Below(|m|) {
      var x :| x in Below(|m|) && x !in m.Values;
      SubsetCard(m.Values, Below(|m|) - {x});
      assert false;
    }
  }

  // ---------------------------------------------------------------- reading

  datatype Loaded = Loaded(indices: Indices, edges: seq<REdge>)

  /** The effect of line number `i`: both names are registered before a self-loop is skipped. */
  function AddLine(g: Loaded, ln: string, i: nat): (r: Result<Loaded, nat>)
    ensures r.Err? <==> ParseLine(ln).Malformed?
    ensures r.Err? ==> r.error == i
    ensures r.Ok? ==> g.indices.Keys <= r.value.indices.Keys && g.edges <= r.value.edges
  {
    match ParseLine(ln)
    case Comment => Ok(g)
    case Malformed => Err(i)
    case Fields2(a, b) => Ok(AddPair(g, a, b))
  }

  /** Registers `a` and then `b`, and appends the edge between their numbers unless they are the same. */
  function AddPair(g: Loaded, a: string, b: string): (r: Loaded)
    ensures r.indices.Keys == g.indices.Keys + {a, b}
    ensures forall k :: k in g.indices ==> r.indices[k] == g.indices[k]
    ensures g.edges <= r.edges && |r.edges| <= |g.edges| + 1
  {
    var m1 := Intern(g.indices, a);
    var m2 := Intern(m1, b);
    assert m2.Keys == g.indices.Keys + {a, b};
    var from, to := m1[a], m2[b];
    if from == to then Loaded(m2, g.edges) else Loaded(m2, g.edges + [Edge((), from, to)])
  }

  /** What `read` has built from the lines of a file, or the index of the line it panics on. */
  function Load(lines: seq<string>): (r: Result<Loaded, nat>)
    ensures r.Err? ==> r.error < |lines|
    ensures r.Ok? ==> |r.value.edges| <= |lines|
  {
    if lines == [] then Ok(Loaded(map[], []))
    else
      var r := Load(lines[..|lines| - 1]);
      if r.Err? then r else AddLine(r.value, lines[|lines| - 1], |lines| - 1)
  }

  /** The read fails exactly on the first line whose fields cannot be indexed. */
  lemma {:induction false} LoadFailsAt(lines: seq<string>)
    ensures Load(lines).Ok? <==> forall j {:trigger ParseLine(lines[j])} :: 0 <= j < |lines| ==> !ParseLine(lines[j]).Malformed?
    ensures Load(lines).Err? ==> ParseLine(lines[Load(lines).error]).Malformed?
    ensures Load(lines).Err? ==> forall j {:trigger ParseLine(lines[j])} :: 0 <= j < Load(lines).error ==> !ParseLine(lines[j]).Malformed?
    decreases |lines|
  {
    if lines != [] {
      var init := lines[..|lines| - 1];
      LoadFailsAt(init);
      assert forall j :: 0 <= j < |init| ==> init[j] == lines[j];
    }
  }

  lemma {:induction false} LoadErrSticks(lines: seq<string>, i: nat, more: seq<string>)
    requires Load(lines) == Err(i)
    ensures Load(lines + more) == Err(i)
    decreases |more|
  {
    if more == [] {
      assert lines + more == lines;
    } else {
      LoadErrSticks(lines, i, more[..|more| - 1]);
      assert (lines + more)[..|lines + more| - 1] == lines + more[..|more| - 1];
    }
  }

  /** Reading one more line. */
  lemma {:induction false} LoadStep(lines: seq<string>, i: nat)
    requires i < |lines| && Load(lines[..i]).Ok?
    ensures Load(lines[..i + 1]) == AddLine(Load(lines[..i]).value, lines[i], i)
    ensures Load(lines[..i + 1]).Err? ==> Load(lines) == Err(i)
  {
    var before := lines[..i + 1];
    assert before[..i] == lines[..i] && before[i] == lines[i];
    if Load(before).Err? {
      LoadErrSticks(before, i, lines[i + 1..]);
      assert before + lines[i + 1..] == lines;
    }
  }

  /** The name pairs of the lines read, self-loops included, or the line that panics. */
  ghost function Pairs(lines: seq<string>): (r: Result<seq<(string, string)>, nat>)
    ensures r.Ok? ==> |r.value| <= |lines|
    ensures r.Err? ==> r.error < |lines|
  {
    if lines == [] then Ok([])
    else
      var r := Pairs(lines[..|lines| - 1]);
      if r.Err? then r
      else
        match ParseLine(lines[|lines| - 1])
        case Comment => r
        case Malformed => Err(|lines| - 1)
        case Fields2(a, b) => Ok(r.value + [(a, b)])
  }

  ghost function Names(ps: seq<(string, string)>): set<string> {
    (set p | p in ps :: p.0) + (set p | p in ps :: p.1)
  }

  /** The numbered edges of the name pairs that are not self-loops. */
  ghost function Encode(m: Indices, ps: seq<(string, string)>): (r: seq<REdge>)
    requires Names(ps) <= m.Keys
    ensures |r| <= |ps|
    ensures forall e :: e in r ==> e.from in m.Values && e.to in m.Values
  {
    if ps == [] then []
    else
      var p := ps[|ps| - 1];
      assert Names(ps[..|ps| - 1]) <= Names(ps) by { assert forall q :: q in ps[..|ps| - 1] ==> q in ps; }
      Encode(m, ps[..|ps| - 1]) + (if p.0 == p.1 then [] else [Edge((), m[p.0], m[p.1])])
  }

  /** Numbering more names leaves the encoding of the earlier pairs as it was. */
  lemma {:induction false} EncodeExtend(m: Indices, m': Indices, ps: seq<(string, string)>)
    requires Names(ps) <= m.Keys
    requires forall k :: k in m ==> k in m' && m'[k] == m[k]
    ensures Names(ps) <= m'.Keys && Encode(m', ps) == Encode(m, ps)
    decreases |ps|
  {
    if ps != [] {
      assert forall q :: q in ps[..|ps| - 1] ==> q in ps;
      EncodeExtend(m, m', ps[..|ps| - 1]);
    }
  }

  lemma {:induction false} NamesAppend(ps: seq<(string, string)>, a: string, b: string)
    ensures Names(ps + [(a, b)]) == Names(ps) + {a, b}
  {
    var qs := ps + [(a, b)];
    assert (set p | p in qs :: p.0) == (set p | p in ps :: p.0) + {a};
    assert (set p | p in qs :: p.1) == (set p | p in ps :: p.1) + {b};
  }

  /** Adding one name pair keeps the numbering dense. */
  lemma {:induction false} AddPairDense(g: Loaded, a: string, b: string)
    requires Dense(g.indices)
    ensures Dense(AddPair(g, a, b).indices)
  {
    var m1 := Intern(g.indices, a);
    assert Dense(m1);
  }

  /** Adding one name pair numbers both its names. */
  lemma {:induction false} AddPairNames(g: Loaded, ps: seq<(string, string)>, a: string, b: string)
    requires g.indices.Keys == Names(ps)
    ensures AddPair(g, a, b).indices.Keys == Names(ps + [(a, b)])
  {
    NamesAppend(ps, a, b);
  }

  /** Adding one name pair keeps the edges the encoding of the pairs. */
  lemma {:induction false} AddPairEdges(g: Loaded, ps: seq<(string, string)>, a: string, b: string)
    requires Dense(g.indices) && g.indices.Keys == Names(ps) && g.edges == Encode(g.indices, ps)
    ensures Names(ps + [(a, b)]) <= AddPair(g, a, b).indices.Keys
    ensures AddPair(g, a, b).edges == Encode(AddPair(g, a, b).indices, ps + [(a, b)])
  {
    var m2 := AddPair(g, a, b).indices;
    AddPairDense(g, a, b);
    AddPairNames(g, ps, a, b);
    EncodeExtend(g.indices, m2, ps);
    var ps' := ps + [(a, b)];
    assert ps'[..|ps'| - 1] == ps;
    DenseInjective(m2, a, b);
  }

  /** `read` fails exactly where the name pairs do. */
  lemma {:induction false} LoadPairsAgree(lines: seq<string>)
    ensures Load(lines).Ok? <==> Pairs(lines).Ok?
    ensures Load(lines).Err? ==> Load(lines).error == Pairs(lines).error
    decreases |lines|
  {
    if lines != [] {
      LoadPairsAgree(lines[..|lines| - 1]);
    }
  }

  lemma {:induction false} LoadDense(lines: seq<string>)
    ensures Load(lines).Ok? ==> Dense(Load(lines).value.indices)
    decreases |lines|
  {
    if lines != [] {
      var init := lines[..|lines| - 1];
      var ln := lines[|lines| - 1];
      LoadDense(init);
      if Load(init).Ok? && ParseLine(ln).Fields2? {
        AddPairDense(Load(init).value, ParseLine(ln).first, ParseLine(ln).second);
      }
    }
  }

  lemma {:induction false} LoadNames(lines: seq<string>)
    ensures Load(lines).Ok? && Pairs(lines).Ok? ==> Load(lines).value.indices.Keys == Names(Pairs(lines).value)
    decreases |lines|
  {
    LoadPairsAgree(lines);
    if lines == [] {
      assert Names([]) == {};
    } else {
      var init := lines[..|lines| - 1];
      var ln := lines[|lines| - 1];
      LoadNames(init);
      LoadPairsAgree(init);
      if Load(init).Ok? && ParseLine(ln).Fields2? {
        AddPairNames(Load(init).value, Pairs(init).value, ParseLine(ln).first, ParseLine(ln).second);
      }
    }
  }

  lemma {:induction false} LoadEdges(lines: seq<string>)
    ensures Load(lines).Ok? && Pairs(lines).Ok? ==> Names(Pairs(lines).value) <= Load(lines).value.indices.Keys
    ensures Load(lines).Ok? && Pairs(lines).Ok? ==> Load(lines).value.edges == Encode(Load(lines).value.indices, Pairs(lines).value)
    decreases |lines|
  {
    LoadPairsAgree(lines);
    LoadNames(lines);
    if lines != [] {
      var init := lines[..|lines| - 1];
      var ln := lines[|lines| - 1];
      LoadEdges(init);
      LoadPairsAgree(init);
      LoadDense(init);
      LoadNames(init);
      if Load(init).Ok? && ParseLine(ln).Fields2? {
        AddPairEdges(Load(init).value, Pairs(init).value, ParseLine(ln).first, ParseLine(ln).second);
      }
    }
  }

  /**
   * What `read` builds, in terms of names: the names numbered are those of
   * every edge line (a line naming one node twice included), the numbering is
   * dense, and the edges are the numbered non-self-loop pairs in file order.
   */
  lemma {:induction false} LoadEncodes(lines: seq<string>)
    ensures Load(lines).Ok? <==> Pairs(lines).Ok?
    ensures Load(lines).Err? ==> Load(lines).error == Pairs(lines).error
    ensures Load(lines).Ok? ==> Dense(Load(lines).value.indices)
    ensures Load(lines).Ok? ==> Load(lines).value.indices.Keys == Names(Pairs(lines).value)
    ensures Load(lines).Ok? ==> Load(lines).value.edges == Encode(Load(lines).value.indices, Pairs(lines).value)
  {
    LoadPairsAgree(lines);
    LoadDense(lines);
    LoadNames(lines);
    LoadEdges(lines);
  }

  /** Every edge joins two numbered nodes, and none is a self-loop. */
  lemma {:induction false} EncodeClosed(m: Indices, ps: seq<(string, string)>)
    requires Names(ps) <= m.Keys
    ensures Closed(m.Values, Encode(m, ps))
    ensures forall e :: e in Encode(m, ps) ==> e.from != e.to || !Dense(m)
    decreases |ps|
  {
    if ps != [] {
      var p := ps[|ps| - 1];
      assert forall q :: q in ps[..|ps| - 1] ==> q in ps;
      EncodeClosed(m, ps[..|ps| - 1]);
      assert p.0 in m && p.1 in m;
      if Dense(m) {
        DenseInjective(m, p.0, p.1);
      }
    }
  }

  /** After reading, the nodes are `0 .. n - 1` for `n` distinct names, and every edge joins two different ones. */
  lemma {:induction false} LoadWellFormed(lines: seq<string>)
    requires Load(lines).Ok?
    ensures Load(lines).value.indices.Values == Below(|Load(lines).value.indices|)
    ensures Closed(Load(lines).value.indices.Values, Load(lines).value.edges)
    ensures forall e :: e in Load(lines).value.edges ==> e.from != e.to
  {
    LoadEncodes(lines);
    DenseValues(Load(lines).value.indices);
    EncodeClosed(Load(lines).value.indices, Pairs(lines).value);
  }

  // ---------------------------------------------------------------- the graph

  class Graph {
    var nodes: set<nat>
    var edges: seq<REdge>

    constructor (nodes: set<nat>, edges: seq<REdge>)
      ensures this.nodes == nodes && this.edges == edges
    {
      this.nodes := nodes;
      this.edges := edges;
    }

    /** The edges satisfying `criteria`, in list order. */
    function CollectEdges(criteria: REdge -> bool): (r: seq<REdge>)
      reads this
      ensures |r| <= |edges|
      ensures forall e :: e in r <==> e in edges && criteria(e)
    {
      Filter(edges, criteria)
    }

    /** The edge list contains an edge into `n`. */
    function HasIncomingEdges(n: nat): (b: bool)
      reads this
      ensures b <==> n in Targets(edges)
    {
      exists k :: 0 <= k < |edges| && edges[k].to == n
    }

    /** The nodes without an incoming edge. */
    function CollectNodesWithoutIncoming(): (r: set<nat>)
      reads this
      ensures forall n :: n in r <==> n in nodes && !HasIncomingEdges(n)
      ensures r == nodes - Targets(edges)
    {
      var withIncoming := set e | e in edges :: e.to;
      set n | n in nodes && n !in withIncoming
    }

    /**
     * `remove_edge`: deletes the edge at the first position holding `e`.
     * `removed` is false where `unwrap` would panic, and then nothing changes.
     */
    method RemoveEdge(e: REdge) returns (removed: bool)
      modifies this
      ensures nodes == old(nodes)
      ensures removed <==> e in old(edges)
      ensures edges == RemoveFirst(old(edges), e)
    {
      var index := Position(edges, e);
      if index.None? {
        return false;
      }
      RemoveFirstAt(edges, e, index.value);
      edges := edges[..index.value] + edges[index.value + 1..];
      return true;
    }
  }

  /** `Graph::read` over the lines of a file. */
  method Read(lines: seq<string>) returns (r: Result<Graph, nat>)
    ensures r.Err? ==> Load(lines) == Err(r.error)
    ensures r.Ok? ==> Load(lines).Ok?
    ensures r.Ok? ==> r.value.nodes == Load(lines).value.indices.Values && r.value.edges == Load(lines).value.edges
    ensures r.Ok? ==> fresh(r.value)
  {
    var nodeIndices: Indices := map[];
    var edges: seq<REdge> := [];
    var i := 0;
    while i < |lines|
      invariant 0 <= i <= |lines|
      invariant Load(lines[..i]) == Ok(Loaded(nodeIndices, edges))
    {
      var ln := lines[i];
      LoadStep(lines, i);
      if !StartsWith(ln, '#') && !StartsWith(ln, '%') {
        var pair := Fields(ln, Separators);
        if |pair| < 2 {
          return Err(i);
        }
        var from, to;
        from, nodeIndices := RegisterNode(pair[0], nodeIndices);
        to, nodeIndices := RegisterNode(pair[1], nodeIndices);
        if from != to {
          edges := edges + [Edge((), from, to)];
        }
      }
      i := i + 1;
    }
    assert lines[..i] == lines;
    var g := new Graph(nodeIndices.Values, edges);
    return Ok(g);
  }

  /** The loop of `main`, as in the Java program but over node numbers. */
  method Kahn(G: Graph) returns (L: seq<nat>)
    requires Closed(G.nodes, G.edges)
    modifies G
    ensures G.nodes == old(G.nodes)
    ensures NoDup(L) && Elems(L) <= G.nodes && |L| <= |G.nodes|
    ensures Ordered(L, old(G.edges))
    ensures G.edges == Outside(old(G.edges), Elems(L))
    ensures G.edges == [] ==> IsTopologicalOrder(L, G.nodes, old(G.edges))
    ensures G.edges != [] ==> HasCycle(G.edges)
    ensures (G.edges == []) == !HasCycle(old(G.edges))
  {
    ghost var V, E0 := G.nodes, G.edges;
    var S := G.CollectNodesWithoutIncoming();
    KahnStart(V, E0);
    L := [];
    while |S| > 0
      invariant G.nodes == V
      invariant Outer(V, E0, G.edges, S, L)
      decreases V - Elems(L)
    {
      var n :| n in S;
      KahnEmit(V, E0, G.edges, S, L, n);
      ElemsAppend(L, n);
      S := S - {n};
      L := L + [n];
      ghost var start := G.edges;
      var leavesN := (e: REdge) => e.from == n;
      var fromNToM := G.CollectEdges(leavesN);
      FilterFrom(G.edges, leavesN, n);
      var k := 0;
      while k < |fromNToM|
        invariant G.nodes == V
        invariant fromNToM == From(start, n)
        invariant Inner(V, E0, start, n, k, G.edges, S, L)
      {
        var e := fromNToM[k];
        var m := e.to;
        KahnRemove(V, E0, start, n, k, G.edges, S, L);
        var _ := G.RemoveEdge(e);
        if !G.HasIncomingEdges(m) {
          S := S + {m};
        }
        k := k + 1;
      }
      KahnInnerDone(V, E0, start, n, k, G.edges, S, L);
    }
    KahnDone(V, E0, G.edges, L);
  }

  /** At this many or more remaining edges `main` prints their count and an empty example instead of the edges. */
  const RemainsListed: nat := 100

  /** What `main` reports; the example cycle is the empty placeholder the program prints. */
  datatype Report =
    | ReadFailed(line: nat)
    | Sorted(order: seq<nat>)
    | Cyclic(remains: seq<REdge>, example: Option<seq<nat>>)

  method Run(lines: seq<string>) returns (r: Report)
    ensures r.ReadFailed? <==> Load(lines).Err?
    ensures r.ReadFailed? ==> Load(lines) == Err(r.line)
    ensures Load(lines).Ok? ==> var g := Load(lines).value;
      && (r.Sorted? <==> !HasCycle(g.edges))
      && (r.Sorted? ==> IsTopologicalOrder(r.order, Below(|g.indices|), g.edges))
      && (r.Cyclic? ==> |r.remains| > 0 && HasCycle(r.remains) && forall e :: e in r.remains ==> e in g.edges)
      && (r.Cyclic? ==> r.example == if |r.remains| < RemainsListed then None else Some([]))
  {
    var read := Read(lines);
    if read.Err? {
      return ReadFailed(read.error);
    }
    var G := read.value;
    LoadWellFormed(lines);
    var L := Kahn(G);
    if |G.edges| > 0 {
      if |G.edges| < RemainsListed {
        return Cyclic(G.edges, None);
      }
      var cycle: seq<nat> := [];
      return Cyclic(G.edges, Some(cycle));
    }
    return Sorted(L);
  }
}
