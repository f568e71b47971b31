/** The Java program's `main`: read, sort, and report either the order or the edges left on a cycle. */
module JavaMain {
  import opened Wrappers
  import opened Digraph
  import opened JavaGraph
  import opened JavaCycle

  /** At this many or more remaining edges `main` looks for an example cycle instead of listing them. */
  const RemainsListed: nat := 100

  /** What `main` reports. */
  datatype Report =
    | ReadFailed(line: nat)
    | Sorted(order: seq<string>)
    | Cyclic(remains: seq<JEdge>, example: Option<seq<string>>)

  method Run(lines: seq<string>) returns (r: Report)
    ensures r.ReadFailed? <==> Load(lines).Err?
    ensures r.ReadFailed? ==> Load(lines) == Err(r.line)
    ensures Load(lines).Ok? ==> var g := Load(lines).value;
      && (r.Sorted? <==> !HasCycle(g.edges))
      && (r.Sorted? ==> IsTopologicalOrder(r.order, g.nodes, g.edges))
      && (r.Cyclic? ==> |r.remains| > 0 && HasCycle(r.remains) && forall e :: e in r.remains ==> e in g.edges)
      && (r.Cyclic? ==> (r.example.Some? <==> |r.remains| >= RemainsListed))
      && (r.Cyclic? && r.example.Some? ==>
            IsCycle(r.example.value, r.remains) && IsCycle(r.example.value, g.edges) && NoDup(r.example.value))
  {
    var read := Read(lines);
    if read.Err? {
      return ReadFailed(read.error);
    }
    var G := read.value;
    LoadWellRead(lines);
    ghost var E0 := G.edges;
    var L := Kahn(G);
    if |G.edges| > 0 {
      if |G.edges| < RemainsListed {
        return Cyclic(G.edges, None);
      }
      var cycle := FindCycle(G);
      CycleOfSubset(cycle, G.edges, E0);
      return Cyclic(G.edges, Some(cycle));
    }
    return Sorted(L);
  }
}
