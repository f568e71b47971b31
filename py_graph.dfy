/**
 * The Python script: the `Graph` class with `read`, `collect_edges` and
 * `incoming_edges`, and the Kahn loop run at module level.
 *
 * A Python edge is the list of fields its line splits into; lists compare
 * by content, so `list.remove` drops the first edge with the same fields.
 * The model keeps that list as the edge's identity next to its first two
 * fields, the nodes it joins.
 */
module PyGraph {
  import opened Wrappers
  import opened Tokens
  import opened Digraph
  import opened KahnSpec

  type PEdge = Edge<seq<string>, string>

  /** How `read` handles one line, as `readlines` returns it (with its line break). */
  datatype PyLine =
    | Skipped
    | Pair(fields: seq<string>)
    | Crash

  /** `ln[0]` fails on an empty line and `pair[1]` on a line without a comma. */
  function ParseLine(ln: string): (r: PyLine)
    ensures r.Skipped? <==> StartsWith(ln, '#')
    ensures r.Pair? ==> |r.fields| >= 2 && forall k :: 0 <= k < |r.fields| ==> NoSep(r.fields[k], {','})
  {
    if |ln| == 0 then Crash
    else if ln[0] == '#' then Skipped
    else
      var pair := Fields(Strip(ln), {','});
      if |pair| < 2 then Crash else Pair(pair)
  }

  lemma {:induction false} JoinEnds(fs: seq<string>, c: char)
    requires |fs| >= 2
    ensures var s := Join(fs, c);
      && |s| > 0
      && s[0] == (if fs[0] == [] then c else fs[0][0])
      && s[|s| - 1] == (if fs[|fs| - 1] == [] then c else fs[|fs| - 1][|fs[|fs| - 1]| - 1])
  {
    if |fs| > 2 {
      JoinEnds(fs[1..], c);
    }
  }

  /**
   * A line holding at least two comma-separated fields, with no whitespace
   * at its two ends before the line break, is read as exactly those fields.
   */
  lemma {:induction false} ParseFieldsLine(fs: seq<string>, ws: string)
    requires |fs| >= 2 && forall k :: 0 <= k < |fs| ==> NoSep(fs[k], {','})
    requires fs[0] == [] || (fs[0][0] != '#' && !IsSpace(fs[0][0]))
    requires var last := fs[|fs| - 1]; last == [] || !IsSpace(last[|last| - 1])
    requires AllSpace(ws)
    ensures ParseLine(Join(fs, ',') + ws) == Pair(fs)
  {
    var s := Join(fs, ',');
    var ln := s + ws;
    assert |ln| > 0 && ln[0] != '#' by {
      JoinEnds(fs, ',');
      assert ln[0] == s[0];
    }
    assert Strip(ln) == s by {
      JoinEnds(fs, ',');
      StripPadding([], s, ws);
      assert [] + s + ws == ln;
    }
    assert Fields(s, {','}) == fs by {
      FieldsOfJoin(fs, ',', {','});
    }
  }

  /** A line whose text has no comma is a crash. */
  lemma {:induction false} ParseNoComma(ln: string)
    requires |ln| > 0 && ln[0] != '#' && NoSep(Strip(ln), {','})
    ensures ParseLine(ln) == Crash
  {
    FieldsSingle(Strip(ln), {','});
  }

  /** The edge of a split line: the list itself, from its first to its second field. */
  function EdgeOf(pair: seq<string>): (r: PEdge)
    requires |pair| >= 2
    ensures r.id == pair && FieldsAgree([r])
  {
    Edge(pair, pair[0], pair[1])
  }

  /** Each edge carries its own fields, so equal edges have equal fields and vice versa. */
  ghost predicate FieldsAgree(es: seq<PEdge>) {
    forall e :: e in es ==> |e.id| >= 2 && e.from == e.id[0] && e.to == e.id[1]
  }

  /** The effect of line number `i` on the edges `read` has appended; `Err(i)` when it raises. */
  function AddLine(es: seq<PEdge>, ln: string, i: nat): (r: Result<seq<PEdge>, nat>)
    ensures r.Err? <==> ParseLine(ln).Crash?
    ensures r.Err? ==> r.error == i
    ensures r.Ok? ==> es <= r.value && |r.value| <= |es| + 1
  {
    match ParseLine(ln)
    case Skipped => Ok(es)
    case Crash => Err(i)
    case Pair(fs) => Ok(es + [EdgeOf(fs)])
  }

  /** The edges `read` appends for the lines of a file, or the index of the line it fails on. */
  function Load(lines: seq<string>): (r: Result<seq<PEdge>, nat>)
    ensures r.Err? ==> r.error < |lines|
    ensures r.Ok? ==> |r.value| <= |lines|
  {
    if lines == [] then Ok([])
    else
      var r := Load(lines[..|lines| - 1]);
      if r.Err? then r else AddLine(r.value, lines[|lines| - 1], |lines| - 1)
  }

  lemma {:induction false} LoadFieldsAgree(lines: seq<string>)
    ensures Load(lines).Ok? ==> FieldsAgree(Load(lines).value)
    decreases |lines|
  {
    if lines != [] {
      LoadFieldsAgree(lines[..|lines| - 1]);
    }
  }

  /** The read fails exactly on the first line whose fields cannot be indexed. */
  lemma {:induction false} LoadFailsAt(lines: seq<string>)
    ensures Load(lines).Ok? <==> forall j {:trigger ParseLine(lines[j])} :: 0 <= j < |lines| ==> !ParseLine(lines[j]).Crash?
    ensures Load(lines).Err? ==> ParseLine(lines[Load(lines).error]).Crash?
    ensures Load(lines).Err? ==> forall j {:trigger ParseLine(lines[j])} :: 0 <= j < Load(lines).error ==> !ParseLine(lines[j]).Crash?
    decreases |lines|
  {
    if lines != [] {
      var init, last := lines[..|lines| - 1], |lines| - 1;
      LoadFailsAt(init);
      assert forall j :: 0 <= j < |init| ==> init[j] == lines[j];
    }
  }

  lemma {:induction false} LoadErrSticks(lines: seq<string>, i: nat, more: seq<string>)
    requires Load(lines) == Err(i)
    ensures Load(lines + more) == Err(i)
    decreases |more|
  {
    if more == [] {
      assert lines + more == lines;
    } else {
      LoadErrSticks(lines, i, more[..|more| - 1]);
      assert (lines + more)[..|lines + more| - 1] == lines + more[..|more| - 1];
    }
  }

  /** Reading one more line. */
  lemma {:induction false} LoadStep(lines: seq<string>, i: nat)
    requires i < |lines| && Load(lines[..i]).Ok?
    ensures Load(lines[..i + 1]) == AddLine(Load(lines[..i]).value, lines[i], i)
    ensures Load(lines[..i + 1]).Err? ==> Load(lines) == Err(i)
  {
    var before := lines[..i + 1];
    assert before[..|before| - 1] == lines[..i];
    assert before[|before| - 1] == lines[i];
    var r := Load(before);
    assert r == AddLine(Load(lines[..i]).value, lines[i], i);
    if r.Err? {
      assert r == Err(i);
      LoadErrSticks(before, i, lines[i + 1..]);
      assert before + lines[i + 1..] == lines;
    }
  }

  /** Reading line `i` after the edges `es` of the lines before it. */
  lemma {:induction false} ReadAdvance(lines: seq<string>, i: nat, es: seq<PEdge>)
    requires i < |lines| && Load(lines[..i]) == Ok(es)
    ensures ParseLine(lines[i]).Crash? ==> Load(lines) == Err(i)
    ensures ParseLine(lines[i]).Skipped? ==> Load(lines[..i + 1]) == Ok(es)
    ensures ParseLine(lines[i]).Pair? ==>
      var e := EdgeOf(ParseLine(lines[i]).fields);
      Load(lines[..i + 1]) == Ok(es + [e]) && Endpoints(es + [e]) == Endpoints(es) + {e.from, e.to}
  {
    LoadStep(lines, i);
    if ParseLine(lines[i]).Pair? {
      EndpointsAppend(es, EdgeOf(ParseLine(lines[i]).fields));
    }
  }

  /** Both endpoints of every edge. */
  ghost function Endpoints(es: seq<PEdge>): set<string> {
    Sources(es) + Targets(es)
  }

  lemma {:induction false} EndpointsAppend(es: seq<PEdge>, e: PEdge)
    ensures Endpoints(es + [e]) == Endpoints(es) + {e.from, e.to}
  {
    assert Sources(es + [e]) == Sources(es) + {e.from};
    assert Targets(es + [e]) == Targets(es) + {e.to};
  }

  class Graph {
    var nodes: set<string>
    var edges: seq<PEdge>

    constructor ()
      ensures nodes == {} && edges == []
    {
      nodes := {};
      edges := [];
    }

    /** One pass of `read`'s loop: line `ln` as `ParseLine` reads it. */
    method ReadLine(ln: string) returns (crashed: bool)
      modifies this
      ensures crashed <==> ParseLine(ln).Crash?
      ensures ParseLine(ln).Skipped? ==> edges == old(edges) && nodes == old(nodes)
      ensures ParseLine(ln).Pair? ==>
        var e := EdgeOf(ParseLine(ln).fields);
        edges == old(edges) + [e] && nodes == old(nodes) + {e.from, e.to}
    {
      if |ln| == 0 {
        return true;
      }
      if ln[0] == '#' {
        return false;
      }
      var pair := Fields(Strip(ln), {','});
      if |pair| < 2 {
        return true;
      }
      edges := edges + [EdgeOf(pair)];
      nodes := nodes + {pair[0]};
      nodes := nodes + {pair[1]};
      return false;
    }

    /**
     * `read`: appends an edge per non-comment line and adds its two nodes.
     * It returns the index of the line that raised, if one did.
     */
    method Read(lines: seq<string>) returns (failed: Option<nat>)
      modifies this
      ensures failed.None? <==> Load(lines).Ok?
      ensures failed.Some? ==> Load(lines) == Err(failed.value)
      ensures failed.None? ==> edges == old(edges) + Load(lines).value
      ensures failed.None? ==> nodes == old(nodes) + Endpoints(Load(lines).value)
    {
      ghost var es: seq<PEdge> := [];
      ghost var E, N := edges, nodes;
      var i := 0;
      while i < |lines|
        invariant 0 <= i <= |lines|
        invariant Load(lines[..i]) == Ok(es)
        invariant edges == E + es
        invariant nodes == N + Endpoints(es)
      {
        var crashed := ReadLine(lines[i]);
        ReadAdvance(lines, i, es);
        if crashed {
          return Some(i);
        }
        if ParseLine(lines[i]).Pair? {
          es := es + [EdgeOf(ParseLine(lines[i]).fields)];
        }
        i := i + 1;
      }
      assert lines[..i] == lines;
      return None;
    }

    /** `collect_edges`: the edges satisfying `criteria`, in list order. */
    method CollectEdges(criteria: PEdge -> bool) returns (result: seq<PEdge>)
      ensures result == Filter(edges, criteria)
    {
      result := [];
      var es := edges;
      for i := 0 to |es|
        invariant result == Filter(es[..i], criteria)
      {
        var e := es[i];
        FilterSnoc(es[..i], e, criteria);
        assert es[..i + 1] == es[..i] + [e];
        if criteria(e) {
          result := result + [e];
        }
      }
      assert es[..|es|] == es;
    }

    /** `incoming_edges`: the edges into `n`, in list order. */
    method IncomingEdges(n: string) returns (result: seq<PEdge>)
      ensures result == Into(edges, n)
      ensures |result| == 0 <==> n !in Targets(edges)
    {
      var isIncoming := (e: PEdge) => e.to == n;
      result := CollectEdges(isIncoming);
      assert forall e :: isIncoming(e) == (e.to == n);
      FilterInto(edges, isIncoming, n);
      if n in Targets(edges) {
        var e :| e in edges && e.to == n;
        assert e in result;
      }
      if |result| > 0 {
        assert result[0] in result;
      }
    }
  }

  /** The frontier the script starts from: the nodes without incoming edges. */
  method InitialFrontier(G: Graph) returns (S: set<string>)
    ensures S == G.nodes - Targets(G.edges)
  {
    S := {};
    var rest := G.nodes;
    while rest != {}
      invariant rest <= G.nodes
      invariant S == (G.nodes - rest) - Targets(G.edges)
      decreases rest
    {
      var n :| n in rest;
      var incoming := G.IncomingEdges(n);
      if |incoming| == 0 {
        S := S + {n};
      }
      rest := rest - {n};
    }
  }

  /** The `k`-th collected edge is an edge of the graph read, and carries its fields. */
  lemma {:induction false} CollectedEdge(V: set<string>, E0: seq<PEdge>, start: seq<PEdge>, n: string, k: nat,
                                         E: seq<PEdge>, S: set<string>, L: seq<string>)
    requires Inner(V, E0, start, n, k, E, S, L) && k < |From(start, n)| && FieldsAgree(E0)
    ensures var e := From(start, n)[k];
      e in E0 && |e.id| >= 2 && e.id[1] == e.to
  {
    var e := From(start, n)[k];
    assert e in From(start, n);
    assert e in start;
  }

  /**
   * The loop of the script. Unpacking `_unused, m = e` raises when the edge
   * has other than two fields; `Err` returns that edge.
   */
  method Kahn(G: Graph) returns (r: Result<seq<string>, PEdge>)
    requires Closed(G.nodes, G.edges) && FieldsAgree(G.edges)
    modifies G
    ensures G.nodes == old(G.nodes)
    ensures r.Err? ==> r.error in old(G.edges) && |r.error.id| != 2
    ensures (forall e :: e in old(G.edges) ==> |e.id| == 2) ==> r.Ok?
    ensures r.Ok? ==> NoDup(r.value) && Elems(r.value) <= G.nodes && |r.value| <= |G.nodes|
    ensures r.Ok? ==> Ordered(r.value, old(G.edges))
    ensures r.Ok? ==> G.edges == Outside(old(G.edges), Elems(r.value))
    ensures r.Ok? && G.edges == [] ==> IsTopologicalOrder(r.value, G.nodes, old(G.edges))
    ensures r.Ok? && G.edges != [] ==> HasCycle(G.edges)
    ensures r.Ok? ==> ((G.edges == []) <==> !HasCycle(old(G.edges)))
  {
    ghost var V, E0 := G.nodes, G.edges;
    var L: seq<string> := [];
    var S := InitialFrontier(G);
    KahnStart(V, E0);
    while S != {}
      invariant G.nodes == V
      invariant Outer(V, E0, G.edges, S, L)
      decreases V - Elems(L)
    {
      var n :| n in S;
      KahnEmit(V, E0, G.edges, S, L, n);
      ElemsAppend(L, n);
      S := S - {n};
      L := L + [n];
      ghost var start := G.edges;
      var leavesN := (e: PEdge) => e.from == n;
      var fromNToM := G.CollectEdges(leavesN);
      FilterFrom(G.edges, leavesN, n);
      var k := 0;
      while k < |fromNToM|
        invariant G.nodes == V
        invariant fromNToM == From(start, n)
        invariant Inner(V, E0, start, n, k, G.edges, S, L)
      {
        var e := fromNToM[k];
        CollectedEdge(V, E0, start, n, k, G.edges, S, L);
        if |e.id| != 2 {
          return Err(e);
        }
        var m := e.id[1];
        KahnRemove(V, E0, start, n, k, G.edges, S, L);
        G.edges := RemoveFirst(G.edges, e);
        var otherIncomingM := G.IncomingEdges(m);
        if |otherIncomingM| == 0 {
          S := S + {m};
        }
        k := k + 1;
      }
      KahnInnerDone(V, E0, start, n, k, G.edges, S, L);
    }
    KahnDone(V, E0, G.edges, L);
    return Ok(L);
  }

  /** What the script prints. */
  datatype Report =
    | ReadFailed(line: nat)
    | UnpackFailed(edge: seq<string>)
    | Sorted(order: seq<string>)
    | Cyclic(remains: seq<PEdge>)

  method Run(lines: seq<string>) returns (r: Report)
    ensures r.ReadFailed? <==> Load(lines).Err?
    ensures r.ReadFailed? ==> Load(lines) == Err(r.line)
    ensures Load(lines).Ok? ==> var es := Load(lines).value;
      && (r.UnpackFailed? ==> |r.edge| != 2 && exists e :: e in es && e.id == r.edge)
      && ((forall e :: e in es ==> |e.id| == 2) ==> !r.UnpackFailed? && (r.Sorted? <==> !HasCycle(es)))
      && (r.Sorted? ==> IsTopologicalOrder(r.order, Endpoints(es), es))
      && (r.Cyclic? ==> |r.remains| > 0 && HasCycle(r.remains) && HasCycle(es))
  {
    var G := new Graph();
    var failed := G.Read(lines);
    if failed.Some? {
      return ReadFailed(failed.value);
    }
    LoadFieldsAgree(lines);
    ghost var es := G.edges;
    assert es == [] + Load(lines).value == Load(lines).value;
    assert G.nodes == Endpoints(es);
    var sorted := Kahn(G);
    if sorted.Err? {
      return UnpackFailed(sorted.error.id);
    }
    if |G.edges| > 0 {
      assert HasCycle(G.edges) && HasCycle(es);
      return Cyclic(G.edges);
    }
    assert !HasCycle(es);
    return Sorted(sorted.value);
  }

  /** `read` keeps a line naming one node twice, so the script then always reports a cycle. */
  lemma {:induction false} SelfLoopLine(lines: seq<string>, i: nat)
    requires Load(lines).Ok? && i < |lines|
    requires ParseLine(lines[i]).Pair? && ParseLine(lines[i]).fields[0] == ParseLine(lines[i]).fields[1]
    ensures HasCycle(Load(lines).value)
  {
    var e := LoadedLine(lines, i);
    SelfLoopCycle(Load(lines).value, e);
  }

  /** The edge of every line read is among the edges loaded. */
  lemma {:induction false} LoadedLine(lines: seq<string>, i: nat) returns (e: PEdge)
    requires Load(lines).Ok? && i < |lines| && ParseLine(lines[i]).Pair?
    ensures e in Load(lines).value && e == EdgeOf(ParseLine(lines[i]).fields)
    decreases |lines|
  {
    var init := lines[..|lines| - 1];
    if i == |lines| - 1 {
      e := EdgeOf(ParseLine(lines[i]).fields);
    } else {
      assert init[i] == lines[i];
      e := LoadedLine(init, i);
    }
  }
}
