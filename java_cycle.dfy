/**
 * The Java program's cycle finder: `findCycle` builds an adjacency map of the
 * edges left after the Kahn loop and runs the backtracking search
 * `findBacktrack` from the source of each edge in turn.
 *
 * The Java search shares one mutable `visited` list between all recursive
 * calls; here it is passed in and handed back, so a call's effect on it is its
 * result `after`.
 */
module JavaCycle {
  import opened Digraph
  import opened JavaGraph

  type Adjacency = map<string, seq<string>>

  // ---------------------------------------------------------------- the adjacency map

  /** The targets of the edges leaving `u`, in list order. */
  ghost function SuccOf<I(!new)>(es: seq<Edge<I, string>>, u: string): seq<string> {
    if es == [] then []
    else
      var e := es[|es| - 1];
      SuccOf(es[..|es| - 1], u) + (if e.from == u then [e.to] else [])
  }

  lemma {:induction false} SuccOfEdges<I(!new)>(es: seq<Edge<I, string>>, u: string)
    ensures forall v :: v in SuccOf(es, u) <==> HasEdge(es, u, v)
    ensures u !in Sources(es) ==> SuccOf(es, u) == []
    decreases |es|
  {
    if es != [] {
      var init, e := es[..|es| - 1], es[|es| - 1];
      SuccOfEdges(init, u);
      assert es == init + [e];
      assert Sources(es) == Sources(init) + {e.from};
      forall v ensures v in SuccOf(es, u) <==> HasEdge(es, u, v) {
        if HasEdge(es, u, v) {
          var d :| d in es && d.from == u && d.to == v;
          if d != e { assert d in init; }
        }
        if HasEdge(init, u, v) {
          var d :| d in init && d.from == u && d.to == v;
          assert d in es;
        }
      }
    }
  }

  /** `u` has an arc to `v` in the map. */
  ghost predicate Arc(m: Adjacency, u: string, v: string) {
    u in m && v in m[u]
  }

  /** The map has an arc exactly where the edge list has an edge. */
  ghost predicate Represents(m: Adjacency, es: seq<JEdge>) {
    forall u, v :: Arc(m, u, v) <==> HasEdge(es, u, v)
  }

  /** Each source of an edge is mapped to the targets of its edges, in list order. */
  ghost predicate ListsSuccessors(m: Adjacency, es: seq<JEdge>) {
    m.Keys == Sources(es) && forall u :: u in m ==> m[u] == SuccOf(es, u)
  }

  /**
   * `map_repr`: each edge source is mapped to the targets of its edges, in
   * list order and with repetitions.
   */
  method BuildMapRepr(edges: seq<JEdge>) returns (m: Adjacency)
    ensures ListsSuccessors(m, edges)
    ensures Represents(m, edges)
  {
    m := map[];
    for i := 0 to |edges|
      invariant m.Keys == Sources(edges[..i])
      invariant forall u :: u in m ==> m[u] == SuccOf(edges[..i], u)
    {
      var e := edges[i];
      assert edges[..i + 1] == edges[..i] + [e];
      assert Sources(edges[..i + 1]) == Sources(edges[..i]) + {e.from};
      SuccOfEdges(edges[..i], e.from);
      var list := if e.from in m then m[e.from] else [];
      m := m[e.from := list + [e.to]];
    }
    assert edges[..|edges|] == edges;
    forall u, v ensures Arc(m, u, v) <==> HasEdge(edges, u, v) {
      SuccOfEdges(edges, u);
      if HasEdge(edges, u, v) {
        var d :| d in edges && d.from == u && d.to == v;
        assert u in Sources(edges);
      }
    }
  }

  // ---------------------------------------------------------------- paths

  /** Every node stored in the map's lists. */
  ghost function Values(m: Adjacency): set<string> {
    set u, k | u in m && 0 <= k < |m[u]| :: m[u][k]
  }

  /** `p` is a walk that starts with an arc out of `u`. */
  ghost predicate PathFrom(m: Adjacency, u: string, p: seq<string>) {
    && |p| > 0 && Arc(m, u, p[0])
    && forall k :: 0 <= k < |p| - 1 ==> Arc(m, p[k], p[k + 1])
  }

  /** The walk `p` ends on a node already on the stack `visited` or earlier on `p`. */
  ghost predicate ClosesOn(visited: seq<string>, p: seq<string>) {
    |p| > 0 && (p[|p| - 1] in visited || p[|p| - 1] in p[..|p| - 1])
  }

  /** No walk from `u` closes on `visited`. */
  ghost predicate NoWalkCloses(m: Adjacency, visited: seq<string>, u: string) {
    forall p :: PathFrom(m, u, p) ==> !ClosesOn(visited, p)
  }

  /** From `s`, pushed on top of `visited`, no walk closes. */
  ghost predicate Hopeless(m: Adjacency, visited: seq<string>, s: string) {
    s !in visited && NoWalkCloses(m, visited + [s], s)
  }

  /** A walk closing from `current` starts with some successor; if all of them are hopeless, none closes. */
  lemma {:induction false} NoClosingWalk(m: Adjacency, visited: seq<string>, current: string)
    requires current in m
    requires forall i :: 0 <= i < |m[current]| ==> Hopeless(m, visited, m[current][i])
    ensures NoWalkCloses(m, visited, current)
  {
    forall p | PathFrom(m, current, p) && |p| > 1 ensures !ClosesOn(visited, p) {
      var s := p[0];
      var i :| 0 <= i < |m[current]| && m[current][i] == s;
      assert Hopeless(m, visited, s);
      var p' := p[1..];
      assert PathFrom(m, s, p') by {
        forall k | 0 <= k < |p'| - 1 ensures Arc(m, p'[k], p'[k + 1]) {
          assert p'[k] == p[k + 1] && p'[k + 1] == p[k + 2];
        }
      }
      assert p[..|p| - 1] == [s] + p'[..|p'| - 1];
      assert p[|p| - 1] == p'[|p'| - 1];
    }
    forall p | PathFrom(m, current, p) && |p| == 1 ensures !ClosesOn(visited, p) {
      var i :| 0 <= i < |m[current]| && m[current][i] == p[0];
      assert Hopeless(m, visited, m[current][i]);
    }
  }

  /** A walk from `current` through `s` continued by a walk from `s`. */
  lemma {:induction false} PathCons(m: Adjacency, current: string, s: string, p: seq<string>)
    requires Arc(m, current, s) && PathFrom(m, s, p)
    ensures PathFrom(m, current, [s] + p)
  {
    var q := [s] + p;
    forall k | 0 <= k < |q| - 1 ensures Arc(m, q[k], q[k + 1]) {
      if k > 0 { assert q[k] == p[k - 1] && q[k + 1] == p[k]; }
    }
  }

  /**
   * `findBacktrack`: depth-first search from `current`, pushing each successor
   * tried on `visited` and popping it again when its search fails. It
   * succeeds as soon as it reaches a node already on the stack, and then the
   * stack ends with a walk from `current` whose last node occurs earlier.
   * When it fails, the stack is as it was and no walk from `current` reaches
   * the stack or repeats a node: the search is exhaustive.
   */
  method FindBacktrack(m: Adjacency, visited: seq<string>, current: string) returns (found: bool, after: seq<string>)
    ensures !found ==> after == visited
    ensures !found ==> NoWalkCloses(m, visited, current)
    ensures found ==> |visited| < |after| && after[..|visited|] == visited
    ensures found ==> PathFrom(m, current, after[|visited|..])
    ensures found ==> after[|after| - 1] in after[..|after| - 1]
    ensures found && NoDup(visited) ==> NoDup(after[..|after| - 1])
    decreases Values(m) - Elems(visited)
  {
    if current !in m {
      return false, visited;
    }
    var nextNodes := m[current];
    after := visited;
    var i := 0;
    while i < |nextNodes|
      invariant 0 <= i <= |nextNodes|
      invariant after == visited
      invariant forall j :: 0 <= j < i ==> Hopeless(m, visited, nextNodes[j])
    {
      var nextTry := nextNodes[i];
      if nextTry in after {
        after := after + [nextTry];
        assert after[..|visited|] == visited == after[..|after| - 1];
        assert after[|visited|..] == [nextTry];
        return true, after;
      }
      after := after + [nextTry];
      ElemsAppend(visited, nextTry);
      assert nextTry in Values(m);
      var ok;
      ok, after := FindBacktrack(m, after, nextTry);
      if ok {
        var pushed := visited + [nextTry];
        assert after[..|visited|] == pushed[..|visited|] == visited;
        assert after[|visited|..] == [nextTry] + after[|pushed|..];
        PathCons(m, current, nextTry, after[|pushed|..]);
        return true, after;
      }
      RemoveFirstAppended(visited, nextTry);
      after := RemoveFirst(after, nextTry);
      i := i + 1;
    }
    NoClosingWalk(m, visited, current);
    return false, after;
  }

  // ---------------------------------------------------------------- findCycle

  /** Going twice around the cycle `c` from its first arc gives a walk from `c[0]` that closes. */
  lemma {:induction false} CycleWalkCloses(m: Adjacency, c: seq<string>)
    requires |c| > 0
    requires forall t :: 0 <= t < |c| ==> Arc(m, c[t], c[Wrap(t, |c|)])
    ensures var p := c[1..] + [c[0], c[Wrap(0, |c|)]];
      PathFrom(m, c[0], p) && ClosesOn([], p)
  {
    var n := |c|;
    var p := c[1..] + [c[0], c[Wrap(0, n)]];
    assert p[0] == c[Wrap(0, n)];
    forall k | 0 <= k < |p| - 1 ensures Arc(m, p[k], p[k + 1]) {
      if k < n - 2 {
        assert p[k] == c[k + 1] && p[k + 1] == c[k + 2] && Wrap(k + 1, n) == k + 2;
      } else if k == n - 2 {
        assert p[k] == c[n - 1] && p[k + 1] == c[0] && Wrap(n - 1, n) == 0;
      } else {
        assert k == n - 1 && p[k] == c[0];
      }
    }
    assert p[|p| - 1] == p[..|p| - 1][0];
  }

  /** The cycle read off a successful search: the stack from the first occurrence of its last node, up to and excluding that last node. */
  lemma {:induction false} CycleOfStack(m: Adjacency, current: string, after: seq<string>)
    requires PathFrom(m, current, after)
    requires after[|after| - 1] in after[..|after| - 1]
    ensures var j := Position(after, after[|after| - 1]).value;
      j < |after| - 1
      && var c := after[j..|after| - 1];
         |c| > 0 && forall t :: 0 <= t < |c| ==> Arc(m, c[t], c[Wrap(t, |c|)])
  {
    var n := |after|;
    var last := after[n - 1];
    var j := Position(after, last).value;
    var k :| 0 <= k < n - 1 && after[..n - 1][k] == last;
    assert after[k] == last;
    var c := after[j..n - 1];
    forall t | 0 <= t < |c| ensures Arc(m, c[t], c[Wrap(t, |c|)]) {
      if t < |c| - 1 {
        assert c[t] == after[j + t] && c[t + 1] == after[j + t + 1];
      } else {
        assert c[t] == after[n - 2] && c[0] == after[j] == after[n - 1];
      }
    }
  }

  /** The stack from the first occurrence of its top entry, without that top entry. */
  function StackSuffix(after: seq<string>): (r: seq<string>)
    requires |after| > 0
    ensures |r| < |after| && r == after[|after| - 1 - |r|..|after| - 1]
    ensures r != [] ==> r[0] == after[|after| - 1]
  {
    var last := after[|after| - 1];
    var j := Position(after, last);
    if j.Some? && j.value < |after| then after[j.value..|after| - 1] else []
  }

  /** The cycle a successful search from the source of an edge leaves on the stack. */
  lemma {:induction false} StackCycle(es: seq<JEdge>, m: Adjacency, current: string, after: seq<string>)
    requires Represents(m, es)
    requires PathFrom(m, current, after) && NoDup(after[..|after| - 1])
    requires after[|after| - 1] in after[..|after| - 1]
    ensures IsCycle(StackSuffix(after), es) && NoDup(StackSuffix(after))
    ensures HasCycle(es)
  {
    CycleOfStack(m, current, after);
    var j := Position(after, after[|after| - 1]).value;
    var c := after[j..|after| - 1];
    assert c == after[..|after| - 1][j..];
    assert c == StackSuffix(after);
  }

  /** A cycle of the edges gives a closing walk from the source of one of them. */
  lemma {:induction false} CycleGivesClosingWalk(es: seq<JEdge>, m: Adjacency, c: seq<string>)
    requires Represents(m, es)
    requires IsCycle(c, es)
    ensures exists j, p :: 0 <= j < |es| && PathFrom(m, es[j].from, p) && ClosesOn([], p)
  {
    CycleWalkCloses(m, c);
    var e :| e in es && e.from == c[0] && e.to == c[Wrap(0, |c|)];
    var j :| 0 <= j < |es| && es[j] == e;
    var p := c[1..] + [c[0], c[Wrap(0, |c|)]];
    assert PathFrom(m, es[j].from, p) && ClosesOn([], p);
  }

  /** If no walk from any edge source closes, the edges have no cycle. */
  lemma {:induction false} NoClosingNoCycle(es: seq<JEdge>, m: Adjacency)
    requires Represents(m, es)
    requires forall j :: 0 <= j < |es| ==> NoWalkCloses(m, [], es[j].from)
    ensures !HasCycle(es)
  {
    if HasCycle(es) {
      var c :| IsCycle(c, es);
      CycleGivesClosingWalk(es, m, c);
    }
  }

  /**
   * `findCycle`: tries the source of each edge in turn. The result is a
   * cycle without repeated nodes when the edges have one, and empty
   * otherwise (the copy of the then empty stack).
   */
  method FindCycle(G: Graph) returns (cycle: seq<string>)
    ensures HasCycle(G.edges) ==> IsCycle(cycle, G.edges) && NoDup(cycle)
    ensures !HasCycle(G.edges) ==> cycle == []
  {
    var edges := G.edges;
    var mapRepr := BuildMapRepr(edges);
    var visited: seq<string> := [];
    for i := 0 to |edges|
      invariant visited == []
      invariant forall j :: 0 <= j < i ==> NoWalkCloses(mapRepr, [], edges[j].from)
    {
      var tryFirst := edges[i].from;
      var found;
      found, visited := FindBacktrack(mapRepr, visited, tryFirst);
      if found {
        assert visited[0..] == visited;
        StackCycle(edges, mapRepr, tryFirst, visited);
        return StackSuffix(visited);
      }
      // The stack is empty again, so the `IllegalStateException` check never fires.
      assert |visited| == 0;
    }
    NoClosingNoCycle(edges, mapRepr);
    cycle := visited;
  }
}
