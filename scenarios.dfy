/**
 * Small graphs read by the Java program, and what the sort and the cycle
 * finder must make of them: a triangle, a chain `1 2 3` with the shortcut `1 3`,
 * parallel edges and an empty file.
 */
module Scenarios {
  import opened Wrappers
  import opened Tokens
  import opened Digraph
  import opened KahnSpec
  import opened JavaGraph

  /** The edges read from the lines `1 2`, `2 3`, `3 1`. */
  const Triangle: seq<JEdge> := [Edge(0, "1", "2"), Edge(1, "2", "3"), Edge(2, "3", "1")]

  /** The edges read from the lines `1 2`, `2 3`, `1 3`. */
  const Shortcut: seq<JEdge> := [Edge(0, "1", "2"), Edge(1, "2", "3"), Edge(2, "1", "3")]

  /** The lines `u v` of the scenarios parse as edges from `u` to `v`. */
  lemma {:induction false} DigitLines(u: char, v: char)
    requires u !in Separators && v !in Separators && u != '#' && u != '%'
    ensures ParseLine([u, ' ', v]) == Fields2([u], [v])
  {
    ParseEdgeLine([u], ' ', [v], "");
    assert [u] + [' '] + [v] + "" == [u, ' ', v];
  }

  /** One more line read after the first `i` ones. */
  lemma {:induction false} LoadPrefix(lines: seq<string>, i: nat, g: Loaded)
    requires i < |lines| && Load(lines[..i]) == Ok(g)
    ensures Load(lines[..i + 1]) == AddLine(g, lines[i], i)
  {
    assert lines[..i + 1][..i] == lines[..i];
  }

  /** A line `u v` with two different names adds both names and the next edge. */
  lemma {:induction false} LoadEdgeLine(lines: seq<string>, i: nat, g: Loaded, u: char, v: char)
    requires u !in Separators && v !in Separators && u != '#' && u != '%' && u != v
    requires i < |lines| && lines[i] == [u, ' ', v] && Load(lines[..i]) == Ok(g)
    ensures Load(lines[..i + 1]) == Ok(Loaded(g.nodes + {[u], [v]}, g.edges + [Edge(|g.edges|, [u], [v])]))
  {
    DigitLines(u, v);
    LoadPrefix(lines, i, g);
  }

  /** The lines `1 2`, `2 3` that both the triangle and the shortcut start with. */
  lemma {:induction false} ChainPrefix(lines: seq<string>)
    requires |lines| >= 2 && lines[0] == "1 2" && lines[1] == "2 3"
    ensures Load(lines[..2]) == Ok(Loaded({"1", "2", "3"}, [Edge(0, "1", "2"), Edge(1, "2", "3")]))
  {
    var g1 := Loaded({"1", "2"}, [Edge(0, "1", "2")]);
    assert Load(lines[..1]) == Ok(g1) by {
      assert lines[..0] == [];
      LoadEdgeLine(lines, 0, Loaded({}, []), '1', '2');
      assert {} + {"1", "2"} == g1.nodes && [] + [Edge(0, "1", "2")] == g1.edges;
    }
    LoadEdgeLine(lines, 1, g1, '2', '3');
    assert g1.nodes + {"2", "3"} == {"1", "2", "3"};
    assert g1.edges + [Edge(1, "2", "3")] == [Edge(0, "1", "2"), Edge(1, "2", "3")];
  }

  /** The lines `1 2`, `2 3`, `3 1` read as the triangle. */
  lemma {:induction false} TriangleLoads(lines: seq<string>)
    requires |lines| == 3 && lines[0] == "1 2" && lines[1] == "2 3" && lines[2] == "3 1"
    ensures Load(lines) == Ok(Loaded({"1", "2", "3"}, Triangle))
  {
    ChainPrefix(lines);
    assert Triangle[..2] == [Edge(0, "1", "2"), Edge(1, "2", "3")];
    LoadEdgeLine(lines, 2, Loaded({"1", "2", "3"}, Triangle[..2]), '3', '1');
    assert {"1", "2", "3"} + {"3", "1"} == {"1", "2", "3"};
    assert Triangle[..2] + [Edge(2, "3", "1")] == Triangle;
    assert lines[..3] == lines;
  }

  /** The lines `1 2`, `2 3`, `1 3` read as the chain with its shortcut. */
  lemma {:induction false} ShortcutLoads(lines: seq<string>)
    requires |lines| == 3 && lines[0] == "1 2" && lines[1] == "2 3" && lines[2] == "1 3"
    ensures Load(lines) == Ok(Loaded({"1", "2", "3"}, Shortcut))
  {
    ChainPrefix(lines);
    assert Shortcut[..2] == [Edge(0, "1", "2"), Edge(1, "2", "3")];
    LoadEdgeLine(lines, 2, Loaded({"1", "2", "3"}, Shortcut[..2]), '1', '3');
    assert {"1", "2", "3"} + {"1", "3"} == {"1", "2", "3"};
    assert Shortcut[..2] + [Edge(2, "1", "3")] == Shortcut;
    assert lines[..3] == lines;
  }

  /** The triangle is a cycle, so no topological order of it exists. */
  lemma TriangleIsCyclic()
    ensures IsCycle(["1", "2", "3"], Triangle)
    ensures forall L :: !IsTopologicalOrder(L, {"1", "2", "3"}, Triangle)
  {
    var c := ["1", "2", "3"];
    assert HasEdge(Triangle, c[0], c[1]) by { assert Triangle[0] in Triangle; }
    assert HasEdge(Triangle, c[1], c[2]) by { assert Triangle[1] in Triangle; }
    assert HasEdge(Triangle, c[2], c[0]) by { assert Triangle[2] in Triangle; }
    assert forall t :: 0 <= t < 3 ==> HasEdge(Triangle, c[t], c[Wrap(t, 3)]);
    assert IsCycle(c, Triangle);
    forall L ensures !IsTopologicalOrder(L, {"1", "2", "3"}, Triangle) {
      CycleForbidsOrder(Triangle, L, {"1", "2", "3"});
    }
  }

  /**
   * Every node of the triangle has an incoming edge, so the sort can emit
   * none of them: a sequence emitted after all its predecessors is empty, and
   * all three edges remain.
   */
  lemma {:induction false} TriangleKeepsAllEdges(L: seq<string>)
    requires Elems(L) <= {"1", "2", "3"} && Ordered(L, Triangle)
    ensures L == [] && Outside(Triangle, Elems(L)) == Triangle
  {
    if L != [] {
      // `L[0]` would need a predecessor emitted before it.
      OrderedHead(L, Triangle);
      assert false;
    }
    OutsideNone(Triangle);
  }

  /** The one successor of each node of the triangle. */
  function Next(u: string): string {
    if u == "1" then "2" else if u == "2" then "3" else "1"
  }

  /** Along a cycle of the triangle each node is followed by its successor. */
  lemma {:induction false} TriangleStep(c: seq<string>, t: nat)
    requires IsCycle(c, Triangle) && t < |c|
    ensures c[t] in {"1", "2", "3"} && c[Wrap(t, |c|)] == Next(c[t])
  {
    assert HasEdge(Triangle, c[t], c[Wrap(t, |c|)]);
  }

  /** Each rotation of `1 2 3` is a simple cycle of the triangle. */
  lemma {:induction false} TriangleRotation(c: seq<string>)
    requires c == ["1", "2", "3"] || c == ["2", "3", "1"] || c == ["3", "1", "2"]
    ensures IsCycle(c, Triangle) && NoDup(c)
  {
    assert HasEdge(Triangle, "1", "2") by { assert Triangle[0] in Triangle; }
    assert HasEdge(Triangle, "2", "3") by { assert Triangle[1] in Triangle; }
    assert HasEdge(Triangle, "3", "1") by { assert Triangle[2] in Triangle; }
    forall t | 0 <= t < 3 ensures HasEdge(Triangle, c[t], c[Wrap(t, 3)]) {
      assert c[Wrap(t, 3)] == Next(c[t]);
    }
  }

  /** The simple cycles of the triangle are exactly the rotations of `1 2 3`. */
  lemma {:induction false} TriangleCycles(c: seq<string>)
    ensures IsCycle(c, Triangle) && NoDup(c) <==>
      c == ["1", "2", "3"] || c == ["2", "3", "1"] || c == ["3", "1", "2"]
  {
    if c == ["1", "2", "3"] || c == ["2", "3", "1"] || c == ["3", "1", "2"] {
      TriangleRotation(c);
    } else if IsCycle(c, Triangle) && NoDup(c) {
      TriangleCycleIsRotation(c);
    }
  }

  /** A simple cycle of the triangle is a rotation of `1 2 3`. */
  lemma {:induction false} TriangleCycleIsRotation(c: seq<string>)
    requires IsCycle(c, Triangle) && NoDup(c)
    ensures c == ["1", "2", "3"] || c == ["2", "3", "1"] || c == ["3", "1", "2"]
  {
    TriangleStep(c, 0);
    if |c| == 1 {
      assert false;
    } else if |c| == 2 {
      TriangleStep(c, 1);
      assert false;
    } else {
      TriangleStep(c, 1);
      TriangleStep(c, 2);
      if |c| > 3 {
        // Three steps lead back to the first node.
        assert false;
      }
    }
  }

  /**
   * With the shortcut `1 3` beside `1 2 3`, the graph is acyclic and `1 2 3`
   * is its one and only topological order, so the sort succeeds with it.
   */
  lemma {:induction false} ShortcutOrder(L: seq<string>)
    ensures IsTopologicalOrder(L, {"1", "2", "3"}, Shortcut) <==> L == ["1", "2", "3"]
    ensures !HasCycle(Shortcut)
  {
    var V, O := {"1", "2", "3"}, ["1", "2", "3"];
    assert IsTopologicalOrder(O, V, Shortcut) by {
      assert Precedes(O, "1", "2") by { assert O[0] == "1" && O[1] == "2"; }
      assert Precedes(O, "2", "3") by { assert O[1] == "2" && O[2] == "3"; }
      assert Precedes(O, "1", "3") by { assert O[0] == "1" && O[2] == "3"; }
      assert Elems(O) == V by { assert O[0] in O && O[1] in O && O[2] in O; }
    }
    if IsTopologicalOrder(L, V, Shortcut) {
      assert |L| <= 3 by { DistinctBound(L, V); }
      assert Precedes(L, "1", "2") by { assert Shortcut[0] in Shortcut; }
      assert Precedes(L, "2", "3") by { assert Shortcut[1] in Shortcut; }
      var i1, j2 :| 0 <= i1 < j2 < |L| && L[i1] == "1" && L[j2] == "2";
      var i2, j3 :| 0 <= i2 < j3 < |L| && L[i2] == "2" && L[j3] == "3";
      assert i2 == j2;
    }
    if HasCycle(Shortcut) {
      CycleForbidsOrder(Shortcut, O, V);
    }
  }

  /** Two lines naming the same edge give two edges, told apart by their numbers. */
  lemma {:induction false} ParallelEdgesLoad(lines: seq<string>)
    requires |lines| == 2 && lines[0] == "1 2" && lines[1] == "1 2"
    ensures Load(lines) == Ok(Loaded({"1", "2"}, [Edge(0, "1", "2"), Edge(1, "1", "2")]))
  {
    var g1 := Loaded({"1", "2"}, [Edge(0, "1", "2")]);
    assert Load(lines[..1]) == Ok(g1) by {
      assert lines[..0] == [];
      LoadEdgeLine(lines, 0, Loaded({}, []), '1', '2');
      assert {} + {"1", "2"} == g1.nodes && [] + [Edge(0, "1", "2")] == g1.edges;
    }
    LoadEdgeLine(lines, 1, g1, '1', '2');
    assert g1.nodes + {"1", "2"} == g1.nodes;
    assert g1.edges + [Edge(1, "1", "2")] == [Edge(0, "1", "2"), Edge(1, "1", "2")];
    assert lines[..2] == lines;
  }

  /** Removing the first of two parallel edges keeps the second. */
  lemma ParallelEdgesRemove()
    ensures RemoveFirst([Edge(0, "1", "2"), Edge(1, "1", "2")], Edge(0, "1", "2")) == [Edge(1, "1", "2")]
  {
    var es: seq<JEdge> := [Edge(0, "1", "2"), Edge(1, "1", "2")];
    RemoveFirstAt(es, es[0], 0);
    assert es[..0] + es[1..] == [Edge(1, "1", "2")];
  }

  /** An empty file has no nodes and no edges, and its only order is the empty one. */
  lemma {:induction false} EmptyFile(L: seq<string>)
    ensures Load([]) == Ok(Loaded({}, []))
    ensures IsTopologicalOrder<nat, string>(L, {}, []) <==> L == []
  {
    if L != [] {
      assert L[0] in Elems(L);
    }
  }
}
