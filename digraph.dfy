/**
 * The edge-list graph shared by the three implementations: a node set and a
 * flat list of directed edges, the queries and removals done on that list,
 * and what a cycle and a topological order of it are.
 */
module Digraph {
  import opened Wrappers

  /**
   * A directed edge. `id` is the identity an edge carries besides its
   * endpoints: the Java program's edges are `Node[]` arrays, which compare
   * by reference, so there `id` is an allocation number; the Rust `Edge`
   * compares by its endpoints, so there `id` is the unit value and two
   * parallel edges are equal values; a Python edge is its list of fields,
   * which compares by content, so there `id` is that whole list.
   */
  datatype Edge<I, N> = Edge(id: I, from: N, to: N)

  predicate NoDup<T(==,!new)>(s: seq<T>) {
    forall i, j :: 0 <= i < j < |s| ==> s[i] != s[j]
  }

  ghost function Elems<T(!new)>(s: seq<T>): set<T> {
    set x | x in s
  }

  lemma {:induction false} ElemsAppend<T(!new)>(s: seq<T>, x: T)
    ensures Elems(s + [x]) == Elems(s) + {x}
  {
    assert forall y :: y in s + [x] <==> y in s || y == x;
  }

  // ---------------------------------------------------------------- filtering

  /**
   * The elements of `s` that satisfy `p`, in their order in `s` and with
   * their multiplicity (Java and Rust `collect_edges`, Python's loop).
   */
  function Filter<E(==,!new)>(s: seq<E>, p: E -> bool): (r: seq<E>)
    ensures |r| <= |s|
    ensures forall x :: x in r <==> x in s && p(x)
  {
    if s == [] then []
    else
      assert s == [s[0]] + s[1..];
      (if p(s[0]) then [s[0]] else []) + Filter(s[1..], p)
  }

  /** Filtering keeps every copy of a selected element and none of the others. */
  lemma {:induction false} FilterCounts<E(!new)>(s: seq<E>, p: E -> bool)
    ensures forall x :: multiset(Filter(s, p))[x] == if p(x) then multiset(s)[x] else 0
  {
    if s != [] {
      FilterCounts(s[1..], p);
      assert s == [s[0]] + s[1..];
    }
  }

  /** Filtering distributes over concatenation, so it keeps the order of the list. */
  lemma {:induction false} FilterConcat<E(!new)>(a: seq<E>, b: seq<E>, p: E -> bool)
    ensures Filter(a + b, p) == Filter(a, p) + Filter(b, p)
  {
    if a == [] {
      assert a + b == b;
    } else {
      assert (a + b)[0] == a[0];
      assert (a + b)[1..] == a[1..] + b;
      FilterConcat(a[1..], b, p);
    }
  }

  /** The edges leaving `n`, in list order. */
  ghost function From<I(!new), N(!new)>(es: seq<Edge<I, N>>, n: N): (r: seq<Edge<I, N>>)
    ensures forall e :: e in r <==> e in es && e.from == n
  {
    Filter(es, (e: Edge<I, N>) => e.from == n)
  }

  /** The edges entering `n`, in list order. */
  ghost function Into<I(!new), N(!new)>(es: seq<Edge<I, N>>, n: N): (r: seq<Edge<I, N>>)
    ensures forall e :: e in r <==> e in es && e.to == n
  {
    Filter(es, (e: Edge<I, N>) => e.to == n)
  }

  /** `Into` keeps every copy of an edge into `n` and no other edge. */
  lemma {:induction false} IntoCounts<I(!new), N(!new)>(es: seq<Edge<I, N>>, n: N)
    ensures forall e :: multiset(Into(es, n))[e] == if e.to == n then multiset(es)[e] else 0
  {
    FilterCounts(es, (e: Edge<I, N>) => e.to == n);
  }

  /** Filtering depends only on which elements the criterion selects. */
  lemma {:induction false} FilterSame<E(!new)>(s: seq<E>, p: E -> bool, q: E -> bool)
    requires forall x :: p(x) == q(x)
    ensures Filter(s, p) == Filter(s, q)
  {
    if s != [] {
      FilterSame(s[1..], p, q);
    }
  }

  /** Filtering a list extended by one element extends the result by that element if it is selected. */
  lemma {:induction false} FilterSnoc<E(!new)>(s: seq<E>, x: E, p: E -> bool)
    ensures Filter(s + [x], p) == Filter(s, p) + if p(x) then [x] else []
  {
    FilterConcat(s, [x], p);
    assert [x][1..] == [];
  }

  /** A filter whose criterion is "leaves `n`" collects `From(es, n)`. */
  lemma {:induction false} FilterFrom<I(!new), N(!new)>(es: seq<Edge<I, N>>, p: Edge<I, N> -> bool, n: N)
    requires forall e :: p(e) == (e.from == n)
    ensures Filter(es, p) == From(es, n)
  {
    FilterSame(es, p, (e: Edge<I, N>) => e.from == n);
  }

  /** A filter whose criterion is "enters `n`" collects `Into(es, n)`. */
  lemma {:induction false} FilterInto<I(!new), N(!new)>(es: seq<Edge<I, N>>, p: Edge<I, N> -> bool, n: N)
    requires forall e :: p(e) == (e.to == n)
    ensures Filter(es, p) == Into(es, n)
  {
    FilterSame(es, p, (e: Edge<I, N>) => e.to == n);
  }

  /** The edges whose source is not in `D`, in list order. */
  ghost function Outside<I(!new), N(!new)>(es: seq<Edge<I, N>>, D: set<N>): (r: seq<Edge<I, N>>)
    ensures |r| <= |es|
    ensures forall e :: e in r <==> e in es && e.from !in D
  {
    Filter(es, (e: Edge<I, N>) => e.from !in D)
  }

  lemma {:induction false} OutsideNone<I(!new), N(!new)>(es: seq<Edge<I, N>>)
    ensures Outside(es, {}) == es
  {
    if es != [] {
      OutsideNone(es[1..]);
      assert es == [es[0]] + es[1..];
    }
  }

  /** Dropping the edges out of `D` and then those out of `n` drops those out of `D + {n}`. */
  lemma {:induction false} OutsideGrow<I(!new), N(!new)>(es: seq<Edge<I, N>>, D: set<N>, n: N)
    ensures Outside(Outside(es, D), {n}) == Outside(es, D + {n})
  {
    if es != [] {
      OutsideGrow(es[1..], D, n);
      var tail := Outside(es[1..], D);
      if es[0].from in D {
        assert Outside(es, D) == tail;
      } else {
        var mid := [es[0]] + tail;
        assert Outside(es, D) == mid;
        assert mid[0] == es[0] && mid[1..] == tail;
        assert Outside(mid, {n}) == (if es[0].from in {n} then [] else [es[0]]) + Outside(tail, {n});
      }
    }
  }

  // ---------------------------------------------------------------- removal

  /** The first index at which `x` occurs in `s`, if any (Rust `position`, Java `indexOf`). */
  function Position<E(==,!new)>(s: seq<E>, x: E): (r: Option<nat>)
    ensures r.Some? <==> x in s
    ensures r.Some? ==> r.value < |s| && s[r.value] == x && x !in s[..r.value]
  {
    if s == [] then None
    else if s[0] == x then Some(0)
    else
      match Position(s[1..], x)
      case None => None
      case Some(i) =>
        assert s[..i + 1] == [s[0]] + s[1..][..i];
        Some(i + 1)
  }

  /**
   * `s` without the first element equal to `x` (Java `List.remove(Object)`,
   * Python `list.remove`); `s` itself when there is none.
   */
  function RemoveFirst<E(==,!new)>(s: seq<E>, x: E): (r: seq<E>)
    ensures x in s ==> |r| == |s| - 1
    ensures x !in s ==> r == s
  {
    if s == [] then []
    else if s[0] == x then s[1..]
    else [s[0]] + RemoveFirst(s[1..], x)
  }

  /** Removal takes away one copy of `x` and leaves every other element's count as it was. */
  lemma {:induction false} RemoveFirstCounts<E(!new)>(s: seq<E>, x: E)
    ensures x in s ==> multiset(RemoveFirst(s, x)) == multiset(s) - multiset{x}
  {
    if s != [] {
      assert s == [s[0]] + s[1..];
      if s[0] != x {
        RemoveFirstCounts(s[1..], x);
      }
    }
  }

  /**
   * Removing the first equal element deletes exactly one position, the first
   * one holding `x`; the other elements keep their relative order.
   */
  lemma {:induction false} RemoveFirstAt<E(!new)>(s: seq<E>, x: E, i: nat)
    requires i < |s| && s[i] == x && x !in s[..i]
    ensures RemoveFirst(s, x) == s[..i] + s[i + 1..]
  {
    if i == 0 {
      assert s[0] == x;
    } else {
      assert s[0] != x by { assert s[..i][0] == s[0]; }
      assert x !in s[1..][..i - 1] by { assert s[1..][..i - 1] == s[1..i]; }
      RemoveFirstAt(s[1..], x, i - 1);
      assert s[..i] == [s[0]] + s[1..][..i - 1];
      assert s[i + 1..] == s[1..][i..];
    }
  }

  /** Pushing an element that was absent and then removing it restores the list. */
  lemma {:induction false} RemoveFirstAppended<E(!new)>(s: seq<E>, x: E)
    requires x !in s
    ensures RemoveFirst(s + [x], x) == s
  {
    if s != [] {
      assert (s + [x])[1..] == s[1..] + [x];
      RemoveFirstAppended(s[1..], x);
    }
  }

  // ---------------------------------------------------------------- endpoints

  /** The nodes some edge of `es` points to (Java and Rust `nodes_with_incoming`). */
  function Targets<I(==,!new), N(==,!new)>(es: seq<Edge<I, N>>): set<N> {
    set e | e in es :: e.to
  }

  ghost function Sources<I(!new), N(!new)>(es: seq<Edge<I, N>>): set<N> {
    set e | e in es :: e.from
  }

  /** Removing `x` can take away at most the node `x` points to from the targets. */
  lemma {:induction false} RemoveFirstTargets<I(!new), N(!new)>(s: seq<Edge<I, N>>, x: Edge<I, N>)
    requires x in s
    ensures Targets(RemoveFirst(s, x)) <= Targets(s)
    ensures Targets(s) - {x.to} <= Targets(RemoveFirst(s, x))
  {
    var r := RemoveFirst(s, x);
    RemoveFirstCounts(s, x);
    forall v | v in Targets(r) ensures v in Targets(s) {
      var e :| e in r && e.to == v;
      assert multiset(r)[e] > 0;
      assert e in s;
    }
    forall v | v in Targets(s) - {x.to} ensures v in Targets(r) {
      var e :| e in s && e.to == v;
      assert multiset(s)[e] > 0 && e != x;
      assert multiset(r)[e] == multiset(s)[e];
      assert e in r;
    }
  }

  /** Every edge has both endpoints in `V`. */
  ghost predicate Closed<I(!new), N(!new)>(V: set<N>, es: seq<Edge<I, N>>) {
    forall e :: e in es ==> e.from in V && e.to in V
  }

  // ---------------------------------------------------------------- cycles and orders

  ghost predicate HasEdge<I(!new), N(!new)>(es: seq<Edge<I, N>>, u: N, v: N) {
    exists e :: e in es && e.from == u && e.to == v
  }

  /** The position after `t` on a closed walk of length `n`. */
  function Wrap(t: nat, n: nat): (r: nat)
    requires t < n
    ensures r < n
  {
    if t + 1 < n then t + 1 else 0
  }

  /** `c` is a closed walk: each node has an edge to the next, and the last one to the first. */
  ghost predicate IsCycle<I(!new), N(!new)>(c: seq<N>, es: seq<Edge<I, N>>) {
    |c| > 0 && forall t :: 0 <= t < |c| ==> HasEdge(es, c[t], c[Wrap(t, |c|)])
  }

  ghost predicate HasCycle<I(!new), N(!new)>(es: seq<Edge<I, N>>) {
    exists c :: IsCycle(c, es)
  }

  ghost predicate Precedes<N(!new)>(L: seq<N>, u: N, v: N) {
    exists i, j :: 0 <= i < j < |L| && L[i] == u && L[j] == v
  }

  /** `L` lists every node of `V` once, and every edge goes from an earlier to a later node. */
  ghost predicate IsTopologicalOrder<I(!new), N(!new)>(L: seq<N>, V: set<N>, es: seq<Edge<I, N>>) {
    NoDup(L) && Elems(L) == V && forall e :: e in es ==> Precedes(L, e.from, e.to)
  }

  /** A cycle of some of the edges is a cycle of all of them. */
  lemma {:induction false} CycleOfSubset<I(!new), N(!new)>(c: seq<N>, es: seq<Edge<I, N>>, big: seq<Edge<I, N>>)
    requires forall e :: e in es ==> e in big
    requires IsCycle(c, es)
    ensures IsCycle(c, big)
  {
    forall t | 0 <= t < |c| ensures HasEdge(big, c[t], c[Wrap(t, |c|)]) {
      assert HasEdge(es, c[t], c[Wrap(t, |c|)]);
      var e :| e in es && e.from == c[t] && e.to == c[Wrap(t, |c|)];
      assert e in big;
    }
  }

  /** An edge from a node to itself is a cycle of length one. */
  lemma {:induction false} SelfLoopCycle<I(!new), N(!new)>(es: seq<Edge<I, N>>, e: Edge<I, N>)
    requires e in es && e.from == e.to
    ensures HasCycle(es)
  {
    assert IsCycle([e.from], es);
  }

  /** A cycle of a sub-list of edges is a cycle of the whole list. */
  lemma {:induction false} CycleInSuperset<I(!new), N(!new)>(es: seq<Edge<I, N>>, big: seq<Edge<I, N>>)
    requires forall e :: e in es ==> e in big
    requires HasCycle(es)
    ensures HasCycle(big)
  {
    var c :| IsCycle(c, es);
    CycleOfSubset(c, es, big);
  }

  /** A list of distinct elements of `V` is no longer than `V` is large. */
  lemma {:induction false} DistinctBound<T(!new)>(s: seq<T>, V: set<T>)
    requires NoDup(s) && Elems(s) <= V
    ensures |s| <= |V|
  {
    if s != [] {
      assert Elems(s[1..]) <= V - {s[0]} by {
        forall y | y in s[1..] ensures y != s[0] {
          var k :| 0 <= k < |s[1..]| && s[1..][k] == y;
          assert s[k + 1] == y;
        }
      }
      DistinctBound(s[1..], V - {s[0]});
    }
  }

  /** A list of elements of `V` longer than `V` is large repeats an element. */
  lemma {:induction false} Pigeonhole<T(!new)>(s: seq<T>, V: set<T>)
    requires forall k :: 0 <= k < |s| ==> s[k] in V
    requires |s| > |V|
    ensures exists i, j :: 0 <= i < j < |s| && s[i] == s[j]
  {
    if NoDup(s) {
      assert Elems(s) <= V;
      DistinctBound(s, V);
    }
  }

  lemma {:induction false} PrecedesPositions<N(!new)>(L: seq<N>, u: N, v: N)
    requires NoDup(L) && Precedes(L, u, v)
    ensures u in L && v in L && Position(L, u).value < Position(L, v).value
  {
    var i, j :| 0 <= i < j < |L| && L[i] == u && L[j] == v;
    var p, q := Position(L, u).value, Position(L, v).value;
    assert forall k :: 0 <= k < p ==> L[k] != u by {
      forall k | 0 <= k < p ensures L[k] != u { assert L[..p][k] == L[k]; }
    }
    assert forall k :: 0 <= k < q ==> L[k] != v by {
      forall k | 0 <= k < q ensures L[k] != v { assert L[..q][k] == L[k]; }
    }
  }

  /** A graph with a cycle has no topological order. */
  lemma {:induction false} CycleForbidsOrder<I(!new), N(!new)>(es: seq<Edge<I, N>>, L: seq<N>, V: set<N>)
    requires HasCycle(es)
    ensures !IsTopologicalOrder(L, V, es)
  {
    if IsTopologicalOrder(L, V, es) {
      var c :| IsCycle(c, es);
      forall t | 0 <= t < |c|
        ensures c[t] in L && c[Wrap(t, |c|)] in L
        ensures Position(L, c[t]).value < Position(L, c[Wrap(t, |c|)]).value
      {
        var e :| e in es && e.from == c[t] && e.to == c[Wrap(t, |c|)];
        PrecedesPositions(L, e.from, e.to);
      }
      assert Wrap(|c| - 1, |c|) == 0;
      assert Position(L, c[|c| - 1]).value < Position(L, c[0]).value;
      AscendingAlong(L, c, |c| - 1);
    }
  }

  /** Along a walk whose steps all move forward in `L`, the positions grow. */
  lemma {:induction false} AscendingAlong<N(!new)>(L: seq<N>, c: seq<N>, t: nat)
    requires 0 < |c| && t < |c|
    requires forall s :: 0 <= s < |c| ==> c[s] in L && c[Wrap(s, |c|)] in L
    requires forall s :: 0 <= s < |c| ==>
      Position(L, c[s]).value < Position(L, c[Wrap(s, |c|)]).value
    ensures Position(L, c[0]).value <= Position(L, c[t]).value
  {
    if t > 0 {
      AscendingAlong(L, c, t - 1);
      assert Wrap(t - 1, |c|) == t;
    }
  }

  /** A walk of `k` steps that can always be extended backwards: it ends anywhere, starts at a source. */
  lemma {:induction false} BackWalk<I(!new), N(!new)>(es: seq<Edge<I, N>>, V: set<N>, k: nat) returns (w: seq<N>)
    requires es != [] && Closed(V, es) && Sources(es) <= Targets(es)
    ensures |w| == k + 1 && w[0] in Sources(es)
    ensures forall t :: 0 <= t <= k ==> w[t] in V
    ensures forall t :: 0 <= t < k ==> HasEdge(es, w[t], w[t + 1])
  {
    if k == 0 {
      w := [es[0].from];
    } else {
      var w' := BackWalk(es, V, k - 1);
      assert w'[0] in Targets(es);
      var e :| e in es && e.to == w'[0];
      w := [e.from] + w';
      assert HasEdge(es, w[0], w[1]);
      forall t | 1 <= t < k ensures HasEdge(es, w[t], w[t + 1]) {
        assert w[t] == w'[t - 1] && w[t + 1] == w'[t];
      }
    }
  }

  /**
   * When every node with an outgoing edge also has an incoming one, a
   * non-empty edge list contains a cycle.
   */
  lemma {:induction false} ResidualHasCycle<I(!new), N(!new)>(es: seq<Edge<I, N>>, V: set<N>)
    requires es != [] && Closed(V, es) && Sources(es) <= Targets(es)
    ensures HasCycle(es)
  {
    var w := BackWalk(es, V, |V|);
    Pigeonhole(w, V);
    var i, j :| 0 <= i < j < |w| && w[i] == w[j];
    var c := w[i..j];
    forall t | 0 <= t < |c| ensures HasEdge(es, c[t], c[Wrap(t, |c|)]) {
      assert c[t] == w[i + t];
      if t + 1 < |c| {
        assert c[Wrap(t, |c|)] == w[i + t + 1];
      } else {
        assert c[Wrap(t, |c|)] == w[j];
      }
    }
    assert IsCycle(c, es);
  }
}
