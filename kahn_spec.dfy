/**
 * Kahn's algorithm as the three programs run it: the frontier set `S`, the
 * output list `L`, and the edge list that shrinks as the edges leaving each
 * emitted node are removed one by one. This module states the loop
 * invariants shared by the three loops and proves that each step keeps
 * them and what they give when the frontier runs empty.
 */
module KahnSpec {
  import opened Digraph

  /** `es` without the first `k` edges that leave `n`. */
  ghost function SkipFrom<I(!new), N(!new)>(es: seq<Edge<I, N>>, n: N, k: nat): seq<Edge<I, N>> {
    if es == [] then []
    else if es[0].from == n && k > 0 then SkipFrom(es[1..], n, k - 1)
    else [es[0]] + SkipFrom(es[1..], n, k)
  }

  lemma {:induction false} SkipFromNone<I(!new), N(!new)>(es: seq<Edge<I, N>>, n: N)
    ensures SkipFrom(es, n, 0) == es
  {
    if es != [] {
      SkipFromNone(es[1..], n);
      assert es == [es[0]] + es[1..];
    }
  }

  /**
   * Removing, by first-equal removal, the `k`-th collected edge out of `n`
   * from the list that already lacks the first `k` of them removes exactly
   * the next one: parallel copies are removed in list order.
   */
  lemma {:induction false} SkipFromStep<I(!new), N(!new)>(es: seq<Edge<I, N>>, n: N, k: nat)
    requires k < |From(es, n)|
    ensures From(es, n)[k] in SkipFrom(es, n, k)
    ensures RemoveFirst(SkipFrom(es, n, k), From(es, n)[k]) == SkipFrom(es, n, k + 1)
  {
    var t := From(es[1..], n);
    if es[0].from == n {
      assert From(es, n) == [es[0]] + t;
      if k == 0 {
        SkipFromNone(es, n);
        SkipFromNone(es[1..], n);
      } else {
        SkipFromStep(es[1..], n, k - 1);
      }
    } else {
      assert From(es, n) == [] + t == t;
      SkipFromStep(es[1..], n, k);
      var x := t[k];
      assert x in t;
      var rest := SkipFrom(es[1..], n, k);
      assert SkipFrom(es, n, k) == [es[0]] + rest;
      assert ([es[0]] + rest)[1..] == rest;
    }
  }

  /** Once every edge out of `n` has been removed, what is left is the list without them. */
  lemma {:induction false} SkipFromAll<I(!new), N(!new)>(es: seq<Edge<I, N>>, n: N)
    ensures SkipFrom(es, n, |From(es, n)|) == Outside(es, {n})
  {
    if es != [] {
      SkipFromAll(es[1..], n);
      if es[0].from == n {
        assert From(es, n) == [es[0]] + From(es[1..], n);
      } else {
        assert From(es, n) == [] + From(es[1..], n) == From(es[1..], n);
        assert Outside(es, {n}) == [es[0]] + Outside(es[1..], {n});
      }
    }
  }

  /**
   * Bookkeeping common to both loops: `L` lists distinct nodes; `S` holds
   * nodes not yet in `L` that no current edge points to; every node that is
   * in neither still has an incoming edge; no current edge points into `L`.
   */
  ghost predicate Frontier<I(!new), N(!new)>(V: set<N>, E: seq<Edge<I, N>>, S: set<N>, L: seq<N>) {
    && NoDup(L) && Elems(L) <= V
    && S <= V && S !! Elems(L)
    && S !! Targets(E)
    && V - Elems(L) - S <= Targets(E)
    && Targets(E) !! Elems(L)
  }

  /** Every original edge into a node of `L` comes from a node placed before it. */
  ghost predicate Ordered<I(!new), N(!new)>(L: seq<N>, E0: seq<Edge<I, N>>) {
    forall j, e :: 0 <= j < |L| && e in E0 && e.to == L[j] ==> e.from in L[..j]
  }

  /** The first node emitted has no incoming edge at all. */
  lemma {:induction false} OrderedHead<I(!new), N(!new)>(L: seq<N>, E0: seq<Edge<I, N>>)
    requires Ordered(L, E0) && L != []
    ensures L[0] in Elems(L)
    ensures forall e :: e in E0 ==> e.to != L[0]
  {
    assert L[..0] == [];
  }

  /** The invariant of the outer loop: the edges left are the original ones not leaving `L`. */
  ghost predicate Outer<I(!new), N(!new)>(V: set<N>, E0: seq<Edge<I, N>>, E: seq<Edge<I, N>>, S: set<N>, L: seq<N>) {
    && Closed(V, E0) && Frontier(V, E, S, L) && Ordered(L, E0)
    && E == Outside(E0, Elems(L))
  }

  /**
   * The invariant of the inner loop, which removes the edges `From(start, n)`
   * collected when `n` was appended to `L`: `k` of them are gone.
   */
  ghost predicate Inner<I(!new), N(!new)>(V: set<N>, E0: seq<Edge<I, N>>, start: seq<Edge<I, N>>, n: N, k: nat,
                                          E: seq<Edge<I, N>>, S: set<N>, L: seq<N>) {
    && Closed(V, E0) && Frontier(V, E, S, L) && Ordered(L, E0)
    && |L| > 0 && n == L[|L| - 1] && start == Outside(E0, Elems(L[..|L| - 1]))
    && k <= |From(start, n)| && E == SkipFrom(start, n, k)
  }

  /** The frontier starts as the nodes without incoming edges and `L` empty. */
  lemma {:induction false} KahnStart<I(!new), N(!new)>(V: set<N>, E0: seq<Edge<I, N>>)
    requires Closed(V, E0)
    ensures Outer(V, E0, E0, V - Targets(E0), [])
  {
    OutsideNone(E0);
    assert Elems<N>([]) == {};
  }

  /** Moving a frontier node `n` to the end of `L` starts the inner loop. */
  lemma {:induction false} KahnEmit<I(!new), N(!new)>(V: set<N>, E0: seq<Edge<I, N>>, E: seq<Edge<I, N>>, S: set<N>, L: seq<N>, n: N)
    requires Outer(V, E0, E, S, L) && n in S
    ensures n in V && n !in Elems(L)
    ensures Inner(V, E0, E, n, 0, E, S - {n}, L + [n])
  {
    var L' := L + [n];
    assert L'[..|L'| - 1] == L;
    ElemsAppend(L, n);
    assert NoDup(L') by {
      forall i, j | 0 <= i < j < |L'| ensures L'[i] != L'[j] {
        if j == |L| { assert L'[i] in Elems(L); }
      }
    }
    forall j, e | 0 <= j < |L'| && e in E0 && e.to == L'[j] ensures e.from in L'[..j] {
      if j < |L| {
        assert L'[j] == L[j] && L'[..j] == L[..j];
      } else {
        assert L'[..j] == L;
      }
    }
    SkipFromNone(E, n);
  }

  /** Removing the next collected edge, and adding its target to `S` if that was its last incoming edge, keeps the inner invariant. */
  lemma {:induction false} KahnRemove<I(!new), N(!new)>(V: set<N>, E0: seq<Edge<I, N>>, start: seq<Edge<I, N>>, n: N, k: nat,
                                     E: seq<Edge<I, N>>, S: set<N>, L: seq<N>)
    requires Inner(V, E0, start, n, k, E, S, L) && k < |From(start, n)|
    ensures var e := From(start, n)[k];
      && e in E && e.from == n && e.to in V
      && var E' := RemoveFirst(E, e);
         Inner(V, E0, start, n, k + 1, E', if e.to in Targets(E') then S else S + {e.to}, L)
  {
    var e := From(start, n)[k];
    SkipFromStep(start, n, k);
    assert e in start;
    var E' := RemoveFirst(E, e);
    RemoveFirstTargets(E, e);
    assert e.to in Targets(E);
  }

  /** When every collected edge is removed, the outer invariant holds again. */
  lemma {:induction false} KahnInnerDone<I(!new), N(!new)>(V: set<N>, E0: seq<Edge<I, N>>, start: seq<Edge<I, N>>, n: N, k: nat,
                                        E: seq<Edge<I, N>>, S: set<N>, L: seq<N>)
    requires Inner(V, E0, start, n, k, E, S, L) && k == |From(start, n)|
    ensures Outer(V, E0, E, S, L)
  {
    var before := L[..|L| - 1];
    SkipFromAll(start, n);
    OutsideGrow(E0, Elems(before), n);
    assert L == before + [n];
    ElemsAppend(before, n);
  }

  /**
   * When the frontier is empty: the edges left are those not leaving `L`;
   * none are left exactly when the original graph has no cycle, and then `L`
   * is a topological order of it; edges that are left contain a cycle.
   */
  lemma {:induction false} KahnDone<I(!new), N(!new)>(V: set<N>, E0: seq<Edge<I, N>>, E: seq<Edge<I, N>>, L: seq<N>)
    requires Outer(V, E0, E, {}, L)
    ensures |L| <= |V|
    ensures E == [] ==> IsTopologicalOrder(L, V, E0)
    ensures E != [] ==> HasCycle(E)
    ensures (E == []) == !HasCycle(E0)
  {
    DistinctBound(L, V);
    if E == [] {
      assert Targets(E) == {};
      assert V - Elems(L) == {};
      forall v | v in V ensures v in Elems(L) {
        assert v !in V - Elems(L);
      }
      assert Elems(L) == V;
      forall e | e in E0 ensures Precedes(L, e.from, e.to) {
        assert e.to in Elems(L);
        var j :| 0 <= j < |L| && L[j] == e.to;
        assert e.from in L[..j];
        var i :| 0 <= i < j && L[..j][i] == e.from;
        assert L[i] == e.from;
      }
      assert IsTopologicalOrder(L, V, E0);
      if HasCycle(E0) {
        CycleForbidsOrder(E0, L, V);
      }
    } else {
      assert Closed(V, E);
      forall u | u in Sources(E) ensures u in Targets(E) {
        var e :| e in E && e.from == u;
        assert u !in Elems(L);
      }
      ResidualHasCycle(E, V);
      CycleInSuperset(E, E0);
    }
  }
}
