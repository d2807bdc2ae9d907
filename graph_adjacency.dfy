/**
 * The value behind a graph of src/graph.ts: a map from each vertex to the
 * ordered list of its neighbours, with the invariants that every mutator of
 * the graph keeps.
 */
module Adjacency {

  /** Every neighbour entry is itself a vertex. */
  ghost predicate Closed<T>(adj: map<T, seq<T>>) {
    forall v, w :: v in adj && w in adj[v] ==> w in adj
  }

  /** The graph is undirected: `v` lists `u` exactly when `u` lists `v`. */
  ghost predicate Symmetric<T>(adj: map<T, seq<T>>) {
    forall u, v :: u in adj && v in adj ==> (v in adj[u] <==> u in adj[v])
  }

  ghost predicate Wellformed<T>(adj: map<T, seq<T>>) {
    Closed(adj) && Symmetric(adj)
  }

  /** `s` with every occurrence of `x` dropped and the rest in their order (`filter(v => v !== x)`). */
  function Without<T(==)>(s: seq<T>, x: T): (r: seq<T>)
    ensures multiset(r) == multiset(s)[x := 0]
    ensures x !in s ==> r == s
  {
    if s == [] then []
    else
      assert s == [s[0]] + s[1..];
      assert multiset(s) == multiset{s[0]} + multiset(s[1..]);
      if s[0] == x then Without(s[1..], x)
      else [s[0]] + Without(s[1..], x)
  }

  /** Filtering distributes over concatenation, so the kept entries stay in their order. */
  lemma {:induction false} WithoutConcat<T>(s: seq<T>, t: seq<T>, x: T)
    ensures Without(s + t, x) == Without(s, x) + Without(t, x)
  {
    if s == [] {
      assert s + t == t;
    } else {
      assert (s + t)[1..] == s[1..] + t;
      WithoutConcat(s[1..], t, x);
    }
  }
  /** An entry survives the filter exactly when it was there and is not `x`. */
  lemma WithoutMembership<T>(s: seq<T>, x: T, y: T)
    ensures y in Without(s, x) <==> y in s && y != x
  {
    assert y in Without(s, x) <==> y in multiset(Without(s, x));
    assert y in s <==> y in multiset(s);
  }

  /** `removeEdge`: dropping both directions of an edge keeps the graph closed and undirected. */
  lemma RemoveEdgeWellformed<T>(adj: map<T, seq<T>>, u: T, v: T)
    requires Wellformed(adj) && u in adj && v in adj
    ensures var a1 := adj[u := Without(adj[u], v)];
      Wellformed(a1[v := Without(a1[v], u)])
  {
    var a1 := adj[u := Without(adj[u], v)];
    var a2 := a1[v := Without(a1[v], u)];
    assert a2.Keys == adj.Keys;
    forall x, y | x in a2 && y in a2[x] ensures y in a2 && y in adj[x] {
      if x == v {
        WithoutMembership(a1[v], u, y);
        if v == u { WithoutMembership(adj[u], v, y); }
      } else if x == u {
        WithoutMembership(adj[u], v, y);
      }
    }
    forall x, y | x in a2 && y in a2 ensures y in a2[x] <==> x in a2[y] {
      if x == v { WithoutMembership(a1[v], u, y); }
      if x == u { WithoutMembership(adj[u], v, y); }
      if y == v { WithoutMembership(a1[v], u, x); }
      if y == u { WithoutMembership(adj[u], v, x); }
    }
  }
  /** Part way through `removeVertex(x)`: exactly the vertices in `done` have had `x` filtered out. */
  ghost predicate ClearedFor<T>(adj0: map<T, seq<T>>, adj: map<T, seq<T>>, x: T, done: seq<T>) {
    && adj.Keys == adj0.Keys
    && forall u :: u in adj0 && u != x ==>
         adj[u] == if u in done then Without(adj0[u], x) else adj0[u]
  }

  /** One `removeEdge(x, n)` of the loop in `removeVertex` extends the cleared prefix by `n`. */
  lemma ClearedStep<T>(adj0: map<T, seq<T>>, before: map<T, seq<T>>, after: map<T, seq<T>>, x: T, done: seq<T>, n: T)
    requires ClearedFor(adj0, before, x, done) && after.Keys == before.Keys && n in before
    requires n != x ==> after[n] == Without(before[n], x)
    requires forall u :: u in before && u != x && u != n ==> after[u] == before[u]
    ensures ClearedFor(adj0, after, x, done + [n])
  {
    forall u | u in adj0 && u != x
      ensures after[u] == if u in done + [n] then Without(adj0[u], x) else adj0[u]
    {
      if u == n && u in done {
        WithoutMembership(adj0[u], x, x);
      }
    }
  }

  /**
   * After the loop of `removeVertex(x)` over all of `x`'s neighbours, the
   * other lists are the old ones with `x` filtered out, and none names `x`.
   */
  lemma ClearedAll<T>(adj0: map<T, seq<T>>, adj: map<T, seq<T>>, x: T)
    requires Wellformed(adj0) && x in adj0 && ClearedFor(adj0, adj, x, adj0[x])
    ensures adj - {x} == map u | u in adj0 && u != x :: Without(adj0[u], x)
    ensures forall u :: u in adj0 && u != x ==> x !in (adj - {x})[u]
  {
    forall u | u in adj0 && u != x
      ensures adj[u] == Without(adj0[u], x) && x !in adj[u]
    {
      WithoutMembership(adj0[u], x, x);
    }
  }
}
