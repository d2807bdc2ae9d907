/**
 * Reference definitions of the two traversals of src/graph.ts and the facts
 * proved about them. `DfsVisit` is `dfsRecursive` with its shared `visited`
 * set and `result` array passed along as values; `BfsLoop` is the `while`
 * loop of `bfs` with the queue as a sequence. Distances are measured with
 * `Ball(adj, s, n)`, the vertices at most `n` edges away from `s`.
 */
module Traversals {
  import opened Adjacency
  import opened Sequences

  /* ---------------- distance and reachability ---------------- */

  /** The vertices listed as neighbours of some vertex of `S`. */
  ghost function Neighbours<T>(adj: map<T, seq<T>>, S: set<T>): set<T> {
    set u, w | u in S && u in adj && w in adj[u] :: w
  }

  /** The vertices at most `n` edges away from `s`. */
  ghost function Ball<T>(adj: map<T, seq<T>>, s: T, n: nat): set<T> {
    if n == 0 then {s} else Ball(adj, s, n - 1) + Neighbours(adj, Ball(adj, s, n - 1))
  }

  ghost predicate Reachable<T>(adj: map<T, seq<T>>, s: T, u: T) {
    exists n: nat :: u in Ball(adj, s, n)
  }

  /**
   * Every vertex listed before another is at most as far from `s`: a vertex
   * within `n` edges is never listed after one that is farther.
   */
  ghost predicate LevelOrdered<T>(adj: map<T, seq<T>>, s: T, w: seq<T>) {
    forall i, j, n: nat :: 0 <= i < j < |w| && w[j] in Ball(adj, s, n) ==> w[i] in Ball(adj, s, n)
  }

  lemma {:induction false} BallMonotone<T>(adj: map<T, seq<T>>, s: T, m: nat, n: nat)
    requires m <= n
    ensures Ball(adj, s, m) <= Ball(adj, s, n)
  {
    if m < n {
      BallMonotone(adj, s, m, n - 1);
    }
  }

  lemma BallStep<T>(adj: map<T, seq<T>>, s: T, n: nat, u: T, w: T)
    requires u in Ball(adj, s, n) && u in adj && w in adj[u]
    ensures w in Ball(adj, s, n + 1)
  {
    assert w in Neighbours(adj, Ball(adj, s, n));
  }

  lemma ReachableStep<T>(adj: map<T, seq<T>>, s: T, u: T, w: T)
    requires Reachable(adj, s, u) && u in adj && w in adj[u]
    ensures Reachable(adj, s, w)
  {
    var n: nat :| u in Ball(adj, s, n);
    BallStep(adj, s, n, u, w);
  }

  /** A set that holds `s` and every neighbour of its members holds every vertex reachable from `s`. */
  lemma {:induction false} BallInsideClosedSet<T>(adj: map<T, seq<T>>, s: T, S: set<T>, n: nat)
    requires s in S
    requires forall u, w :: u in S && u in adj && w in adj[u] ==> w in S
    ensures Ball(adj, s, n) <= S
  {
    if n > 0 {
      BallInsideClosedSet(adj, s, S, n - 1);
    }
  }

  lemma {:induction false} BallInKeys<T>(adj: map<T, seq<T>>, s: T, n: nat)
    requires Closed(adj) && s in adj
    ensures Ball(adj, s, n) <= adj.Keys
  {
    if n > 0 {
      BallInKeys(adj, s, n - 1);
    }
  }

  /* ---------------- termination measure ---------------- */

  lemma FewerUnvisited<T>(K: set<T>, A: set<T>, B: set<T>)
    requires A <= B
    ensures |K - B| <= |K - A|
  {
    assert K - A == (K - B) + (K * (B - A));
    assert (K - B) * (K * (B - A)) == {};
  }

  /** Counting the unvisited vertices by subtraction. */
  lemma UnvisitedCount<T>(K: set<T>, A: set<T>)
    requires A <= K
    ensures |K - A| == |K| - |A|
  {
    assert K == (K - A) + A;
    assert (K - A) * A == {};
  }

  lemma StrictlyFewerUnvisited<T>(K: set<T>, A: set<T>, B: set<T>, x: T)
    requires A <= B && x in K && x in B && x !in A
    ensures |K - B| < |K - A|
  {
    assert K - A == (K - B) + (K * (B - A));
    assert (K - B) * (K * (B - A)) == {};
    assert x in K * (B - A);
  }

  /* ---------------- depth-first search ---------------- */

  /** `dfsRecursive(v, visited, result)`: mark `v`, list it, then walk its neighbours in order. */
  function DfsVisit<T(==)>(adj: map<T, seq<T>>, v: T, visited: set<T>, result: seq<T>): (r: (set<T>, seq<T>))
    requires Closed(adj) && v in adj && v !in visited && visited <= adj.Keys
    ensures visited + {v} <= r.0 <= adj.Keys
    decreases |adj.Keys - visited|, 0
  {
    StrictlyFewerUnvisited(adj.Keys, visited, visited + {v}, v);
    DfsNeighbours(adj, adj[v], visited + {v}, result + [v])
  }

  /** The `for` loop of `dfsRecursive`: recurse into each neighbour of `ns` not visited yet. */
  function DfsNeighbours<T(==)>(adj: map<T, seq<T>>, ns: seq<T>, visited: set<T>, result: seq<T>): (r: (set<T>, seq<T>))
    requires Closed(adj) && visited <= adj.Keys && Elements(ns) <= adj.Keys
    ensures visited <= r.0 <= adj.Keys
    decreases |adj.Keys - visited|, 1, |ns|
  {
    if ns == [] then (visited, result)
    else if ns[0] in visited then DfsNeighbours(adj, ns[1..], visited, result)
    else
      var r1 := DfsVisit(adj, ns[0], visited, result);
      FewerUnvisited(adj.Keys, visited, r1.0);
      DfsNeighbours(adj, ns[1..], r1.0, r1.1)
  }

  /** `dfs(start)`: the empty list for a missing start vertex. */
  function DfsOrder<T(==)>(adj: map<T, seq<T>>, s: T): seq<T>
    requires Closed(adj)
  {
    if s in adj then DfsVisit(adj, s, {}, []).1 else []
  }

  /**
   * What one visit adds: every new vertex is reachable from `root`, the list
   * grows by exactly the newly visited vertices, once each, and every newly
   * visited vertex has all of its neighbours visited.
   */
  lemma {:induction false} DfsVisitFacts<T>(adj: map<T, seq<T>>, root: T, v: T, visited: set<T>, result: seq<T>)
    requires Closed(adj) && v in adj && v !in visited && visited <= adj.Keys
    requires Distinct(result) && Elements(result) == visited
    requires Reachable(adj, root, v) && forall x :: x in visited ==> Reachable(adj, root, x)
    ensures var r := DfsVisit(adj, v, visited, result);
      && result + [v] <= r.1 && Distinct(r.1) && Elements(r.1) == r.0
      && (forall x :: x in r.0 ==> Reachable(adj, root, x))
      && (forall u, w :: u in r.0 && u !in visited && w in adj[u] ==> w in r.0)
    decreases |adj.Keys - visited|, 0
  {
    StrictlyFewerUnvisited(adj.Keys, visited, visited + {v}, v);
    forall w | w in adj[v] ensures Reachable(adj, root, w) {
      ReachableStep(adj, root, v, w);
    }
    assert Elements(result + [v]) == visited + {v};
    DfsNeighboursFacts(adj, root, adj[v], visited + {v}, result + [v]);
  }

  lemma {:induction false} DfsNeighboursFacts<T>(adj: map<T, seq<T>>, root: T, ns: seq<T>, visited: set<T>, result: seq<T>)
    requires Closed(adj) && visited <= adj.Keys && Elements(ns) <= adj.Keys
    requires Distinct(result) && Elements(result) == visited
    requires forall x :: x in visited ==> Reachable(adj, root, x)
    requires forall w :: w in ns ==> Reachable(adj, root, w)
    ensures var r := DfsNeighbours(adj, ns, visited, result);
      && result <= r.1 && Distinct(r.1) && Elements(r.1) == r.0
      && (forall x :: x in r.0 ==> Reachable(adj, root, x))
      && (forall u, w :: u in r.0 && u !in visited && w in adj[u] ==> w in r.0)
      && (forall w :: w in ns ==> w in r.0)
    decreases |adj.Keys - visited|, 1, |ns|
  {
    if ns == [] {
    } else if ns[0] in visited {
      DfsNeighboursFacts(adj, root, ns[1..], visited, result);
      assert forall w :: w in ns ==> w == ns[0] || w in ns[1..];
    } else {
      var r1 := DfsVisit(adj, ns[0], visited, result);
      DfsVisitFacts(adj, root, ns[0], visited, result);
      FewerUnvisited(adj.Keys, visited, r1.0);
      assert Elements(ns[1..]) <= adj.Keys && forall w :: w in ns[1..] ==> Reachable(adj, root, w) by {
        assert forall w :: w in ns[1..] ==> w in ns;
      }
      var r := DfsNeighbours(adj, ns[1..], r1.0, r1.1);
      DfsNeighboursFacts(adj, root, ns[1..], r1.0, r1.1);
      assert r == DfsNeighbours(adj, ns, visited, result);
      assert result <= r.1 by {
        assert result <= r1.1 <= r.1;
      }
      assert forall u, w :: u in r.0 && u !in visited && w in adj[u] ==> w in r.0 by {
        forall u, w | u in r.0 && u !in visited && w in adj[u] ensures w in r.0 {
          if u in r1.0 {
            assert w in r1.0;
          }
        }
      }
      assert forall w :: w in ns ==> w in r.0 by {
        assert forall w :: w in ns ==> w == ns[0] || w in ns[1..];
      }
    }
  }

  /**
   * From a start vertex of a closed graph, `dfs` lists the start vertex
   * first and every vertex reachable from it exactly once, and nothing else.
   */
  lemma DfsOrderCorrect<T>(adj: map<T, seq<T>>, s: T)
    requires Closed(adj) && s in adj
    ensures var r := DfsOrder(adj, s);
      && r != [] && r[0] == s && Distinct(r)
      && (forall u :: u in r <==> Reachable(adj, s, u))
  {
    assert s in Ball(adj, s, 0);
    DfsVisitFacts(adj, s, s, {}, []);
    var r := DfsVisit(adj, s, {}, []);
    assert [s] <= r.1;
    forall u | Reachable(adj, s, u) ensures u in r.1 {
      var n: nat :| u in Ball(adj, s, n);
      BallInsideClosedSet(adj, s, r.0, n);
    }
  }

  /* ---------------- breadth-first search ---------------- */

  /**
   * The `for` loop of `bfs`: mark and enqueue, in order, each neighbour of
   * `ns` not yet visited. It only appends to the queue, and what it appends
   * are neighbours from `ns` that were unvisited, once each.
   */
  function EnqueueUnvisited<T(==)>(ns: seq<T>, visited: set<T>, queue: seq<T>): (r: (set<T>, seq<T>))
    ensures |queue| <= |r.1| && r.1[..|queue|] == queue
    ensures forall i :: |queue| <= i < |r.1| ==> r.1[i] in ns && r.1[i] !in visited
    ensures Distinct(r.1[|queue|..])
    decreases |ns|
  {
    if ns == [] then (visited, queue)
    else if ns[0] in visited then EnqueueUnvisited(ns[1..], visited, queue)
    else
      var r := EnqueueUnvisited(ns[1..], visited + {ns[0]}, queue + [ns[0]]);
      assert r.1[|queue|..] == [ns[0]] + r.1[|queue| + 1..];
      r
  }

  /** The vertices the loop marks are exactly those it enqueues, and afterwards all of `ns` is marked. */
  lemma {:induction false} EnqueueUnvisitedMarks<T>(ns: seq<T>, visited: set<T>, queue: seq<T>)
    ensures EnqueueUnvisited(ns, visited, queue).0 == visited + Elements(EnqueueUnvisited(ns, visited, queue).1[|queue|..])
    ensures Elements(ns) <= EnqueueUnvisited(ns, visited, queue).0
    decreases |ns|
  {
    if ns == [] {
    } else if ns[0] in visited {
      EnqueueUnvisitedMarks(ns[1..], visited, queue);
      assert ns == [ns[0]] + ns[1..];
    } else {
      var q := queue + [ns[0]];
      var r := EnqueueUnvisited(ns[1..], visited + {ns[0]}, q);
      EnqueueUnvisitedMarks(ns[1..], visited + {ns[0]}, q);
      assert ns == [ns[0]] + ns[1..];
      assert r.1[|queue|..] == [ns[0]] + r.1[|q|..];
    }
  }

  /** Each round of the `while` loop of `bfs` visits a new vertex or shortens the queue. */
  lemma BfsProgress<T>(adj: map<T, seq<T>>, visited: set<T>, queue: seq<T>)
    requires Closed(adj) && visited <= adj.Keys && queue != [] && Elements(queue) <= visited
    ensures var next := EnqueueUnvisited(adj[queue[0]], visited, queue[1..]);
      && visited <= next.0 <= adj.Keys && Elements(next.1) <= next.0
      && (|adj.Keys - next.0| < |adj.Keys - visited|
          || (|adj.Keys - next.0| == |adj.Keys - visited| && |next.1| < |queue|))
  {
    var x := queue[0];
    var next := EnqueueUnvisited(adj[x], visited, queue[1..]);
    var k := |queue| - 1;
    assert next.1 == queue[1..] + next.1[k..];
    EnqueueUnvisitedMarks(adj[x], visited, queue[1..]);
    forall y | y in next.1[k..] ensures y in adj.Keys {
      var i :| k <= i < |next.1| && next.1[i] == y;
    }
    if |next.1| == k {
      assert next.0 == visited;
    } else {
      StrictlyFewerUnvisited(adj.Keys, visited, next.0, next.1[k]);
    }
  }

  /** The `while` loop of `bfs`: dequeue, list, enqueue the unvisited neighbours. */
  function BfsLoop<T(==)>(adj: map<T, seq<T>>, queue: seq<T>, visited: set<T>, result: seq<T>): seq<T>
    requires Closed(adj) && visited <= adj.Keys && Elements(queue) <= visited
    decreases |adj.Keys - visited|, |queue|
  {
    if queue == [] then result
    else
      var next := EnqueueUnvisited(adj[queue[0]], visited, queue[1..]);
      BfsProgress(adj, visited, queue);
      BfsLoop(adj, next.1, next.0, result + [queue[0]])
  }

  /** `bfs(start)`: the empty list for a missing start vertex. */
  function BfsOrder<T(==)>(adj: map<T, seq<T>>, s: T): seq<T>
    requires Closed(adj)
  {
    if s in adj then BfsLoop(adj, [s], {s}, []) else []
  }

  /**
   * The state of `bfs` at the top of its loop: listed vertices followed by
   * queued ones form a duplicate-free list starting at `s`, ordered by
   * distance, whose elements are the visited set; every listed vertex has
   * all of its neighbours visited; and the queue spans two adjacent levels.
   */
  ghost predicate BfsInvariant<T>(adj: map<T, seq<T>>, s: T, queue: seq<T>, visited: set<T>, result: seq<T>) {
    var w := result + queue;
    && Closed(adj) && s in adj && visited <= adj.Keys
    && w != [] && w[0] == s
    && Distinct(w)
    && visited == Elements(w)
    && (forall x :: x in visited ==> Reachable(adj, s, x))
    && (forall u, v :: u in result && u in adj && v in adj[u] ==> v in visited)
    && LevelOrdered(adj, s, w)
    && (forall n: nat, i :: 0 <= i < |queue| && queue[0] in Ball(adj, s, n) ==> queue[i] in Ball(adj, s, n + 1))
  }

  /**
   * When the front of the queue is more than `n` edges away, everything
   * within `n + 1` edges has already been visited.
   */
  lemma {:induction false} FrontierBound<T>(adj: map<T, seq<T>>, s: T, queue: seq<T>, visited: set<T>, result: seq<T>, n: nat)
    requires BfsInvariant(adj, s, queue, visited, result) && queue != []
    requires queue[0] !in Ball(adj, s, n)
    ensures Ball(adj, s, n + 1) <= visited
  {
    var w := result + queue;
    if n > 0 {
      BallMonotone(adj, s, n - 1, n);
      FrontierBound(adj, s, queue, visited, result, n - 1);
    } else {
      assert s in visited;
    }
    assert w[|result|] == queue[0];
    forall y | y in Ball(adj, s, n + 1) ensures y in visited {
      if y !in Ball(adj, s, n) {
        var u :| u in Ball(adj, s, n) && u in adj && y in adj[u];
        var k :| 0 <= k < |w| && w[k] == u;
        assert forall j :: |result| < j < |w| && w[j] in Ball(adj, s, n) ==> queue[0] in Ball(adj, s, n);
        assert k < |result|;
        assert u in result;
      }
    }
  }

  /** A vertex first seen while the front of the queue is `x` is one edge farther than `x`. */
  lemma NewVertexIsOneFurther<T>(adj: map<T, seq<T>>, s: T, queue: seq<T>, visited: set<T>, result: seq<T>, a: T, n: nat)
    requires BfsInvariant(adj, s, queue, visited, result) && queue != [] && a !in visited
    ensures a in Ball(adj, s, n) ==> n >= 1 && queue[0] in Ball(adj, s, n - 1)
  {
    assert (result + queue)[0] in visited;
    if n >= 1 && queue[0] !in Ball(adj, s, n - 1) {
      FrontierBound(adj, s, queue, visited, result, n - 1);
    }
  }

  /** Appending the newly found neighbours of the front keeps the whole list ordered by distance. */
  lemma AppendLevelOrdered<T>(adj: map<T, seq<T>>, s: T, queue: seq<T>, visited: set<T>, result: seq<T>, added: seq<T>)
    requires BfsInvariant(adj, s, queue, visited, result) && queue != []
    requires forall i :: 0 <= i < |added| ==> added[i] in adj[queue[0]] && added[i] !in visited
    ensures LevelOrdered(adj, s, result + queue + added)
  {
    var w := result + queue;
    var w' := w + added;
    var x := queue[0];
    assert x in adj;
    forall i, j, n: nat | 0 <= i < j < |w'| && w'[j] in Ball(adj, s, n) ensures w'[i] in Ball(adj, s, n) {
      if j >= |w| {
        NewVertexIsOneFurther(adj, s, queue, visited, result, w'[j], n);
        BallMonotone(adj, s, n - 1, n);
        if i < |w| {
          assert w[|result|] == x;
          if i > |result| {
            assert queue[i - |result|] == w[i];
          }
        } else {
          BallStep(adj, s, n - 1, x, w'[i]);
        }
      }
    }
  }

  /** After one round the new queue still spans two adjacent levels. */
  lemma QueueSpanStep<T>(adj: map<T, seq<T>>, s: T, queue: seq<T>, visited: set<T>, result: seq<T>, added: seq<T>)
    requires BfsInvariant(adj, s, queue, visited, result) && queue != []
    requires forall i :: 0 <= i < |added| ==> added[i] in adj[queue[0]] && added[i] !in visited
    ensures var q := queue[1..] + added;
      forall n: nat, i :: 0 <= i < |q| && q[0] in Ball(adj, s, n) ==> q[i] in Ball(adj, s, n + 1)
  {
    var q := queue[1..] + added;
    var w := result + queue;
    var x := queue[0];
    assert x in adj;
    forall n: nat, i | 0 <= i < |q| && q[0] in Ball(adj, s, n) ensures q[i] in Ball(adj, s, n + 1) {
      if |queue| > 1 {
        assert w[|result|] == x && w[|result| + 1] == q[0];
        assert x in Ball(adj, s, n);
        if i < |queue| - 1 {
          assert q[i] == queue[i + 1];
        } else {
          BallStep(adj, s, n, x, q[i]);
        }
      } else {
        NewVertexIsOneFurther(adj, s, queue, visited, result, q[0], n);
        BallStep(adj, s, n - 1, x, q[i]);
        BallMonotone(adj, s, n, n + 1);
      }
    }
  }

  lemma DistinctAppend<T>(w: seq<T>, added: seq<T>)
    requires Distinct(w) && Distinct(added)
    requires forall i :: 0 <= i < |added| ==> added[i] !in Elements(w)
    ensures Distinct(w + added)
  {
    var w' := w + added;
    forall i, j | 0 <= i < j < |w'| ensures w'[i] != w'[j] {
      if j >= |w| && i < |w| {
        assert w'[j] == added[j - |w|];
        assert w'[i] in Elements(w);
      }
    }
  }

  /** One round of the loop keeps the invariant. */
  lemma BfsStep<T>(adj: map<T, seq<T>>, s: T, queue: seq<T>, visited: set<T>, result: seq<T>)
    requires BfsInvariant(adj, s, queue, visited, result) && queue != []
    ensures var next := EnqueueUnvisited(adj[queue[0]], visited, queue[1..]);
      BfsInvariant(adj, s, next.1, next.0, result + [queue[0]])
  {
    var x := queue[0];
    assert x in adj by { assert (result + queue)[|result|] == x; }
    var next := EnqueueUnvisited(adj[x], visited, queue[1..]);
    var k := |queue| - 1;
    var added := next.1[k..];
    var w := result + queue;
    var w' := (result + [x]) + next.1;
    assert next.1 == queue[1..] + added;
    assert w' == w + added;
    assert forall i :: 0 <= i < |added| ==> added[i] in adj[x] && added[i] !in visited by {
      forall i | 0 <= i < |added| ensures added[i] in adj[x] && added[i] !in visited {
        assert added[i] == next.1[k + i];
      }
    }
    assert Distinct(w') by {
      DistinctAppend(w, added);
    }
    EnqueueUnvisitedMarks(adj[x], visited, queue[1..]);
    assert next.0 == Elements(w') by {
      assert Elements(w') == Elements(w) + Elements(added);
    }
    assert forall y :: y in next.0 ==> Reachable(adj, s, y) by {
      forall y | y in next.0 ensures Reachable(adj, s, y) {
        if y !in visited {
          var i :| 0 <= i < |added| && added[i] == y;
          ReachableStep(adj, s, x, y);
        }
      }
    }
    assert LevelOrdered(adj, s, w') by {
      AppendLevelOrdered(adj, s, queue, visited, result, added);
    }
    assert forall n: nat, i :: 0 <= i < |next.1| && next.1[0] in Ball(adj, s, n) ==> next.1[i] in Ball(adj, s, n + 1) by {
      QueueSpanStep(adj, s, queue, visited, result, added);
    }
    assert forall u, v :: u in result + [x] && u in adj && v in adj[u] ==> v in next.0 by {
      assert forall u :: u in result + [x] ==> u in result || u == x;
    }
    BfsProgress(adj, visited, queue);
  }

  lemma {:induction false} BfsLoopFacts<T>(adj: map<T, seq<T>>, s: T, queue: seq<T>, visited: set<T>, result: seq<T>)
    requires BfsInvariant(adj, s, queue, visited, result)
    ensures var r := BfsLoop(adj, queue, visited, result);
      && r != [] && r[0] == s && Distinct(r) && LevelOrdered(adj, s, r)
      && (forall u :: u in r ==> Reachable(adj, s, u))
      && (forall n: nat :: Ball(adj, s, n) <= Elements(r))
    decreases |adj.Keys - visited|, |queue|
  {
    if queue == [] {
      assert result + queue == result;
      forall n: nat ensures Ball(adj, s, n) <= Elements(result) {
        BallInsideClosedSet(adj, s, Elements(result), n);
      }
    } else {
      BfsStep(adj, s, queue, visited, result);
      BfsProgress(adj, visited, queue);
      var next := EnqueueUnvisited(adj[queue[0]], visited, queue[1..]);
      BfsLoopFacts(adj, s, next.1, next.0, result + [queue[0]]);
    }
  }

  /**
   * From a start vertex of a closed graph, `bfs` lists the start vertex
   * first, every vertex reachable from it exactly once and nothing else,
   * in order of non-decreasing distance from the start.
   */
  lemma BfsOrderCorrect<T>(adj: map<T, seq<T>>, s: T)
    requires Closed(adj) && s in adj
    ensures var r := BfsOrder(adj, s);
      && r != [] && r[0] == s && Distinct(r) && LevelOrdered(adj, s, r)
      && (forall u :: u in r <==> Reachable(adj, s, u))
  {
    assert s in Ball(adj, s, 0);
    assert Elements([s]) == {s};
    BfsLoopFacts(adj, s, [s], {s}, []);
    var r := BfsOrder(adj, s);
    forall u | Reachable(adj, s, u) ensures u in r {
      var n: nat :| u in Ball(adj, s, n);
    }
  }
}
