/**
 * The undirected graph of src/graph.ts: a map from each vertex to the ordered
 * list of its neighbours, changed in place by the mutators, with a
 * breadth-first traversal driven by the library's own `Queue` and a
 * recursive depth-first traversal.
 */
module Graphs {
  import opened Wrappers
  import opened Sequences
  import opened Adjacency
  import opened Traversals
  import opened Queues

  class Graph<T(==)> {
    var adjacencyList: map<T, seq<T>>

    /** Every neighbour is a vertex, and edges go both ways. */
    ghost predicate Valid()
      reads this
    {
      Wellformed(adjacencyList)
    }

    constructor ()
      ensures Valid() && adjacencyList == map[]
    {
      adjacencyList := map[];
    }

    /** Adds `vertex` with no neighbours; false, with nothing changed, when it is already present. */
    method AddVertex(vertex: T) returns (added: bool)
      requires Valid()
      modifies this
      ensures Valid()
      ensures added <==> vertex !in old(adjacencyList)
      ensures added ==> adjacencyList == old(adjacencyList)[vertex := []]
      ensures !added ==> adjacencyList == old(adjacencyList)
    {
      if vertex !in adjacencyList {
        adjacencyList := adjacencyList[vertex := []];
        return true;
      }
      return false;
    }

    /**
     * Appends each endpoint to the other's neighbour list, without looking for
     * an existing edge; false, with nothing changed, when an endpoint is missing.
     */
    method AddEdge(vertex1: T, vertex2: T) returns (ok: bool)
      requires Valid()
      modifies this
      ensures Valid()
      ensures ok <==> vertex1 in old(adjacencyList) && vertex2 in old(adjacencyList)
      ensures !ok ==> adjacencyList == old(adjacencyList)
      ensures ok ==> adjacencyList.Keys == old(adjacencyList).Keys
      ensures ok && vertex1 != vertex2 ==>
        && adjacencyList[vertex1] == old(adjacencyList)[vertex1] + [vertex2]
        && adjacencyList[vertex2] == old(adjacencyList)[vertex2] + [vertex1]
      ensures ok && vertex1 == vertex2 ==>
        adjacencyList[vertex1] == old(adjacencyList)[vertex1] + [vertex1, vertex1]
      ensures forall u :: u in old(adjacencyList) && u != vertex1 && u != vertex2 ==>
        adjacencyList[u] == old(adjacencyList)[u]
    {
      if vertex1 in adjacencyList && vertex2 in adjacencyList {
        adjacencyList := adjacencyList[vertex1 := adjacencyList[vertex1] + [vertex2]];
        adjacencyList := adjacencyList[vertex2 := adjacencyList[vertex2] + [vertex1]];
        return true;
      }
      return false;
    }

    /**
     * Drops every copy of each endpoint from the other's neighbour list; true
     * whenever both vertices are present, whether or not they were adjacent.
     */
    method RemoveEdge(vertex1: T, vertex2: T) returns (ok: bool)
      requires Valid()
      modifies this
      ensures Valid()
      ensures ok <==> vertex1 in old(adjacencyList) && vertex2 in old(adjacencyList)
      ensures !ok ==> adjacencyList == old(adjacencyList)
      ensures ok ==> adjacencyList.Keys == old(adjacencyList).Keys
      ensures ok ==>
        && adjacencyList[vertex1] == Without(old(adjacencyList)[vertex1], vertex2)
        && adjacencyList[vertex2] == Without(old(adjacencyList)[vertex2], vertex1)
      ensures forall u :: u in old(adjacencyList) && u != vertex1 && u != vertex2 ==>
        adjacencyList[u] == old(adjacencyList)[u]
    {
      if vertex1 in adjacencyList && vertex2 in adjacencyList {
        RemoveEdgeWellformed(adjacencyList, vertex1, vertex2);
        var v1Neighbors := adjacencyList[vertex1];
        adjacencyList := adjacencyList[vertex1 := Without(v1Neighbors, vertex2)];
        var v2Neighbors := adjacencyList[vertex2];
        adjacencyList := adjacencyList[vertex2 := Without(v2Neighbors, vertex1)];
        return true;
      }
      return false;
    }

    /**
     * Removes the edges to each neighbour in the list read at the start, then
     * the vertex itself; false, with nothing changed, when it is absent.
     */
    method RemoveVertex(vertex: T) returns (ok: bool)
      requires Valid()
      modifies this
      ensures Valid()
      ensures ok <==> vertex in old(adjacencyList)
      ensures !ok ==> adjacencyList == old(adjacencyList)
      ensures ok ==> adjacencyList == map u | u in old(adjacencyList) && u != vertex :: Without(old(adjacencyList)[u], vertex)
      ensures forall u :: u in adjacencyList ==> vertex !in adjacencyList[u]
    {
      if vertex !in adjacencyList {
        return false;
      }
      var neighbors := adjacencyList[vertex];
      ghost var adj0 := adjacencyList;
      for i := 0 to |neighbors|
        invariant Valid()
        invariant ClearedFor(adj0, adjacencyList, vertex, neighbors[..i])
      {
        assert neighbors[..i + 1] == neighbors[..i] + [neighbors[i]];
        ghost var before := adjacencyList;
        var _ := RemoveEdge(vertex, neighbors[i]);
        ClearedStep(adj0, before, adjacencyList, vertex, neighbors[..i], neighbors[i]);
      }
      assert neighbors[..|neighbors|] == neighbors;
      ClearedAll(adj0, adjacencyList, vertex);
      adjacencyList := adjacencyList - {vertex};
      return true;
    }

    /** Breadth-first order from `startVertex`; [] when it is not a vertex. */
    method Bfs(startVertex: T) returns (result: seq<T>)
      requires Valid()
      ensures result == BfsOrder(adjacencyList, startVertex)
      ensures startVertex !in adjacencyList ==> result == []
      ensures startVertex in adjacencyList ==>
        && result != [] && result[0] == startVertex && Distinct(result)
        && (forall u :: u in result <==> Reachable(adjacencyList, startVertex, u))
        && LevelOrdered(adjacencyList, startVertex, result)
    {
      if startVertex !in adjacencyList {
        return [];
      }
      result := BreadthFirst(adjacencyList, startVertex);
      BfsOrderCorrect(adjacencyList, startVertex);
    }

    /** Depth-first pre-order from `startVertex`; [] when it is not a vertex. */
    method Dfs(startVertex: T) returns (result: seq<T>)
      requires Valid()
      ensures result == DfsOrder(adjacencyList, startVertex)
      ensures startVertex !in adjacencyList ==> result == []
      ensures startVertex in adjacencyList ==>
        && result != [] && result[0] == startVertex && Distinct(result)
        && (forall u :: u in result <==> Reachable(adjacencyList, startVertex, u))
    {
      if startVertex !in adjacencyList {
        return [];
      }
      var visited;
      visited, result := DfsRecursive(startVertex, {}, []);
      DfsOrderCorrect(adjacencyList, startVertex);
    }

    /** Marks and lists `vertex`, then recurses into each neighbour not yet visited, in list order. */
    method DfsRecursive(vertex: T, visited: set<T>, result: seq<T>) returns (visited': set<T>, result': seq<T>)
      requires Valid() && vertex in adjacencyList && vertex !in visited && visited <= adjacencyList.Keys
      ensures (visited', result') == DfsVisit(adjacencyList, vertex, visited, result)
      decreases |adjacencyList.Keys - visited|
    {
      visited' := visited + {vertex};
      result' := result + [vertex];
      StrictlyFewerUnvisited(adjacencyList.Keys, visited, visited', vertex);

      var neighbors := adjacencyList[vertex];
      for i := 0 to |neighbors|
        invariant visited + {vertex} <= visited' <= adjacencyList.Keys
        invariant DfsNeighbours(adjacencyList, neighbors[i..], visited', result')
               == DfsNeighbours(adjacencyList, neighbors, visited + {vertex}, result + [vertex])
      {
        assert neighbors[i..][1..] == neighbors[i + 1..];
        var neighbor := neighbors[i];
        if neighbor !in visited' {
          FewerUnvisited(adjacencyList.Keys, visited + {vertex}, visited');
          visited', result' := DfsRecursive(neighbor, visited', result');
        }
      }
      assert neighbors[|neighbors|..] == [];
    }
  }
  /** The body of `bfs` once the start vertex is known to exist, driven by a fresh `Queue`. */
  method BreadthFirst<T(==)>(adj: map<T, seq<T>>, startVertex: T) returns (result: seq<T>)
    requires Closed(adj) && startVertex in adj
    ensures result == BfsOrder(adj, startVertex)
  {
      var queue := new Queue<T>();
      var visited: set<T> := {};
      result := [];
      queue.Enqueue(startVertex);
      visited := visited + {startVertex};
      assert Elements(queue.Contents()) == visited;
      ghost var order := BfsOrder(adj, startVertex);

      UnvisitedCount(adj.Keys, visited);

      while !queue.IsEmpty()
        invariant queue.Valid() && fresh(queue.Repr)
        invariant visited <= adj.Keys && |visited| <= |adj.Keys| && Elements(queue.Contents()) <= visited
        invariant BfsLoop(adj, queue.Contents(), visited, result) == order
        decreases |adj.Keys| - |visited|, |queue.Contents()|
      {
        visited, result := BfsRound(adj, queue, visited, result);
      }
  }

  /**
   * The `for` loop inside `bfs`: marks and enqueues, in list order, each of
   * `neighbors` not yet visited; the queue and the marks end as
   * `EnqueueUnvisited` says.
   */
  method EnqueueUnvisitedNeighbours<T(==)>(queue: Queue<T>, neighbors: seq<T>, visited0: set<T>) returns (visited: set<T>)
    requires queue.Valid()
    modifies queue.Repr
    ensures queue.Valid() && fresh(queue.Repr - old(queue.Repr))
    ensures (visited, queue.Contents()) == EnqueueUnvisited(neighbors, visited0, old(queue.Contents()))
  {
    visited := visited0;
    for i := 0 to |neighbors|
      invariant queue.Valid() && fresh(queue.Repr - old(queue.Repr))
      invariant EnqueueUnvisited(neighbors[i..], visited, queue.Contents())
             == EnqueueUnvisited(neighbors, visited0, old(queue.Contents()))
    {
      assert neighbors[i..][1..] == neighbors[i + 1..];
      var neighbor := neighbors[i];
      if neighbor !in visited {
        visited := visited + {neighbor};
        queue.Enqueue(neighbor);
      }
    }
    assert neighbors[|neighbors|..] == [];
  }
  /**
   * One round of the `while` loop of `bfs`: dequeue the front vertex, list
   * it, then mark and enqueue its unvisited neighbours. The remaining loop
   * computes the same order from the new state, and the state moves closer
   * to an empty queue.
   */
  method BfsRound<T(==)>(adj: map<T, seq<T>>, queue: Queue<T>, visited0: set<T>, result0: seq<T>)
    returns (visited: set<T>, result: seq<T>)
    requires Closed(adj) && visited0 <= adj.Keys
    requires queue.Valid() && queue.Contents() != [] && Elements(queue.Contents()) <= visited0
    modifies queue.Repr
    ensures queue.Valid() && (forall o :: o in queue.Repr ==> o in old(queue.Repr) || fresh(o))
    ensures visited <= adj.Keys && |visited| <= |adj.Keys| && Elements(queue.Contents()) <= visited
    ensures BfsLoop(adj, queue.Contents(), visited, result) == BfsLoop(adj, old(queue.Contents()), visited0, result0)
    ensures |visited0| < |visited| || (|visited| == |visited0| && |queue.Contents()| < |old(queue.Contents())|)
  {
    ghost var q0 := queue.Contents();
    BfsProgress(adj, visited0, q0);
    var front := queue.Dequeue();
    var currentVertex := front.value;
    result := result0 + [currentVertex];
    visited := EnqueueUnvisitedNeighbours(queue, adj[currentVertex], visited0);
    UnvisitedCount(adj.Keys, visited0);
    UnvisitedCount(adj.Keys, visited);
  }
}
