/**
 * The traversal scenario of src/graph.test.ts: a tree with root A, children B
 * and C, and leaves D under B and E under C.
 */
module GraphExamples {
  import opened Adjacency
  import opened Traversals
  import opened Graphs

  /** The adjacency lists after the edges A-B, A-C, B-D and C-E are added in that order. */
  function SampleTree(): (m: map<char, seq<char>>)
    ensures Wellformed(m)
  {
    map['A' := "BC", 'B' := "AD", 'C' := "AE", 'D' := "B", 'E' := "C"]
  }

  /** Visiting D after A and B: its one neighbour B is already visited. */
  lemma SampleTreeVisitD()
    ensures DfsVisit(SampleTree(), 'D', {'A', 'B'}, "AB") == ({'A', 'B', 'D'}, "ABD")
  {
    var m := SampleTree();
    assert {'A', 'B'} + {'D'} == {'A', 'B', 'D'};
    assert "AB" + ['D'] == "ABD";
    assert m['D'] == "B";
    assert DfsNeighbours(m, "B", {'A', 'B', 'D'}, "ABD") == DfsNeighbours(m, "", {'A', 'B', 'D'}, "ABD");
  }

  /** Visiting B after A: A is skipped, then D is visited. */
  lemma SampleTreeVisitB()
    ensures DfsVisit(SampleTree(), 'B', {'A'}, "A") == ({'A', 'B', 'D'}, "ABD")
  {
    var m := SampleTree();
    assert {'A'} + {'B'} == {'A', 'B'};
    assert "A" + ['B'] == "AB";
    assert m['B'] == "AD";
    assert DfsNeighbours(m, "AD", {'A', 'B'}, "AB") == DfsNeighbours(m, "D", {'A', 'B'}, "AB");
    SampleTreeVisitD();
    assert DfsNeighbours(m, "D", {'A', 'B'}, "AB") == DfsNeighbours(m, "", {'A', 'B', 'D'}, "ABD");
  }

  /** Visiting E last: its one neighbour C is already visited. */
  lemma SampleTreeVisitE()
    ensures DfsVisit(SampleTree(), 'E', {'A', 'B', 'C', 'D'}, "ABDC") == ({'A', 'B', 'C', 'D', 'E'}, "ABDCE")
  {
    var m := SampleTree();
    assert {'A', 'B', 'C', 'D'} + {'E'} == {'A', 'B', 'C', 'D', 'E'};
    assert "ABDC" + ['E'] == "ABDCE";
    assert m['E'] == "C";
    assert DfsNeighbours(m, "C", {'A', 'B', 'C', 'D', 'E'}, "ABDCE") == DfsNeighbours(m, "", {'A', 'B', 'C', 'D', 'E'}, "ABDCE");
  }

  /** Visiting C after B's branch: A is skipped, then E is visited. */
  lemma SampleTreeVisitC()
    ensures DfsVisit(SampleTree(), 'C', {'A', 'B', 'D'}, "ABD") == ({'A', 'B', 'C', 'D', 'E'}, "ABDCE")
  {
    var m := SampleTree();
    assert {'A', 'B', 'D'} + {'C'} == {'A', 'B', 'C', 'D'};
    assert "ABD" + ['C'] == "ABDC";
    assert m['C'] == "AE";
    assert DfsNeighbours(m, "AE", {'A', 'B', 'C', 'D'}, "ABDC") == DfsNeighbours(m, "E", {'A', 'B', 'C', 'D'}, "ABDC");
    SampleTreeVisitE();
    assert DfsNeighbours(m, "E", {'A', 'B', 'C', 'D'}, "ABDC") == DfsNeighbours(m, "", {'A', 'B', 'C', 'D', 'E'}, "ABDCE");
  }

  /** Depth-first from A goes down B's branch before C's: A, B, D, C, E. */
  lemma SampleTreeDfs()
    ensures DfsOrder(SampleTree(), 'A') == "ABDCE"
  {
    var m := SampleTree();
    assert {} + {'A'} == {'A'};
    assert [] + ['A'] == "A";
    assert m['A'] == "BC";
    SampleTreeVisitB();
    assert DfsNeighbours(m, "BC", {'A'}, "A") == DfsNeighbours(m, "C", {'A', 'B', 'D'}, "ABD");
    SampleTreeVisitC();
    assert DfsNeighbours(m, "C", {'A', 'B', 'D'}, "ABD") == DfsNeighbours(m, "", {'A', 'B', 'C', 'D', 'E'}, "ABDCE");
  }

  /** The last two rounds: D and E are dequeued and enqueue nothing. */
  lemma SampleTreeBfsLeaves()
    ensures BfsLoop(SampleTree(), "DE", {'A', 'B', 'C', 'D', 'E'}, "ABC") == "ABCDE"
  {
    var m := SampleTree();
    var all := {'A', 'B', 'C', 'D', 'E'};
    assert m['D'] == "B" && m['E'] == "C";
    assert EnqueueUnvisited("B", all, "E") == EnqueueUnvisited("", all, "E");
    assert "ABC" + ['D'] == "ABCD";
    assert BfsLoop(m, "DE", all, "ABC") == BfsLoop(m, "E", all, "ABCD");
    assert EnqueueUnvisited("C", all, "") == EnqueueUnvisited("", all, "");
    assert "ABCD" + ['E'] == "ABCDE";
    assert BfsLoop(m, "E", all, "ABCD") == BfsLoop(m, "", all, "ABCDE");
  }

  /** The round for C: it enqueues its child E. */
  lemma SampleTreeBfsRoundC()
    ensures BfsLoop(SampleTree(), "CD", {'A', 'B', 'C', 'D'}, "AB") == "ABCDE"
  {
    var m := SampleTree();
    assert m['C'] == "AE";
    assert EnqueueUnvisited("AE", {'A', 'B', 'C', 'D'}, "D") == EnqueueUnvisited("E", {'A', 'B', 'C', 'D'}, "D");
    assert {'A', 'B', 'C', 'D'} + {'E'} == {'A', 'B', 'C', 'D', 'E'};
    assert "D" + ['E'] == "DE";
    assert EnqueueUnvisited("E", {'A', 'B', 'C', 'D'}, "D") == EnqueueUnvisited("", {'A', 'B', 'C', 'D', 'E'}, "DE");
    assert "AB" + ['C'] == "ABC";
    assert BfsLoop(m, "CD", {'A', 'B', 'C', 'D'}, "AB") == BfsLoop(m, "DE", {'A', 'B', 'C', 'D', 'E'}, "ABC");
    SampleTreeBfsLeaves();
  }

  /** The round for B: it enqueues its child D. */
  lemma SampleTreeBfsRoundB()
    ensures BfsLoop(SampleTree(), "BC", {'A', 'B', 'C'}, "A") == "ABCDE"
  {
    var m := SampleTree();
    assert m['B'] == "AD";
    assert EnqueueUnvisited("AD", {'A', 'B', 'C'}, "C") == EnqueueUnvisited("D", {'A', 'B', 'C'}, "C");
    assert {'A', 'B', 'C'} + {'D'} == {'A', 'B', 'C', 'D'};
    assert "C" + ['D'] == "CD";
    assert EnqueueUnvisited("D", {'A', 'B', 'C'}, "C") == EnqueueUnvisited("", {'A', 'B', 'C', 'D'}, "CD");
    assert "A" + ['B'] == "AB";
    assert BfsLoop(m, "BC", {'A', 'B', 'C'}, "A") == BfsLoop(m, "CD", {'A', 'B', 'C', 'D'}, "AB");
    SampleTreeBfsRoundC();
  }

  /** Breadth-first from A lists the root, then B and C, then D and E. */
  lemma SampleTreeBfs()
    ensures BfsOrder(SampleTree(), 'A') == "ABCDE"
  {
    var m := SampleTree();
    assert m['A'] == "BC";
    assert {'A'} + {'B'} == {'A', 'B'} && {'A', 'B'} + {'C'} == {'A', 'B', 'C'};
    assert "" + ['B'] == "B" && "B" + ['C'] == "BC";
    assert EnqueueUnvisited("BC", {'A'}, "") == EnqueueUnvisited("C", {'A', 'B'}, "B");
    assert EnqueueUnvisited("C", {'A', 'B'}, "B") == EnqueueUnvisited("", {'A', 'B', 'C'}, "BC");
    assert [] + ['A'] == "A";
    assert BfsLoop(m, "A", {'A'}, "") == BfsLoop(m, "BC", {'A', 'B', 'C'}, "A");
    SampleTreeBfsRoundB();
  }

  /** One `addEdge` between two distinct present vertices, as a map update. */
  method Connect(g: Graph<char>, u: char, v: char)
    requires g.Valid() && u in g.adjacencyList && v in g.adjacencyList && u != v
    modifies g
    ensures g.Valid()
    ensures g.adjacencyList == old(g.adjacencyList)[u := old(g.adjacencyList)[u] + [v]][v := old(g.adjacencyList)[v] + [u]]
  {
    var ok := g.AddEdge(u, v);
  }

  /** The five sample vertices, added through `addVertex`, with no edges yet. */
  method BuildSampleVertices() returns (g: Graph<char>)
    ensures fresh(g) && g.Valid()
    ensures g.adjacencyList == map['A' := [], 'B' := [], 'C' := [], 'D' := [], 'E' := []]
  {
    g := new Graph<char>();
    var added := g.AddVertex('A');
    added := g.AddVertex('B');
    added := g.AddVertex('C');
    added := g.AddVertex('D');
    added := g.AddVertex('E');
  }

  /** The edges A-B and A-C. */
  method ConnectRoot(g: Graph<char>)
    requires g.Valid() && g.adjacencyList == map['A' := [], 'B' := [], 'C' := [], 'D' := [], 'E' := []]
    modifies g
    ensures g.Valid() && g.adjacencyList == map['A' := "BC", 'B' := "A", 'C' := "A", 'D' := [], 'E' := []]
  {
    Connect(g, 'A', 'B');
    assert [] + ['B'] == "B" && [] + ['A'] == "A";
    assert g.adjacencyList == map['A' := "B", 'B' := "A", 'C' := [], 'D' := [], 'E' := []];
    Connect(g, 'A', 'C');
    assert "B" + ['C'] == "BC";
  }

  /** The edges B-D and C-E. */
  method ConnectLeaves(g: Graph<char>)
    requires g.Valid() && g.adjacencyList == map['A' := "BC", 'B' := "A", 'C' := "A", 'D' := [], 'E' := []]
    modifies g
    ensures g.Valid() && g.adjacencyList == SampleTree()
  {
    Connect(g, 'B', 'D');
    assert "A" + ['D'] == "AD" && [] + ['B'] == "B";
    assert g.adjacencyList == map['A' := "BC", 'B' := "AD", 'C' := "A", 'D' := "B", 'E' := []];
    Connect(g, 'C', 'E');
    assert "A" + ['E'] == "AE" && [] + ['C'] == "C";
  }

  /** Builds the sample tree through the graph's own methods, as the tests do. */
  method BuildSampleTree() returns (g: Graph<char>)
    ensures fresh(g) && g.Valid() && g.adjacencyList == SampleTree()
  {
    g := BuildSampleVertices();
    ConnectRoot(g);
    ConnectLeaves(g);
  }

  /**
   * The test scenario: a vertex is added once only, an edge to a missing
   * vertex is refused, the traversals from A give the orders above, and
   * from a missing vertex both are empty.
   */
  method SampleTreeScenario() returns (again: bool, dangling: bool, dfs: seq<char>, bfs: seq<char>, dfsMissing: seq<char>, bfsMissing: seq<char>)
    ensures !again && !dangling
    ensures dfs == "ABDCE" && bfs == "ABCDE"
    ensures dfsMissing == [] && bfsMissing == []
  {
    var g := BuildSampleTree();
    again := g.AddVertex('A');
    dangling := g.AddEdge('A', 'Z');
    SampleTreeDfs();
    SampleTreeBfs();
    dfs := g.Dfs('A');
    bfs := g.Bfs('A');
    dfsMissing := g.Dfs('Z');
    bfsMissing := g.Bfs('Z');
  }
}
