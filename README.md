# Data structures and algorithms library, modelled in Dafny

This project models a small TypeScript library of data structures and
algorithms and proves what each operation does:

- an undirected graph kept as an adjacency map, with vertex and edge
  mutators, a breadth-first traversal driven by the library's own queue, and
  a recursive depth-first traversal;
- a singly linked list with head, tail and a cached size, plus a FIFO queue
  and a LIFO stack that both keep their state in such a list;
- a separate-chaining hash table with a character-code-sum hash;
- a min-priority queue kept as a binary heap in an array;
- an unbalanced binary search tree of linked nodes;
- a trie over characters;
- iterative binary search, in-place Lomuto quick sort and top-down merge sort.

Each source file becomes one module (`Graphs` with its helper modules
`Adjacency`, `Traversals` and `GraphExamples`, then `LinkedLists`, `Queues`,
`Stacks`, `HashTables`, `PriorityQueues`, `BinarySearchTrees`, `Tries`,
`BinarySearch`, `QuickSort` and `MergeSort`). `Wrappers` holds the `Option`
type that stands for the library's `null` results. `Sequences` holds shared
facts about sequences.

The objects the library updates in place are Dafny classes with the same
fields. Each class has a ghost abstract value:

- the list's `Contents`, the sequence `toArray` returns;
- the table's key/value map;
- the heap's multiset of entries;
- the tree's `Shape`, a `Tree` datatype;
- the trie's set of inserted words.

Each method is proved against that value. The quick sort works in place on
an `array<int>`. The loops of the source are `while`/`for` loops with
invariants. The traversals are tied to functional definitions (`DfsOrder`,
`BfsOrder`, `InOrder`, `Merged`, `MergeSorted`), and the lemmas next to
those definitions prove what the traversals and sorts promise.

Most tests of the library are followed by scenario methods. Each builds the
structure its test builds and proves, in its `ensures`, the results that test
expects. The tests that have no scenario are listed under "## Left out".

`BinarySearchTrees.Inserted`, `MergeSort.Merged` and `MergeSort.MergeSorted`
are the functional definitions of what `insertNode`, `merge` and `mergeSort`
compute. They carry no contract of their own: what they promise is stated by
the lemmas about them (`InsertValues`, `InsertOrdered`, `MergedElements`,
`MergedSorted`, `MergeSortedSorts`), and their rows are those lemmas' rows.

## Model

| member | source | states |
|---|---|---|
| Adjacency.Without | src/graph.ts:53-58 | The `filter` of `removeEdge`: the result holds every entry of the list except all copies of `x`, with the same multiplicities, and an absent `x` leaves the list as it was |
| Adjacency.WithoutConcat | src/graph.ts:53 | Filtering a concatenation filters each part, so the surviving entries keep their order |
| Adjacency.WithoutMembership | src/graph.ts:53 | An entry survives the filter exactly when it was present and is not the removed vertex |
| Adjacency.RemoveEdgeWellformed | src/graph.ts:49-63 | Filtering each endpoint out of the other's list keeps every neighbour a vertex and keeps edges symmetric |
| Adjacency.ClearedStep | src/graph.ts:77-79 | One round of the loop of `removeVertex`: after `removeEdge(vertex, n)`, the lists of the neighbours handled so far plus `n` have `vertex` filtered out, and every other list is still the original |
| Adjacency.ClearedAll | src/graph.ts:77-81 | Once the loop has handled the whole captured neighbour list and `vertex` is deleted, every remaining list is the original with `vertex` filtered out, and no list mentions `vertex` |
| Graphs.Graph.constructor | src/graph.ts:10-12 | A new graph has no vertices and satisfies the invariant |
| Graphs.Graph.AddVertex | src/graph.ts:19-25 | Returns true exactly when the vertex was absent. A new vertex gets an empty neighbour list. Otherwise the map is unchanged. The invariant is kept |
| Graphs.Graph.AddEdge | src/graph.ts:34-41 | Returns true exactly when both endpoints exist. Each endpoint is appended to the end of the other's list with no duplicate check, and a self-loop appends the vertex twice. Everything is unchanged on false. Other lists are untouched and the invariant is kept |
| Graphs.Graph.RemoveEdge | src/graph.ts:49-63 | Returns true exactly when both vertices exist, adjacent or not. Every copy of each endpoint is filtered out of the other's list. Other lists are untouched and the invariant is kept |
| Graphs.Graph.RemoveVertex | src/graph.ts:70-83 | Returns false with nothing changed when the vertex is absent. Otherwise the new map is the old one without the vertex, with the vertex filtered out of every remaining list. The invariant is kept |
| Graphs.Graph.Bfs | src/graph.ts:90-115 | [] for a missing start vertex. Otherwise the result is `BfsOrder`: it starts at the start vertex, has no duplicates, lists exactly the reachable vertices, and lists them in non-decreasing distance |
| Graphs.BreadthFirst | src/graph.ts:95-114 | The queue-driven loop of `bfs` computes `BfsOrder` |
| Graphs.BfsRound | src/graph.ts:102-113 | One round of that loop: the dequeued vertex is listed, and the order still to come from the new state is the order that was to come from the old one. Either more vertices are marked or the queue is shorter |
| Graphs.EnqueueUnvisitedNeighbours | src/graph.ts:107-112 | The inner `for` loop marks and enqueues, in list order, exactly the neighbours not yet marked, as `EnqueueUnvisited` says |
| Graphs.Graph.Dfs | src/graph.ts:122-133 | [] for a missing start vertex. Otherwise the result is `DfsOrder`: it starts at the start vertex, has no duplicates, and lists exactly the reachable vertices |
| Graphs.Graph.DfsRecursive | src/graph.ts:141-151 | Marking and listing a vertex, then recursing into each unmarked neighbour in list order, advances the visited set and result as `DfsVisit` says |
| Traversals.DfsVisit | src/graph.ts:141-151 | The depth-first visit only adds vertices, the visited vertex among them, and never leaves the graph |
| Traversals.DfsNeighbours | src/graph.ts:146-150 | Walking a neighbour list only adds visited vertices, inside the graph |
| Traversals.DfsVisitFacts | src/graph.ts:141-151 | A visit extends the result and keeps it duplicate-free and equal to the visited set. It lists only reachable vertices, and every neighbour of a newly visited vertex ends up visited |
| Traversals.DfsNeighboursFacts | src/graph.ts:146-150 | The same for the walk over a neighbour list, which also ends with every listed neighbour visited |
| Traversals.DfsOrderCorrect | src/graph.ts:122-151 | The depth-first order from a vertex starts there, has no duplicates, and contains exactly the vertices reachable from it |
| Traversals.EnqueueUnvisited | src/graph.ts:107-112 | The queue only grows at its end, by distinct neighbours that were not yet marked |
| Traversals.EnqueueUnvisitedMarks | src/graph.ts:108-110 | The new marks are exactly the newly enqueued vertices, and afterwards every neighbour is marked |
| Traversals.BfsProgress | src/graph.ts:102-113 | A round of the loop stays within the graph and either marks a new vertex or shortens the queue, so the loop ends |
| Traversals.BfsStep | src/graph.ts:102-113 | A round keeps the loop invariant: result plus queue start at the start vertex, are distinct, are exactly the marked vertices, are all reachable, and are in distance order, and the queue spans at most two distance levels |
| Traversals.BfsLoopFacts | src/graph.ts:102-114 | From any state meeting the invariant, the loop's result starts at the start vertex, is duplicate-free and distance-ordered, lists only reachable vertices, and lists every vertex within any distance |
| Traversals.BfsOrderCorrect | src/graph.ts:90-115 | The breadth-first order from a vertex starts there, has no duplicates, is in non-decreasing distance, and contains exactly the reachable vertices |
| GraphExamples.SampleTree | src/graph.test.ts:63-79 | The five-vertex tree of the traversal tests satisfies the graph invariant |
| GraphExamples.SampleTreeDfs | src/graph.test.ts:108-112 | Depth-first from A in that tree gives A, B, D, C, E |
| GraphExamples.SampleTreeBfs | src/graph.test.ts:82-92 | Breadth-first from A gives A, B, C, D, E, levels in order |
| GraphExamples.BuildSampleTree | src/graph.test.ts:70-78 | The five `addVertex` and four `addEdge` calls of the test build exactly that adjacency map |
| GraphExamples.SampleTreeScenario | src/graph.test.ts:17-20 | On that graph a second `addVertex('A')` is false and an edge to a missing vertex is refused. The traversals from A give the orders above, and from a missing vertex both are [] (tests at lines 30-33, 94-97 and 114-117 too) |
| LinkedLists.RemoveFirst | src/linked-list.ts:106-131 | Removing the first occurrence: nothing changes when the value is absent, and exactly one entry goes when it is present |
| LinkedLists.RemoveFirstAt | src/linked-list.ts:116-126 | When the first occurrence is at position k, removing it cuts exactly position k |
| LinkedLists.ListNode.constructor | src/linked-list.ts:6-9 | A new node holds the given value and has no successor |
| LinkedLists.LinkedList.constructor | src/linked-list.ts:18-22 | A new list is empty, with null head and tail |
| LinkedLists.LinkedList.Append | src/linked-list.ts:28-38 | The contents gain the value at the end and the size grows by one. The invariant is kept, including tail as last node and head/tail null together |
| LinkedLists.LinkedList.Prepend | src/linked-list.ts:44-54 | The contents gain the value at the front and the size grows by one. The invariant is kept |
| LinkedLists.LinkedList.DeleteHead | src/linked-list.ts:60-75 | None with nothing changed on an empty list. Otherwise it returns the first value, drops it and decrements size, and the invariant makes tail null when the list empties |
| LinkedLists.LinkedList.PeekHead | src/linked-list.ts:81-83 | The first value, or None when empty |
| LinkedLists.LinkedList.Find | src/linked-list.ts:90-99 | Null exactly when the value is absent. Otherwise it is the node at the first position holding the value |
| LinkedLists.LinkedList.Delete | src/linked-list.ts:106-131 | The contents lose the first occurrence of the value, size follows, and tail is re-pointed when the last node goes. Null when the list is empty or the value is absent. On a head match it returns the new head, as written |
| LinkedLists.LinkedList.DeleteAfterHead | src/linked-list.ts:116-130 | The scan after a non-matching head removes the first occurrence and returns its node, or null when the value is absent |
| LinkedLists.LinkedList.UnlinkAfter | src/linked-list.ts:119-124 | Bypassing the next node removes exactly that position from nodes and contents, re-points tail when it was last, and keeps the invariant |
| LinkedLists.LinkedList.ToArray | src/linked-list.ts:137-145 | The values from head to tail are exactly the contents |
| LinkedLists.LinkedList.GetSize | src/linked-list.ts:150-152 | The cached size is the length of the contents |
| LinkedLists.LinkedList.IsEmpty | src/linked-list.ts:157-159 | True exactly when the contents are empty |
| LinkedLists.DeleteHeadAsWritten | src/linked-list.ts:111-114 | As written, deleting the head of [10] answers null although 10 was present, and deleting the head of [10, 20] answers the node holding 20 |
| LinkedLists.LinkedList.DeleteReturningRemoved | src/linked-list.ts:101-131 | The documented behaviour: the same removal, returning null exactly when the value was absent and otherwise a node holding it |
| LinkedLists.DeleteHeadCorrected | src/linked-list.ts:101-114 | With the documented behaviour, both head deletions answer the node holding 10 |
| LinkedLists.NewListScenario | src/linked-list.test.ts:11-17 | A new list is empty and has size 0 |
| LinkedLists.AppendScenario | src/linked-list.test.ts:19-25 | After appending 10 and 20 the size is 2, the head holds 10 and the tail 20 |
| LinkedLists.PrependScenario | src/linked-list.test.ts:27-33 | After prepending 10 and 20 the size is 2, the head holds 20 and the tail 10 |
| LinkedLists.ToArrayScenario | src/linked-list.test.ts:35-40 | Appending 10, 20, 30 and calling `toArray` gives [10, 20, 30] |
| LinkedLists.HeadScenario | src/linked-list.test.ts:58-72 | On 10, 20, `peekHead` gives 10 and the size stays 2. `deleteHead` gives 10, the size becomes 1 and the head holds 20 |
| Queues.Queue.constructor | src/queue.ts:9-11 | A new queue is empty |
| Queues.Queue.Enqueue | src/queue.ts:17-20 | The value joins at the back |
| Queues.Queue.Dequeue | src/queue.ts:26-29 | The oldest value comes out and is removed. None with nothing changed when empty |
| Queues.Queue.Peek | src/queue.ts:35-38 | The front value, or None when empty |
| Queues.Queue.IsEmpty | src/queue.ts:44-46 | True exactly when the queue holds nothing, which is exactly when its size is 0 |
| Queues.Queue.GetSize | src/queue.ts:51-53 | The number of queued values |
| Queues.SampleQueue | src/queue.test.ts:21-24 | Enqueuing a, b, c builds a valid queue holding exactly a, b, c in that order |
| Queues.FifoExample | src/queue.test.ts:21-39 | After enqueuing a, b, c, dequeues give a then b and one value is left. A new queue dequeues None |
| Queues.PeekExample | src/queue.test.ts:10-43 | A new queue is empty, has size 0 and peeks None. After enqueuing a and b the size is 2, and peek gives a without removing it |
| Stacks.Stack.constructor | src/stack.ts:9-11 | A new stack is empty |
| Stacks.Stack.Push | src/stack.ts:17-20 | The value goes on top |
| Stacks.Stack.Pop | src/stack.ts:26-29 | The most recently pushed value comes out and is removed. None with nothing changed when empty |
| Stacks.Stack.Peek | src/stack.ts:35-38 | The top value, or None when empty |
| Stacks.Stack.IsEmpty | src/stack.ts:44-46 | True exactly when the stack holds nothing, which is exactly when its size is 0 |
| Stacks.Stack.GetSize | src/stack.ts:51-53 | The number of stacked values |
| Stacks.LifoExample | src/stack.test.ts:27-36 | After pushing 10 and 20, pops give 20 then 10. A new stack pops None |
| Stacks.PeekExample | src/stack.test.ts:38-43 | After pushing 30 and 40, peek gives 40 and the size stays 2 |
| Stacks.SizeExample | src/stack.test.ts:11-25 | A new stack is empty with size 0, and one push makes it non-empty. After two pushes the size is 2. A new stack peeks None (the test at lines 45-47) |
| HashTables.Hash | src/hash-table.ts:22-28 | The character-code sum modulo the bucket count is always a valid bucket index |
| HashTables.CodeSumConcat | src/hash-table.ts:23-26 | The code sum of a concatenation is the sum of the parts' code sums |
| HashTables.RotationsCollide | src/hash-table.ts:22-28 | Keys that are rotations of each other always land in the same bucket |
| HashTables.SampleKeysCollide | src/hash-table.test.ts:31-32 | 'a' and 'f' both hash to bucket 2 of 5 |
| HashTables.FindEntry | src/hash-table.ts:40 | The first entry of a bucket with the key, or none exactly when no entry has it |
| HashTables.FindEntryAt | src/hash-table.ts:40 | The first position holding the key is the one found |
| HashTables.PutLookup | src/hash-table.ts:36-49 | After a set in a bucket, lookups of that key give the new value and of any other key what they gave before |
| HashTables.Put | src/hash-table.ts:40-48 | A set keeps every existing entry's key in its position and stores the new pair. The bucket grows by one exactly when the key was absent, and otherwise keeps its length |
| HashTables.PutKeeps | src/hash-table.ts:40-48 | A set keeps a bucket free of duplicate keys and holding only keys that hash to it |
| HashTables.RemoveLookup | src/hash-table.ts:69-74 | After a delete in a bucket, that key is gone and every other key looks up as before |
| HashTables.Remove | src/hash-table.ts:69-74 | A delete shrinks the bucket by one exactly when the key was present, and adds no entry |
| HashTables.RemoveKeeps | src/hash-table.ts:69-74 | A delete keeps the bucket free of duplicate keys and holding only keys that hash to it |
| HashTables.HashTable.constructor | src/hash-table.ts:12-15 | The given number of empty buckets, representing the empty map |
| HashTables.HashTable.Set | src/hash-table.ts:36-49 | The represented map maps the key to the value and is otherwise unchanged, whatever collides |
| HashTables.HashTable.Get | src/hash-table.ts:56-62 | The key's value in the represented map, or None when it has none |
| HashTables.HashTable.Delete | src/hash-table.ts:69-74 | True exactly when the key was present; afterwards the map lacks it and is otherwise unchanged |
| HashTables.SampleTable | src/hash-table.test.ts:20-34 | The sets of the tests on five buckets represent the map a → Value A, f → Value F, age → 31 |
| HashTables.CollisionScenario | src/hash-table.test.ts:26-57 | Colliding keys keep their own values, and a second set of a key replaces its value. Deleting a present key is true and of a missing key false. After deleting 'a', 'a' is gone and 'f' is still there |
| PriorityQueues.HeapRootIsMin | src/priority-queue.ts:10-15 | In a heap, no entry has a smaller priority than the root |
| PriorityQueues.HeapMinimum | src/priority-queue.ts:44-47 | The root's priority is minimal among all entries |
| PriorityQueues.PopRoot | src/priority-queue.ts:52-53 | Moving the last entry to the root and popping loses exactly the root entry, and breaks the heap order only below the root |
| PriorityQueues.PriorityQueue.constructor | src/priority-queue.ts:15 | A new queue has no entries |
| PriorityQueues.PriorityQueue.IsEmpty | src/priority-queue.ts:21-23 | True exactly when there are no entries, which is exactly when the size is 0 |
| PriorityQueues.PriorityQueue.GetSize | src/priority-queue.ts:29-31 | The number of stored entries |
| PriorityQueues.PriorityQueue.Insert | src/priority-queue.ts:38-41 | The entry joins the multiset of entries, the size grows by one, and the heap order holds again |
| PriorityQueues.PriorityQueue.ExtractMin | src/priority-queue.ts:47-60 | None with nothing changed when empty. Otherwise it returns the value of an entry of minimal priority, which alone leaves the multiset. The size drops by one and the heap order is kept |
| PriorityQueues.PriorityQueue.SwapRootAndPop | src/priority-queue.ts:52-53 | The swap and `pop` remove the old root entry and leave the heap order broken at most below the root |
| PriorityQueues.PriorityQueue.SiftUp | src/priority-queue.ts:66-74 | From a heap broken only at `index`, the loop restores the heap order and only rearranges entries |
| PriorityQueues.PriorityQueue.SwapUp | src/priority-queue.ts:69-72 | One round of that loop moves the break up to the parent and only rearranges entries |
| PriorityQueues.PriorityQueue.SiftDown | src/priority-queue.ts:80-97 | From a heap broken only below `index`, the recursion restores the heap order and only rearranges entries |
| PriorityQueues.PriorityQueue.SwapDown | src/priority-queue.ts:93-95 | Swapping with the smaller child moves the break below that child and only rearranges entries |
| PriorityQueues.PriorityQueue.Swap | src/priority-queue.ts:104-106 | Exchanges the two entries and keeps the multiset |
| PriorityQueues.ExtractScenario | src/priority-queue.test.ts:24-35 | Extracting from an empty queue gives None. With priorities 10, 1 and 5, 'High Priority' comes out first and two entries remain |
| PriorityQueues.SizeScenario | src/priority-queue.test.ts:10-22 | A new queue is empty with size 0. After three insertions the size is 3 |
| PriorityQueues.ExtractLeast | src/priority-queue.ts:47-60 | When one entry has a smaller priority than every other, `extractMin` returns its value and removes exactly that entry |
| PriorityQueues.SequenceFirstRound | src/priority-queue.test.ts:38-42 | After priorities 5, 2 and 8, the extraction gives 'Task 2' and leaves the entries of priority 5 and 8 |
| PriorityQueues.SequenceSecondRound | src/priority-queue.test.ts:44-47 | Adding priorities 1 and 6, the extraction gives 'Task 4' and leaves the entries of priority 5, 6 and 8 |
| PriorityQueues.SequenceDrain | src/priority-queue.test.ts:48-49 | The next two extractions give 'Task 1' and 'Task 5' and leave the entry of priority 8 |
| PriorityQueues.SequenceScenario | src/priority-queue.test.ts:37-52 | The extractions give Task 2, Task 4, Task 1, Task 5, Task 3 in that order, and the queue is then empty |
| PriorityQueues.ExtractPair | src/priority-queue.test.ts:59-63 | With two entries left, the next two extractions give both values, in one order or the other |
| PriorityQueues.TieScenario | src/priority-queue.test.ts:54-64 | With priorities 2, 1, 2, 'B' comes out first, and the next two extractions give 'A' and 'C' in either order |
| BinarySearchTrees.InsertValues | src/binary-search-tree.ts:29-43 | Insertion adds exactly the inserted value to the tree's multiset of values |
| BinarySearchTrees.InsertOrdered | src/binary-search-tree.ts:29-43 | Insertion keeps the order "left subtree < node <= right subtree" at every node, equal values going right |
| BinarySearchTrees.InOrderValues | src/binary-search-tree.ts:74-87 | In-order lists each stored value as often as it is stored |
| BinarySearchTrees.PreOrderValues | src/binary-search-tree.ts:94-107 | So does pre-order |
| BinarySearchTrees.PostOrderValues | src/binary-search-tree.ts:114-127 | So does post-order |
| BinarySearchTrees.InOrderSorted | src/binary-search-tree.ts:69-87 | On an ordered tree, in-order is ascending |
| BinarySearchTrees.RootPlacement | src/binary-search-tree.ts:101-106 | Pre-order starts with the root and post-order ends with it (lines 121-126 too) |
| BinarySearchTrees.TreeNode.constructor | src/binary-search-tree.ts:2-10 | A new node is a leaf holding its value |
| BinarySearchTrees.InsertNode | src/binary-search-tree.ts:29-43 | Hangs the new node where `Inserted` puts its value, below the given node, and keeps that subtree's invariant |
| BinarySearchTrees.FindNode | src/binary-search-tree.ts:55-67 | On an ordered subtree, following the search path finds the value exactly when the subtree stores it |
| BinarySearchTrees.InOrderFrom | src/binary-search-tree.ts:81-87 | Appends the subtree's in-order listing to `result` |
| BinarySearchTrees.PreOrderFrom | src/binary-search-tree.ts:101-107 | Appends the subtree's pre-order listing to `result` |
| BinarySearchTrees.PostOrderFrom | src/binary-search-tree.ts:121-127 | Appends the subtree's post-order listing to `result` |
| BinarySearchTrees.BinarySearchTree.constructor | src/binary-search-tree.ts:12-13 | A new tree is empty |
| BinarySearchTrees.BinarySearchTree.Insert | src/binary-search-tree.ts:19-26 | The tree's shape becomes `Inserted(old shape, value)`, and the tree stays ordered |
| BinarySearchTrees.BinarySearchTree.Find | src/binary-search-tree.ts:50-52 | True exactly when the value is stored in the tree |
| BinarySearchTrees.BinarySearchTree.InOrderTraversal | src/binary-search-tree.ts:74-78 | The in-order listing, which is ascending and holds exactly the stored values with their multiplicities |
| BinarySearchTrees.BinarySearchTree.PreOrderTraversal | src/binary-search-tree.ts:94-98 | The pre-order listing, holding exactly the stored values |
| BinarySearchTrees.BinarySearchTree.PostOrderTraversal | src/binary-search-tree.ts:114-118 | The post-order listing, holding exactly the stored values |
| BinarySearchTrees.SampleInOrder | src/binary-search-tree.test.ts:10-19 | The test's tree lists 3, 5, 7, 10, 15 in order and stores exactly those values |
| BinarySearchTrees.SampleTree | src/binary-search-tree.test.ts:11-15 | Inserting 10, 5, 15, 3, 7 builds that tree |
| BinarySearchTrees.InsertScenario | src/binary-search-tree.test.ts:10-19 | In-order traversal of that tree gives 3, 5, 7, 10, 15 |
| BinarySearchTrees.SmallTree | src/binary-search-tree.test.ts:22-24 | Inserting 10, 5, 15 puts 10 at the root with 5 on its left and 15 on its right |
| BinarySearchTrees.FindScenario | src/binary-search-tree.test.ts:21-37 | In the tree of 10, 5, 15, `find` is true for 10, 5 and 15 and false for 100, 1 and 12 |
| BinarySearchTrees.DuplicateTree | src/binary-search-tree.test.ts:47-50 | Inserting 10, 5, 10 puts the second 10 right of the first |
| BinarySearchTrees.DuplicateScenario | src/binary-search-tree.test.ts:47-55 | Both copies of 10 are listed: 5, 10, 10 |
| BinarySearchTrees.EmptyScenario | src/binary-search-tree.test.ts:39-45 | An empty tree finds nothing and lists nothing |
| Tries.HasPrefixGrows | src/trie.ts:22-31 | Inserting a word never takes a prefix away, so a true `startsWith` stays true |
| Tries.TrieNode.constructor | src/trie.ts:6-9 | A new node has no children and ends no word |
| Tries.Trie.constructor | src/trie.ts:15-16 | A new trie stores no words |
| Tries.Trie.Insert | src/trie.ts:22-31 | The set of stored words gains exactly the word, so a second insert changes nothing, and the trie's shape invariant is kept |
| Tries.Trie.Descend | src/trie.ts:25-28 | One round of the loop: the node for the next prefix exists afterwards, created only when missing |
| Tries.Trie.AddChild | src/trie.ts:25-27 | Creating the missing child for the next character adds exactly that node for that path and keeps the shape invariant |
| Tries.Trie.LinkChild | src/trie.ts:26 | The new child is fresh, ends no word, and is the node for the extended path |
| Tries.Trie.MarkWord | src/trie.ts:30 | Marking the node of the word's path adds exactly that word |
| Tries.Trie.PrefixesReached | src/trie.ts:22-31 | Every prefix of a stored word has a node |
| Tries.Trie.Search | src/trie.ts:38-47 | True exactly when the word itself was inserted; a proper prefix that was never inserted is false |
| Tries.Trie.StartsWith | src/trie.ts:54-63 | True exactly when the prefix is empty or begins some inserted word |
| Tries.InsertBoth | src/trie.test.ts:8-11 | Two inserts add exactly the two words |
| Tries.SampleTrie | src/trie.test.ts:6-12 | The test's inserts store exactly apple, app, apricot and banana |
| Tries.SamplePrefixes | src/trie.test.ts:38-57 | ap, app and apple begin a stored word; orange and bap do not |
| Tries.SearchScenario | src/trie.test.ts:15-29 | apple and app are found; apples and apri are not |
| Tries.EmptyWordScenario | src/trie.test.ts:31-35 | The empty string is not found until it is inserted, then it is |
| Tries.StartsWithScenario | src/trie.test.ts:38-57 | startsWith is true for ap, app and apple and false for orange and bap |
| BinarySearch.Search | src/algorithm/binary-search.ts:9-32 | The result is -1 or an index holding the target. It is -1 whenever the target is absent, an empty array included, and on a sorted array a present target is found. Each middle index stays inside the window, and the window shrinks every round |
| BinarySearch.SearchScenario | src/algorithm/binary-search.test.ts:4-39 | The numeric tests: 7 is found at 3, 1 at 0 and 9 at 4. 4 and a search in [] give -1. 42 in [42] is found at 0, and 0 gives -1 |
| QuickSort.SwapPermutes | src/algorithm/quick-sort.ts:18-22 | Exchanging two entries of a window only rearranges that window |
| QuickSort.PermutesWindow | src/algorithm/quick-sort.ts:32-40 | A rearranged window keeps its own entries |
| QuickSort.PermutesBounds | src/algorithm/quick-sort.ts:32-40 | A bound on every entry of a window survives rearranging it |
| QuickSort.SortedAround | src/algorithm/quick-sort.ts:32-40 | A sorted part below the pivot, the pivot, and a sorted part not below it make a sorted window |
| QuickSort.Partition | src/algorithm/quick-sort.ts:10-24 | The pivot, the old last entry, lands at p in [low, high], with only smaller entries before it and none smaller after it. Only the window is rearranged |
| QuickSort.PartitionStep | src/algorithm/quick-sort.ts:14-20 | One round of the `for` loop keeps the partition invariant and only rearranges the window |
| QuickSort.Swap | src/algorithm/quick-sort.ts:18-22 | The destructuring swap exchanges two entries and only rearranges the window |
| QuickSort.QuickSortRange | src/algorithm/quick-sort.ts:32-40 | The window is sorted, only the window is rearranged, and a window of at most one entry is untouched |
| QuickSort.JoinSorted | src/algorithm/quick-sort.ts:36-39 | After both recursive calls, the whole window is sorted |
| QuickSort.Sort | src/algorithm/quick-sort.ts:48-56 | Sorts the array in place and returns the same array. The entries are kept, duplicates included, and arrays of at most one entry are unchanged |
| QuickSort.SortFive | src/algorithm/quick-sort.test.ts:4-38 | Sorting a five-entry array gives a sorted rearrangement of it |
| QuickSort.AlreadySortedScenario | src/algorithm/quick-sort.test.ts:16-20 | 1, 2, 3, 4, 5 stays 1, 2, 3, 4, 5 |
| QuickSort.ReversedScenario | src/algorithm/quick-sort.test.ts:22-26 | 5, 4, 3, 2, 1 sorts to 1, 2, 3, 4, 5 |
| QuickSort.NegativesScenario | src/algorithm/quick-sort.test.ts:28-32 | 3, -1, 0, -5, 2 sorts to -5, -1, 0, 2, 3 |
| QuickSort.EmptyScenario | src/algorithm/quick-sort.test.ts:34-38 | An empty array stays empty |
| MergeSort.MergedElements | src/algorithm/merge-sort.ts:8-25 | A merge holds the entries of both inputs, duplicates included, and has the sum of their lengths |
| MergeSort.MergedSorted | src/algorithm/merge-sort.ts:8-25 | The merge of two sorted sequences is sorted |
| MergeSort.MergeSortedSorts | src/algorithm/merge-sort.ts:33-47 | `mergeSort` gives a sorted rearrangement of its input, and inputs of at most one entry as they are |
| MergeSort.TakeLeft | src/algorithm/merge-sort.ts:14-16 | Taking the smaller left head continues the merge |
| MergeSort.TakeRight | src/algorithm/merge-sort.ts:17-20 | Taking the right head on a tie or when it is smaller continues the merge |
| MergeSort.Merge | src/algorithm/merge-sort.ts:8-25 | The loop plus the two leftovers compute exactly the merge |
| MergeSort.Sort | src/algorithm/merge-sort.ts:33-47 | Returns a sorted rearrangement of the input, duplicates included, and inputs of at most one entry as they are. The input is a value and is never changed |
| MergeSort.SortFive | src/algorithm/merge-sort.test.ts:4-22 | Sorting five entries gives a sorted rearrangement of them |
| MergeSort.AlreadySortedScenario | src/algorithm/merge-sort.test.ts:14-17 | 1, 2, 3, 4, 5 comes back as 1, 2, 3, 4, 5 |
| MergeSort.ReversedScenario | src/algorithm/merge-sort.test.ts:19-22 | 5, 4, 3, 2, 1 sorts to 1, 2, 3, 4, 5 |
| MergeSort.ShortScenario | src/algorithm/merge-sort.test.ts:24-32 | [42] and [] come back as they are |
| Sequences.SortedUnique | src/algorithm/quick-sort.test.ts:22-32 | Two sorted sequences with the same entries are equal, so the expected arrays of the sorting tests follow from sortedness and entries alone |

## Left out

- `Graph.toString` and the graph tests that read it: the model states those tests' effects on the adjacency map directly, as the contracts of the mutators.
- `src/list-node.ts`: a plain record with no behaviour that the list does not use. The list has its own `ListNode`.
- `findByPredicate` and `deleteByPredicate`: the hash table and the list tests call them, but `src/linked-list.ts` does not define them. Each bucket is modelled as a sequence of key/value entries, searched and deleted first match first (`HashTables.FindEntry`, `HashTables.Put`, `HashTables.Remove`). The list tests of those methods are not modelled.
- HashTables.HashTable.Set: the bucket is replaced by a new sequence instead of the entry's value being updated in place. The represented map and the bucket's order are the same.
- HashTables.HashTable.constructor: requires at least one bucket. With zero buckets, `hash % 0` gives `NaN` in the source and every later operation fails, so the model does not take that input. The default of 32 buckets is left to the caller.
- Generic element types: the sorts, the search, the tree and the heap priorities are over `int`, so the comparisons are total. The string test of binary search and floating-point priorities (including NaN) are not modelled. The list, queue, stack and graph stay generic over types with equality.
- Characters: a key or word is a `seq<char>`, and a character's code is its ordinal. The UTF-16 detail of `Array.from` and `charCodeAt(0)` is not modelled.
- Node identity: the nodes returned by `find` and `delete` are stated by their position and value in the list. Nothing about other references to them is modelled.
- PriorityQueues.PriorityQueue.ExtractMin: among equal priorities it says only that a minimal entry comes out, not which one, as the source's tests leave that open.
- MergeSort.Sort: stability is not stated. The merge takes the right entry on ties, so it is not stable as described in the source's comment.
- Tries.TrieNode carries a ghost `path` (the characters leading to it) and the trie a ghost map from paths to nodes. These are proof aids with no counterpart in the source.
- Several loops of the source are split into a method per round for the proof (`BfsRound`, `EnqueueUnvisitedNeighbours`, `Descend`/`AddChild`/`LinkChild`/`MarkWord`, `PartitionStep`, `SwapUp`/`SwapDown`, `DeleteAfterHead`/`UnlinkAfter`). Each does exactly what that round of the source does.
- Tests with no scenario method. Their expected results follow from the contracts of the operations they call:
  - the eight-entry and duplicate-entry sorting tests (src/algorithm/quick-sort.test.ts:4-14, src/algorithm/merge-sort.test.ts:4-12), from `QuickSort.Sort`, `MergeSort.Sort` and `Sequences.SortedUnique`;
  - the two cycle tests of the graph (src/graph.test.ts:99-105 and 119-124), from `Graphs.Graph.Bfs`, `Graphs.Graph.Dfs` and the lemmas on `BfsOrder` and `DfsOrder`;
  - the hash-table tests on the keys 'name', 'nonexistent' and 'city' (src/hash-table.test.ts:11-19 and 40-48), from `HashTables.HashTable.Set`, `Get` and `Delete`;
  - the `deleteByPredicate` and `findByPredicate` tests of the list, listed above.
- `Option` results: `None` and `Some(null)` are different values, but the source answers `T | null`, so a stored `null` and an empty structure give the same answer there (for example `pop` on a stack holding `null`). The model keeps the two apart.
- Time complexity, recursion depth and the test harness itself.

## Findings

| source | as written | input that shows it | evidently intended | confidence | as-written member | corrected member |
|---|---|---|---|---|---|---|
| src/linked-list.ts:111-114 | on a match at the head, `delete` calls `deleteHead()` and then returns `this.head`, the new head | `delete(10)` on [10] returns null although 10 was removed; on [10, 20] it returns the node holding 20 | return the removed node, as the doc comment at lines 101-105 says | not executed | LinkedLists.DeleteHeadAsWritten | LinkedLists.DeleteHeadCorrected |
