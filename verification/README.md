# Smart-city data structures and road network, in Dafny

A model of the hand-written data structures at the core of the smart-city
simulator (the English copy `main.cpp` and the Indonesian copy `kota-pintar.cpp`
share the same logic line for line). The model covers:

- the road network `Graph`: `findVertex`, `addVertex` and `addEdge`;
- breadth-first and depth-first traversal (`BFS`, `DFSUtil`/`DFS`);
- `Dijkstra`, with the sorted frontier list `sortedInsertDijkstra` as its
  priority queue;
- the FIFO `ManualQueue`, with `enqueue`, `dequeue` and `priorityEnqueue`;
- the LIFO `ManualStack` and the capacity guard of `ParkingManagement`;
- the sentinel list `ManualLinkedList`;
- the autocompletion `Trie`: `insert`, `search`, and `getSuggestions`, capped at
  five suggestions;
- `NaryTree::addChild`;
- the default six-intersection road network built at start-up.

Linked structures are modelled as immutable values. The vertex list, the
adjacency lists, the queue and stack chains, the list nodes and the frontier
are all sequences. A tree or trie node is a datatype with `Nil` for NULL.
The per-vertex `visited` and `distFromSource` fields live in sets and maps
local to each algorithm. The sentinel `2147483647` is the distance `Inf`.

Modules, one file each:

- `Wrappers`: the option type.
- `Graph`: the graph, its edits, reachability by hops, and weighted walks.
- `Frontier`: `sortedInsertDijkstra`.
- `Queue`: the queue.
- `Stack`: the stack and the parking tower.
- `LinkedList`: the sentinel list.
- `NaryTree`: the tree.
- `Trie`: the trie.
- `Traversal`: BFS and DFS.
- `ShortestPath`: Dijkstra.
- `CityNetwork`: the default network and its distances.

The two copies differ in three places that matter to the model:

- Only the Indonesian copy has the empty-word guard in
  `getSuggestionsRecursive`. It is the `skipEmpty` flag of the trie functions.
- The stacks return different marker strings on an empty stack. The model uses
  the English `"ERROR_EMPTY_STACK"`.
- Only the Indonesian copy checks `NaryTree::findNode` for a NULL root. The
  model's tree allows `Nil`, and searching `Nil` finds nothing.

## Model

| member | source | states |
|---|---|---|
| Graph.EmptyGraph | kota-pintar.cpp:563 | The new graph is valid and has no vertices. |
| Graph.IndexOf | kota-pintar.cpp:574-583 | Finds the first position holding the id, or reports absence exactly when the id is not in the list. |
| Graph.FindVertex | kota-pintar.cpp:574-583 | Finds the first vertex in list order with that id. It answers NULL exactly when the id is not a vertex. |
| Graph.AddVertex | kota-pintar.cpp:585-594 | A known id: reports a duplicate and leaves the graph unchanged. A new id: goes to the head of the vertex list with no edges and its name, `numVertices` goes up by one, and the graph stays valid. |
| Graph.AddEdge | kota-pintar.cpp:596-614 | A missing endpoint: reports it and leaves the graph unchanged. Otherwise one edge goes to the head of the source's list only. No reverse edge is added, and the vertices, names and other lists are unchanged. |
| Graph.AddVertexTwice | kota-pintar.cpp:585-590 | Adding the same id again reports the duplicate and changes nothing. |
| Frontier.InsertionPoint | kota-pintar.cpp:146-153 | The splice point. Every entry before it is strictly closer, and the entry at it (if any) is not, so a newcomer goes ahead of equal distances. |
| Frontier.InsertionPointUnique | kota-pintar.cpp:146-153 | Any index with those two properties is the insertion point. |
| Frontier.SortedInsert | kota-pintar.cpp:144-157 | The result is the old list with the new entry spliced in at the insertion point, one longer. |
| Frontier.SortedInsertScan | kota-pintar.cpp:144-157 | The head test followed by the `current` cursor walk builds exactly the recursive insertion's list. |
| Frontier.SortedInsertSorted | kota-pintar.cpp:144-157 | Inserting into a list sorted by distance keeps it sorted. |
| Frontier.SortedInsertPermutes | kota-pintar.cpp:144-157 | The result's entries are the old entries plus the new one, as a multiset. |
| Frontier.SortedInsertMembers | kota-pintar.cpp:144-157 | An entry is in the result exactly when it is the new one or was already there. |
| Queue.EmptyQueue | kota-pintar.cpp:180 | A new queue is valid, empty and has count 0. |
| Queue.FrontNullIffRearNull | kota-pintar.cpp:188-190 | In a valid queue, `front` is NULL exactly when `rear` is, and empty means count 0. |
| Queue.Queue.Front | kota-pintar.cpp:246-248 | `peek`: NULL exactly when the queue is empty, otherwise the front node. The queue is not changed. |
| Queue.Enqueue | kota-pintar.cpp:197-207 | Appends a node of priority 1 after `rear`, adds one to the count, and keeps the front of a non-empty queue. |
| Queue.Dequeue | kota-pintar.cpp:232-244 | An empty queue: NULL, queue unchanged. Otherwise: returns the front node, the rest stays in order, the count drops by one, and `rear` is cleared when the queue empties. |
| Queue.EnqueueDequeueCommute | kota-pintar.cpp:197-244 | On a non-empty queue, enqueue then dequeue equals dequeue then enqueue. |
| Queue.FifoOrder | kota-pintar.cpp:197-244 | Enqueueing a run of payloads into an empty queue and draining it returns them in the same order. |
| Queue.StablePoint | kota-pintar.cpp:211-229 | The stable place for a priority. Every node before it has priority at most the new one's, and the node at it has a greater one. |
| Queue.ScanIsStablePoint | kota-pintar.cpp:222-225 | The `current` cursor loop stops just before the stable place. |
| Queue.PriorityEnqueue | kota-pintar.cpp:211-229 | The node is spliced in at the stable place, the count goes up by one, and `rear` stays the last node. |
| Queue.PriorityEnqueueStable | kota-pintar.cpp:211-229 | On a priority-sorted queue the result stays sorted. The newcomer follows every node of equal or lower number and precedes every node of higher number. |
| Stack.EmptyStack | kota-pintar.cpp:278 | A new stack is valid and empty. |
| Stack.Push | kota-pintar.cpp:294-299 | The value becomes the top, the old stack lies below it, and the count goes up by one. |
| Stack.Pop | main.cpp:301-311 | An empty stack: returns `"ERROR_EMPTY_STACK"` and is unchanged. Otherwise: returns the top, the rest remains, and the count drops by one. |
| Stack.Peek | main.cpp:313-318 | The top, or the marker on an empty stack. |
| Stack.PushPop | kota-pintar.cpp:294-311 | A pop right after a push returns the pushed value and restores the stack. |
| Stack.PushAllPopAll | kota-pintar.cpp:294-311 | Pushing a run of values and popping as many returns them reversed and restores the stack. |
| Stack.NewParkingLot | main.cpp:887 | An empty tower with the given capacity, 10 when none is given. |
| Stack.ParkVehicle | main.cpp:889-896 | The vehicle is parked exactly when the tower holds fewer than `capacity` vehicles. Then the plate is pushed; otherwise nothing changes. A park never takes the tower beyond capacity. |
| Stack.UnparkVehicle | main.cpp:898-905 | An empty tower: nothing happens. Otherwise the most recently parked plate comes off. |
| Stack.Step | main.cpp:889-905 | One request grows the tower by at most one and keeps it within capacity when it started within. |
| Stack.NeverOverCapacity | main.cpp:889-905 | Starting within capacity, any sequence of park and unpark requests keeps the tower within capacity. |
| LinkedList.EmptyList | kota-pintar.cpp:60-65 | A new list is valid and empty. |
| LinkedList.InsertAtTail | kota-pintar.cpp:85-92 | The node becomes the last one after the old nodes, and the count goes up by one. |
| LinkedList.InsertAtHead | kota-pintar.cpp:94-101 | The node becomes the first one before the old nodes, and the count goes up by one. |
| LinkedList.FindIndex | kota-pintar.cpp:103-112 | The position of the first node with the id, or none exactly when no node has it. |
| LinkedList.FindNode | kota-pintar.cpp:103-112 | A found node has the id and is the first such node walking from the head. NULL exactly when no node has the id. |
| LinkedList.DeleteNode | kota-pintar.cpp:114-124 | Reports true exactly when some node has the id. Then the first such node is unlinked and the count drops by one. Otherwise the list is unchanged. |
| LinkedList.DeleteRemovesOne | kota-pintar.cpp:114-124 | Deleting a present id removes exactly the node that `findNode` finds, and no other. |
| LinkedList.FindAfterInsertAtHead | kota-pintar.cpp:94-112 | After an insert at the head, `findNode` on the new node's id finds that node. |
| LinkedList.FindAfterInsertAtTail | kota-pintar.cpp:85-112 | After an insert at the tail, `findNode` finds the new node, unless an older node has the same id, which still wins. |
| NaryTree.FindNodeRecursive | kota-pintar.cpp:361-369 | A found node has the name. It is the tree's own node (with its children and later siblings) at the first position of the search order, the node first, then its descendants, then its later siblings, that carries the name. NULL exactly when no position carries it. |
| NaryTree.SubtreesNamed | kota-pintar.cpp:361-369 | The search visits nodes in the order their names are listed: the node at each position carries the name at that position. |
| NaryTree.FindNodeRecursiveAt | kota-pintar.cpp:361-369 | Conversely, whenever a position is the first in search order to carry the name, the search returns the node at that position. |
| NaryTree.FindNode | kota-pintar.cpp:371-374 | From the root: a found node has the name and is the tree's own node at the first position in search order that carries it. NULL exactly when no node of the tree has it, or the root is NULL. |
| NaryTree.FindNodeIsRecursive | kota-pintar.cpp:371-374 | Testing the root and then searching its children is the recursive search from the root. |
| NaryTree.AppendSibling | kota-pintar.cpp:387-392 | Walking to the end of a sibling chain and linking the leaf there puts it last. Sizes and names add up. |
| NaryTree.AddUnder | kota-pintar.cpp:377-393 | The tree gains one node when the parent is present and is unchanged otherwise. No name is lost. Removing the last child of the first node named `parent` gives back exactly the old tree, so no other node moves or changes. |
| NaryTree.AddUnderNames | kota-pintar.cpp:377-393 | The tree's names gain exactly the child's name, as a multiset. |
| NaryTree.AddChild | kota-pintar.cpp:377-393 | A missing parent leaves the tree unchanged, otherwise it grows by one node. The root keeps no siblings. Removing the last child of the first node named `parent` gives back exactly the old tree. |
| NaryTree.AddUnderAppendsChild | kota-pintar.cpp:377-393 | Afterwards the search finds the parent again, with the new leaf appended as its last child. |
| NaryTree.AddChildAppends | kota-pintar.cpp:377-393 | The same seen from the root via `findNode`. |
| Trie.NewNode | kota-pintar.cpp:422-428 | A new node has 26 child slots, all NULL. It does not end a word, and its stored word is empty. |
| Trie.Index | kota-pintar.cpp:454-457 | A letter's slot, folded to lower case, is below 26. |
| Trie.Key | kota-pintar.cpp:449-465 | The path `insert` follows: valid slots, one per character when every character is a letter. |
| Trie.KeyCaseInsensitive | kota-pintar.cpp:449-465 | Two all-letter strings follow the same path exactly when they agree up to case. |
| Trie.Insert | kota-pintar.cpp:449-465 | Insertion keeps every node at 26 slots. |
| Trie.InsertStored | kota-pintar.cpp:449-465 | Afterwards the word is stored at the end of its key, and every other stored word is unchanged. |
| Trie.Walk | kota-pintar.cpp:502-516 | A walk that succeeds ends on a valid node. |
| Trie.WalkDescends | kota-pintar.cpp:467-481 | The walk succeeds exactly when every character is a letter and the key's node exists, and then it is that node. |
| Trie.Search | kota-pintar.cpp:467-481 | True exactly when every character is a letter and a word is stored at the end of the key. |
| Trie.InsertThenSearch | kota-pintar.cpp:449-481 | After inserting an all-letter word, searching for it in any case succeeds. |
| Trie.InsertOtherSearch | kota-pintar.cpp:449-481 | Inserting a word leaves the search for any other key unchanged. |
| Trie.InsertedNameWithSpaceNotFound | kota-pintar.cpp:449-481 | A word with a space is inserted, yet searching for it fails, because `insert` skips non-letters while `search` stops at them. |
| Trie.AddSuggestion | kota-pintar.cpp:490-491 | The suggestion goes at the tail with the next number, and the names grow by the word. |
| Trie.SuggestionsFrom | kota-pintar.cpp:484-500 | The list's names become the first five of the old names followed by the pre-order listing of stored words under the node, children from 'a' to 'z'. |
| Trie.CollectSound | kota-pintar.cpp:484-500 | Every listed word is stored somewhere under the node. |
| Trie.CollectComplete | kota-pintar.cpp:484-500 | Every stored word under the node is listed, unless it is empty and the empty-word guard is on. |
| Trie.GetSuggestions | kota-pintar.cpp:502-521 | Returns at most five numbered suggestions. It is empty when the prefix has a non-letter or leaves the trie. Otherwise it holds the first five stored words under the prefix node, in pre-order, each stored below the prefix. |
| Trie.SuggestedStored | kota-pintar.cpp:502-521 | Every suggestion is a word stored below the prefix. |
| Traversal.ScanEdges | kota-pintar.cpp:666-676 | Scanning the dequeued vertex's edges queues, in list order, each target that is not yet visited, once, and marks it visited. |
| Traversal.BFS | kota-pintar.cpp:639-679 | No output for an unknown start. Otherwise the output starts at the start and repeats no vertex. It holds exactly the vertices reachable from the start. Each later vertex has an edge into it from an earlier one, and the order never decreases in hop distance. The output is exactly the reference order `BfsOrder`: vertices in dequeue order, each one's unmarked targets queued in adjacency-list order (newest edge first). |
| Traversal.BfsNewestEdgeFirst | kota-pintar.cpp:666-676 | After `addEdge(1, 2)` and then `addEdge(1, 3)`, the traversal from 1 is 1, 3, 2. |
| Traversal.DfsVisit | kota-pintar.cpp:681-694 | A visit extends the output with `v` first, and the marks stay exactly the output, each vertex once. Every vertex output during the visit has all its edge targets marked. Each after `v` was reached over an edge from one output during the visit. The marks and output afterwards are exactly those of the reference visit `DfsFrom`, which follows the targets in adjacency-list order and goes deep first. |
| Traversal.DFS | kota-pintar.cpp:696-709 | No output for an unknown start. Otherwise the output starts at the start and repeats no vertex. It holds exactly the vertices reachable from the start, and each later vertex has an edge into it from an earlier one. The output is exactly the reference order `DfsOrder`. |
| Traversal.DfsDepthFirst | kota-pintar.cpp:681-694 | With edges 1→2, 1→3 and 2→4 in that list order, the traversal from 1 is 1, 2, 4, 3: the visit of 2 finishes before 3 is reached. |
| ShortestPath.InitialDistances | kota-pintar.cpp:719-725 | Zero for the start and the sentinel for every other vertex. |
| ShortestPath.RelaxAll | kota-pintar.cpp:747-763 | The edge loop keeps Dijkstra's loop invariant. Unsettled targets are lowered and queued when the path through `u` is shorter. |
| ShortestPath.Dijkstra | kota-pintar.cpp:712-766 | No table for an unknown start. Otherwise every vertex has an entry, and the start's entry is 0. An entry is finite exactly when the vertex is reachable, and each finite entry is the weight of a walk. With non-negative weights, no walk from the start is shorter than its end's entry. |
| ShortestPath.PotentialBound | kota-pintar.cpp:712-766 | A potential that is zero at the start and drops by at most an edge's weight along every edge is a lower bound on every walk. |
| ShortestPath.CertifiedTable | kota-pintar.cpp:712-766 | A table that is sound and optimal from the start equals any such potential whose values are each the weight of some walk. |
| CityNetwork.AddIntersection | kota-pintar.cpp:999-1004 | A new id goes to the head of the vertex list with an empty adjacency list. A known id changes nothing. |
| CityNetwork.AddIntersections | kota-pintar.cpp:999-1004 | The vertex calls in order give the stated vertex list and adjacency lists, and the graph stays valid. |
| CityNetwork.AddRoad | kota-pintar.cpp:1008-1009 | An edge from `a` to `b` goes to the head of `a`'s list, then the return edge to the head of `b`'s. |
| CityNetwork.AddRoads | kota-pintar.cpp:1008-1021 | The road calls in order keep the vertex list, and keep every road drivable both ways. |
| CityNetwork.LayTwoWay | kota-pintar.cpp:1008-1021 | Laying a two-way road keeps every edge paired with a reverse edge of the same weight. |
| CityNetwork.DefaultNetwork | kota-pintar.cpp:999-1021 | The start-up network has vertices 6 down to 1 and exactly the stated adjacency lists, newest edge first. It is valid and every road is two-way. |
| CityNetwork.DefaultNonNegative | kota-pintar.cpp:1008-1021 | No default road has a negative length. |
| CityNetwork.DefaultFeasible | kota-pintar.cpp:1008-1021 | Along every default road, the expected distances differ by at most the road's length. |
| CityNetwork.DefaultRoutes | kota-pintar.cpp:1008-1021 | Each expected distance is the length of a route from 1. |
| CityNetwork.DefaultTable | kota-pintar.cpp:999-1021 | The only shortest-distance table from 1 on the default roads is {1:0, 2:5, 3:9, 4:3, 5:9, 6:7}. |
| CityNetwork.ShortestFromOne | kota-pintar.cpp:999-1021 | `Dijkstra(1)` on the start-up network returns {1:0, 2:5, 3:9, 4:3, 5:9, 6:7}. |

## Left out

- Printing, menus, prompts and every `display*` function: they only produce text.
- `CitizenManagement`, `TrafficManagement`, `UrbanStructure`, `NetworkService` and the simulator shell: they are callers of the modelled structures, not part of them.
- Destructors and `delete`: memory is not modelled.
- `to_string`/`stoi` around the BFS queue: the model queues vertex ids directly, which is the round trip those calls intend.
- 32-bit integers: ids, weights, counts and distances are unbounded. `u->distFromSource + edge->weight` could overflow in the original; the model has no overflow. The sentinel `2147483647` is the separate value `Inf`, so a finite distance equal to it cannot be confused with "unreachable".
- Recursion depth of `DFSUtil`, `findNodeRecursive` and `getSuggestionsRecursive`: the stack space they need is not modelled.
- The list's sentinel node and `prev` pointers: only the order of the nodes walked from `sentinel->next` is kept.
- The `vehicleType` field of `QueueNode`: the queue payload is generic.
- The `currentPrefix` argument of `getSuggestionsRecursive`: it is never used.
- The names in `ParkingManagement` messages and the parking tower's display.
- ShortestPath.Dijkstra: optimality is stated only for non-negative weights. With a negative edge the original's results depend on the visiting order, and the model claims only soundness and reachability then.
- CityNetwork.AddIntersections: the default network is built by iterating over a list of intersections and a list of roads. The original makes twenty separate calls in the same order: six for the intersections and fourteen for the road directions.
