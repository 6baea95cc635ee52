# NavigateX in Dafny

A model of the data structures in `NavigateX.cpp`, a single-file C++ city
navigation demo, with proofs of what each structure promises. The model covers:

- **AVL tree** (`AVLTree`): a string-keyed map with both rebalancing rules as written. Insertion picks its rotation by comparing keys; deletion picks it by the child's balance factor.
- **Weighted undirected graph** (`Graph`):
  - locations are deduplicated case-insensitively and get sequential ids;
  - edges are symmetric and re-adding an edge overwrites its weight;
  - Dijkstra's `shortestPath`, including the skip of stale queue entries and the walk back along parents;
  - `BFS`, recursive `DFS`, `isConnected` and `getEdgeCount`.
- **Trie** (`Trie`): word insertion that skips non-letters and folds case, and `suggest` as a prefix walk followed by a pre-order collection.
- **Chained hash table** (`CustomHashTable`): insert-or-overwrite, doubling rehash at load factor 0.75, search, remove and the entry listing.
- **Singly linked bus routes** (`BusRoute`, `BusRouteManager`): append, delete the first match, in-place reversal, size, and the route registry.
- **User registry** (`UserSystem`) and **traffic queue** (`TrafficManager`).
- **Graph demonstration**: the four-city road network and the cheapest Mumbai to Chennai route.

One module per structure:

| file | module |
|---|---|
| `common.dfy` | `Common` |
| `text.dfy` | `Text` (C++ `std::string` ordering and ASCII `tolower`) |
| `avl.dfy` | `Avl` |
| `graph.dfy` | `WeightedGraph` |
| `shortest_path.dfy` | `ShortestPath` |
| `traversal.dfy` | `Traversal` |
| `trie.dfy` | `Trie` |
| `hash_table.dfy` | `HashTable` |
| `bus_route.dfy` | `BusRoutes` |
| `user_system.dfy` | `UserSystem` |
| `traffic.dfy` | `Traffic` |
| `demo.dfy` | `Demo` |

Pointer structures become immutable datatypes:

- AVL nodes are a `Tree` datatype that keeps the cached height.
- Trie nodes hold 26 optional children.
- Stop lists are a `StopList` datatype.
- Hash chains are `seq<Entry>`.

The C++ `int` is unbounded `int`/`nat`, and `INF` and the null pointer become `Option.None`. The hash function is a parameter `h: string -> nat`; the bucket is `h(key) % capacity`.

## Model

| member | source | states |
|---|---|---|
| Avl.RotateRight | NavigateX.cpp:635-646 | a right rotation keeps the in-order listing, and so the stored map |
| Avl.RotateLeft | NavigateX.cpp:648-659 | a left rotation keeps the in-order listing, and so the stored map |
| Avl.RotateRightOrdered | NavigateX.cpp:635-646 | a right rotation of a search tree is a search tree |
| Avl.RotateLeftOrdered | NavigateX.cpp:648-659 | a left rotation of a search tree is a search tree |
| Avl.RotateRightRepairs | NavigateX.cpp:738-740 | a single right rotation of a node whose left side is two taller, with a left child not leaning right, gives correct cached heights and balance factors in [-1, 1] |
| Avl.DoubleRightRepairs | NavigateX.cpp:742-745 | the left-right double rotation of a node whose left side is two taller and whose left child leans right gives correct cached heights and balance factors in [-1, 1], at the right side's height + 2 |
| Avl.RotateLeftRepairs | NavigateX.cpp:747-749 | mirror image of RotateRightRepairs |
| Avl.DoubleLeftRepairs | NavigateX.cpp:751-754 | mirror image of DoubleRightRepairs |
| Avl.RebalanceAfterInsert | NavigateX.cpp:675-696 | the key-comparison rotation choice of insertHelper keeps the in-order listing and the stored map |
| Avl.InsertLeftHeavy | NavigateX.cpp:678-689 | when insertion into the left subtree unbalances a node, the key-comparison rule picks a rotation that restores the AVL invariant at the old height |
| Avl.InsertRightHeavy | NavigateX.cpp:682-694 | mirror image of InsertLeftHeavy |
| Avl.InsertBalanced | NavigateX.cpp:696 | no rotation fires while the balance factor is in [-1, 1] |
| Avl.InsertHelper | NavigateX.cpp:661-697 | on an AVL tree, insertion yields an AVL tree (ordered, heights cached, balanced) whose map is the old map updated at k; the height grows by at most one |
| Avl.InsertExistingKeepsShape | NavigateX.cpp:670-672 | re-inserting a present key changes only its value: the shape and all keys and heights stay |
| Avl.MinEntry | NavigateX.cpp:699-705 | the leftmost entry is stored, and its key is the least in the tree |
| Avl.RebalanceAfterDelete | NavigateX.cpp:735-756 | the child-balance rotation choice of deleteHelper keeps the in-order listing and the stored map |
| Avl.FixUpRightHeavy | NavigateX.cpp:747-754 | after a deletion left a node two shorter on the left, the child-balance rule restores the AVL invariant |
| Avl.FixUpLeftHeavy | NavigateX.cpp:738-745 | mirror image of FixUpRightHeavy |
| Avl.FixUpValid | NavigateX.cpp:756 | an already balanced node is returned unchanged |
| Avl.DeletedBySuccessor | NavigateX.cpp:725-730 | copying the right subtree's least entry up and deleting it below removes exactly the node's key |
| Avl.DeletedSingle | NavigateX.cpp:715-724 | a node with at most one child is replaced by that child, removing exactly its key |
| Avl.DeleteHelper | NavigateX.cpp:707-757 | on an AVL tree, deletion yields an AVL tree whose map is the old map without k; the height drops by at most one |
| Avl.Search | NavigateX.cpp:759-769 | on a search tree, the lookup finds a value exactly for the stored keys, and it is the stored value |
| Avl.InorderKeys | NavigateX.cpp:771-777 | the in-order listing holds exactly the stored keys |
| Avl.InorderValues | NavigateX.cpp:771-777 | every listed pair is a stored key with its stored value |
| Avl.InorderSorted | NavigateX.cpp:771-777 | on a search tree the listed keys are strictly ascending |
| Avl.InorderListsContents | NavigateX.cpp:818-822 | `inorderTraversal` lists exactly the stored pairs in strictly ascending key order |
| Avl.Insert | NavigateX.cpp:803-805 | `insert` keeps the AVL invariant; afterwards `search(k)` gives v and every other key's lookup is unchanged |
| Avl.Remove | NavigateX.cpp:807-811 | `remove` answers whether k was present and keeps the AVL invariant; an absent key leaves the tree unchanged; afterwards k is absent and every other key's lookup is unchanged |
| Text.LessTotal | NavigateX.cpp:666-672 | string `<` is total: two strings are equal or one is less, so the three-way branch of insertHelper covers every key |
| Text.LessTransitive | NavigateX.cpp:666-669 | string `<` is transitive, which search-tree ordering relies on |
| Text.LessAsymmetric | NavigateX.cpp:666-669 | string `<` is asymmetric |
| Text.LessIrreflexive | NavigateX.cpp:666-669 | string `<` is irreflexive |
| Text.LowerCharFacts | NavigateX.cpp:27-30 | ASCII `tolower` is idempotent, sends every letter to a lower-case letter and leaves no upper-case letter, keeps non-letters non-letters, and identifies two characters exactly when they are equal or one is the upper-case form (32 code points below) of the other |
| WeightedGraph.Find | NavigateX.cpp:238-246 | the lookup of `nameToNode` gives the first id whose name equals the query up to case, and nothing when none does |
| WeightedGraph.ActualName | NavigateX.cpp:248-256 | the stored spelling of a known location, otherwise the name itself; either way equal to the query up to case |
| WeightedGraph.AddLocation | NavigateX.cpp:200-215 | a case-insensitively known name gives back the existing id and graph; otherwise the new id is the previous node count, with the name appended and an empty adjacency list |
| WeightedGraph.AddLocationCaseInsensitive | NavigateX.cpp:200-215 | adding a name that equals an added one up to case changes nothing and gives the same id |
| WeightedGraph.AddLocationValid | NavigateX.cpp:200-215 | adding a location keeps names distinct up to case and adjacency symmetric and simple |
| WeightedGraph.AddEdge | NavigateX.cpp:217-236 | `addEdge` keeps the graph well formed and makes both endpoints known locations |
| WeightedGraph.AddEdgeValid | NavigateX.cpp:217-236 | for distinct endpoints and any weight, `addEdge` keeps adjacency symmetric with one entry per neighbour, records w in both lists, and raises the edge count by one exactly when the pair was not joined before |
| WeightedGraph.AddEdgeKeepsOthers | NavigateX.cpp:217-236 | `addEdge` leaves the weight between every other pair of existing locations unchanged |
| WeightedGraph.LinkValid | NavigateX.cpp:220-235 | the update-or-append of the two adjacency lists keeps the invariant; the entry total grows by two only for a new pair |
| WeightedGraph.LinkSelfAppends | NavigateX.cpp:233-234 | linking a location to itself when its list has no entry for itself appends two entries to that list and changes no other list |
| WeightedGraph.LinkSelfUpdatesFirst | NavigateX.cpp:221-230 | linking a location to itself when its list has an entry for itself sets the weight of the first such entry only and changes no other list |
| WeightedGraph.SelfLoopSameId | NavigateX.cpp:200-219 | two names equal up to case get the same id from the two `addLocation` calls of `addEdge`, whether or not the location existed |
| WeightedGraph.SelfLoopDuplicates | NavigateX.cpp:217-236 | for any graph and any two names equal up to case, `addEdge` pushes two entries into the location's list when it has none for itself, and otherwise updates only the first of them; no other list changes |
| WeightedGraph.EdgeCount | NavigateX.cpp:399-405 | `getEdgeCount` is half the number of adjacency entries |
| WeightedGraph.ClosedContainsReachable | NavigateX.cpp:320-351 | a marking that contains the start and is closed under edges contains every reachable location |
| ShortestPath.FeasibleBoundsWalks | NavigateX.cpp:294-298 | a labelling that no edge can improve is a lower bound on the cost of every walk from the source |
| ShortestPath.PopMin | NavigateX.cpp:283-284 | the min-priority queue pops an entry no greater than any other, and the rest is the queue minus that entry |
| ShortestPath.RelaxEdges | NavigateX.cpp:290-299 | relaxing the edges of the settled location keeps the Dijkstra invariant and makes no label worse |
| ShortestPath.SkipKeeps | NavigateX.cpp:287 | skipping a stale queue entry of an already visited location keeps the invariant |
| ShortestPath.Settle | NavigateX.cpp:269-300 | when the queue empties, every finite label belongs to a visited location and the labels, parents and queue satisfy the Dijkstra invariant |
| ShortestPath.SettledFeasible | NavigateX.cpp:282-300 | after the main loop no edge can improve any label |
| ShortestPath.WalkBack | NavigateX.cpp:306-314 | following parents from the destination lists ids from the source to the destination along a walk whose cost is the destination's label |
| ShortestPath.ShortestRoute | NavigateX.cpp:269-317 | a result exists exactly when the destination is reachable, and then it lists the locations of a cheapest walk and gives its cost |
| ShortestPath.ShortestPathByName | NavigateX.cpp:258-318 | `shortestPath` succeeds exactly when both names are known and the destination is reachable; then the path names the locations of a cheapest walk and the distance is its cost; otherwise the path is empty and there is no distance |
| Traversal.BfsFrom | NavigateX.cpp:328-350 | BFS lists the start first, then every reachable location exactly once and nothing else; it marks exactly the reachable locations |
| Traversal.Bfs | NavigateX.cpp:320-351 | `BFS` is empty for an unknown start, otherwise a traversal of the start's component |
| Traversal.DfsVisit | NavigateX.cpp:185-195 | the recursive visit lists u first, then only locations reachable from u, and leaves the listed range closed under edges |
| Traversal.Dfs | NavigateX.cpp:353-367 | `DFS` is empty for an unknown start, otherwise a traversal of the start's component |
| Traversal.IsConnected | NavigateX.cpp:369-396 | `isConnected` holds exactly when every location is reachable from location 0 (so it holds for the empty graph) |
| Trie.Idx | NavigateX.cpp:96-101 | a letter's slot is its lower-case position in 0..25, and -1 is returned exactly for non-letters |
| Trie.NormalizeIdempotent | NavigateX.cpp:139-147 | the folding that insertion applies to a word is idempotent |
| Trie.InsertMember | NavigateX.cpp:136-150 | after `insert(word)` the stored words are the old ones plus the word folded to lower-case letters only |
| Trie.MemberFolded | NavigateX.cpp:139-147 | every stored word consists of lower-case letters only |
| Trie.CollectAllSpec | NavigateX.cpp:103-115 | `collectAll` lists exactly the prefix extended by each word stored below the node, in strictly ascending order |
| Trie.SuggestSpec | NavigateX.cpp:152-171 | `suggest(p)` returns exactly the stored words that extend the folded p, without duplicates and in lexicographic order |
| Trie.SuggestMissingPath | NavigateX.cpp:156-162 | when the folded prefix leaves the trie, `suggest` returns nothing |
| Trie.DescendMissing | NavigateX.cpp:156-162 | no stored word extends a prefix whose path is missing |
| HashTable.New | NavigateX.cpp:885-887 | a new table has the requested number of empty buckets and satisfies the table invariant for every hash function |
| HashTable.EntriesSpec | NavigateX.cpp:962-972 | `getAllEntries` holds exactly the pairs `search` finds, and as many as `size` counts |
| HashTable.SearchIff | NavigateX.cpp:920-932 | `search(key)` gives v exactly when the pair is stored |
| HashTable.Rehash | NavigateX.cpp:865-882 | `rehash` doubles the capacity, keeps the table invariant, size and the stored pairs, and changes no search result |
| HashTable.MoveChain | NavigateX.cpp:871-879 | moving one old chain to the new buckets keeps every key in its bucket with unique keys, and adds exactly that chain's entries |
| HashTable.Insert | NavigateX.cpp:900-918 | `insert` returns true exactly for a new key; afterwards search gives the new value and other keys are unchanged; size grows only for a new key; capacity doubles exactly for a new key at load ≥ 0.75; the table invariant and the load bound are kept |
| HashTable.OverwriteSpec | NavigateX.cpp:901-905 | overwriting a present key's value keeps the invariant, the capacity and every other key |
| HashTable.AddSpec | NavigateX.cpp:911-915 | linking a new key at the head of its bucket keeps the invariant and every other key |
| HashTable.RemoveSpec | NavigateX.cpp:934-955 | `remove` returns true exactly for a present key and then decrements size; an absent key leaves the table unchanged; afterwards the key is absent, other keys are unchanged and the invariant holds |
| BusRoutes.AddStop | NavigateX.cpp:436-449 | `addStop` appends the stop at the tail |
| BusRoutes.DeleteStopSpec | NavigateX.cpp:451-472 | `deleteStop` succeeds exactly when the stop is present, removes only its first occurrence, and leaves the list unchanged otherwise |
| BusRoutes.ReverseNames | NavigateX.cpp:474-486 | `reverseRoute` reverses the stop sequence |
| BusRoutes.ReverseTwice | NavigateX.cpp:474-486 | reversing a route twice gives back the same list |
| BusRoutes.Size | NavigateX.cpp:498-506 | `size` equals the number of stops `getStopsVector` lists |
| BusRoutes.AddRoute | NavigateX.cpp:514-520 | `addRoute` adds an empty route exactly when the name is new; other routes are untouched |
| BusRoutes.AddStopToRoute | NavigateX.cpp:522-528 | succeeds exactly for a known route and appends the stop to it alone |
| BusRoutes.DeleteStopFromRouteSpec | NavigateX.cpp:530-535 | succeeds exactly when the route exists and holds the stop, and removes its first occurrence |
| BusRoutes.DeleteRoute | NavigateX.cpp:537-543 | succeeds exactly for a known route, removes that name alone and keeps the other routes |
| BusRoutes.ReverseRouteSpec | NavigateX.cpp:545-551 | reverses the named route's stops; reversing twice gives back the same registry |
| BusRoutes.RouteStops | NavigateX.cpp:561-566 | a known route gives its stop names from the head on; an unknown route has no stops |
| BusRoutes.AllRouteNames | NavigateX.cpp:553-559 | lists every route name exactly once |
| UserSystem.AddUser | NavigateX.cpp:51-57 | `addUser` succeeds exactly for a new id and only then grows the registry |
| UserSystem.AddUserFind | NavigateX.cpp:51-62 | a refused `addUser` does not overwrite the stored user; a successful one stores the new user; other ids are unaffected |
| UserSystem.FindUser | NavigateX.cpp:59-62 | `findUser` finds a user exactly for a registered id, and it is the stored user |
| UserSystem.RemoveUser | NavigateX.cpp:64-70 | `removeUser` succeeds exactly for a registered id and only then shrinks the registry |
| UserSystem.RemoveUserFind | NavigateX.cpp:64-70 | after `removeUser` the id is unknown and other ids are unaffected; removing a just-added user restores the registry |
| Traffic.CodeRoundTrip | NavigateX.cpp:574 | LOW, MEDIUM and HIGH are numbered 1, 2, 3 in increasing order, and decoding a number gives back the level exactly for 1 to 3 |
| Traffic.PushUpdateWins | NavigateX.cpp:589-602 | after `pushUpdate`, processing the queue leaves the pushed route at the pushed level and every other route where processing the old queue would |
| Traffic.LastLevelSnoc | NavigateX.cpp:593-602 | the last queued update for a route wins |
| Traffic.ProcessUpdates | NavigateX.cpp:593-602 | `processUpdates` drains the queue, returns how many updates it processed, and leaves each route at its last queued level (or at its old level if it had no update) |
| Demo.MumbaiToChennai | NavigateX.cpp:1052-1082 | in the demonstration network the route Mumbai, Bangalore, Chennai is a cheapest walk, at cost 1200, and it is the only cheapest walk |
| Demo.CitiesNonNegative | NavigateX.cpp:1061-1064 | the demonstration network has no negative weight, so Dijkstra's guarantee applies to it |

## Left out

- Console output is not modelled. This covers `printTree`, `printTable`, `printVector`, `printPath`, every `demonstrate*` function, `runAllDemonstrations` and `main`; they only print. The graph demonstration's expected route is stated as `Demo.MumbaiToChennai`.
- Manual memory management is replaced by immutable datatypes: `new`/`delete`, destructors, `destroyTree`, `destroyTrie`, and the node copy `*node = *temp` in `deleteHelper`. Only the resulting shapes are modelled.
- The djb2 hash (`hashFunction`) is left abstract, because its `unsigned long` wrap-around and signed `char` depend on the platform. It is the parameter `h`, and the bucket is `h(key) % capacity`. Every table property holds for every such `h`.
- `getLoadFactor` is not modelled as a `double`. The rehash test `size / capacity >= 0.75` is the integer comparison `4 * size >= 3 * capacity`, which is equal on these values.
- The trivial accessors are not modelled: `getSize`, `getCapacity`, `isEmpty`, `queueSize`, `getNodeCount` (NavigateX.cpp:398), `UserSystem::size`.
- `INF = INT_MAX` and `int` overflow of `dist[u] + w` are left out. Distances are unbounded, and `None` marks an unreached location.
- Locale behaviour of `tolower` and `isalpha` is not modelled; ASCII is assumed.
- The iteration order of `unordered_map` is not stated. This affects `getAllRouteNames` and the name lookup. `getAllEntries` walks the bucket vector by index (NavigateX.cpp:964), so its order is fixed, but HashTable.EntriesSpec states only which pairs it lists.
- HashTable.New: requires a positive capacity, since the constructor with capacity 0 would divide by zero in `hashFunction`.
- ShortestPath.ShortestPathByName: does not model the filter at NavigateX.cpp:308 that leaves empty names out of the path. The path lists every location's name, which is the same whenever names are non-empty.
- ShortestPath.ShortestPathByName: requires non-negative weights. `addEdge` accepts any weight, but Dijkstra's optimality needs that assumption, and with a negative weight the source does not finish at all: after `addEdge("A", "B", -5)`, `shortestPath("A", "B")` sets `parent[B] = A` (NavigateX.cpp:296); settling B then lowers A to -10 and sets `parent[A] = B`, and the walk back along parents (NavigateX.cpp:306-312) cycles between B and A for ever.
- ShortestPath.ShortestRoute: requires non-negative weights for the same reason. The walk back's termination measure rests on that requirement, so the non-terminating run above is not modelled.
- ShortestPath.WalkBack: builds the id list by prepending while it walks, rather than by `push_back` followed by `reverse`. The resulting sequence is the same.
- WeightedGraph.AddEdgeValid: assumes two different locations. `addEdge` itself accepts self-loops, and the function `WeightedGraph.AddEdge` models that, but the invariant excludes them: a self-loop pushes two entries into one list, and a later update only fixes the first, as WeightedGraph.SelfLoopDuplicates shows.
- WeightedGraph.AddEdgeKeepsOthers: assumes two different locations, for the same reason as AddEdgeValid.
- WeightedGraph.LinkValid: assumes two different ids, for the same reason as AddEdgeValid.
- Traversal.Bfs: states which locations are listed, each exactly once and the start first, but not the breadth-first level order.
- Traversal.Dfs: states which locations are listed, not the depth-first pre-order.
- Demo.MumbaiToChennai: proves the cost, optimality and uniqueness of the cheapest route but not the printed BFS and DFS orders or the node and edge counts. The graph is written as the demonstration's `addEdge` calls leave it.
- Avl.InsertHelper: requires the AVL invariant on its input, which `AVLTree` keeps as a class invariant. The double rotations dereference a grandchild that only the invariant guarantees to exist.
