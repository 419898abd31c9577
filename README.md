# Prefix tree, array list and adjacency graph in Dafny

This project models three small Java data structures and proves what each promises.

**The lowercase prefix tree of `Trie.java`.** Words over `'a'..'z'` are stored along paths of 26-way nodes.
- `insert` walks a word from the root and creates the missing children. It throws for a null or empty word, and for the first character outside `'a'..'z'` that it reaches.
- `contains`, `startsWith` and `findNode` walk without changing anything.
- `getByPrefix` and `collect` enumerate the words below a node depth-first. They push and pop a `StringBuilder` and append to a growable list.

**The growable array list of `myarraylist.java`.** `Trie.java` nests a line-for-line copy of the same class.
- It is an array buffer plus a `size` field.
- `add` appends. When the buffer is full, `grow` doubles it and copies the elements first.
- `get` is bounds-checked.

**The graph of `graph.java`.** Each vertex holds a value and a list of neighbour indices.
- `addVertex` appends a vertex.
- `addEdge` appends a neighbour index, and in an undirected graph it also appends the reverse index.
- `getNeighborValues` maps a vertex's neighbour indices to the neighbours' values.

## How the model is built

Modules:
- `Failures`: `Option` stands for Java's `null`. `Result` and `Outcome` stand for a value or a thrown exception. The `Error` kinds name the exceptions: invalid key, invalid symbol, null value and index out of range.
- `ArrayList`: class `MyArrayList<T>` keeps the source's `data` buffer and `size` field. It also has a ghost `Contents` sequence, which is the list as its user sees it. `Valid()` ties the buffer to `Contents` and keeps the capacity at 10 or more.
- `TrieNode`: the nodes of the tree and the pure specifications of its walks.
  - The tree is an arena: a sequence of `Node` values indexed by node number, with the root at 0. A child slot holds the child's index, or `None` for an empty slot.
  - `Arena` requires every child index to be greater than its parent's index. This makes the nodes a finite, acyclic structure.
  - Ghost sequences `spelling`, `parent` and `slot` give each node the string that leads to it and the slot it hangs from. `Labelled` is the tree invariant built on them.
  - `PathsOf` and `WordsOf` are the abstract views: the set of strings whose path exists, and the set of stored words.
  - `Walk` specifies `findNode`. `Enum` and `EnumFrom` specify the pre-order enumeration of `collect`.
- `Lexicographic`: the lexicographic order `Less` on strings, and `StrictlySorted`.
- `PrefixTree`:
  - Class `Trie` holds the arena and the ghost labelling. `Paths()` and `Words()` are its abstract state.
  - A small class `CharBuffer` stands for the `StringBuilder`.
  - `Collect` is the recursive enumeration.
- `AdjacencyGraph`: class `Graph<T>`, whose vertices are `Vertex` values. `Closed` is the invariant that every neighbour index names a vertex.

The source and the natural reading of its behaviour disagree in one place. A prefix `p` with `startsWith(p)` true is not necessarily a prefix of a stored word. `insert` does not validate the word before walking it, so the nodes it creates before a character outside `'a'..'z'` stay in the tree. The model follows the code:
- `PrefixTree.Trie.Insert` adds `Prefixes(w, FirstInvalid(w))` to the paths even when it throws.
- `PrefixTree.FailedInsertScenario` shows the effect: after a failed insert of `"ab1"`, `startsWith("ab")` is true but `contains("ab")` is false.

## Model

| member | source | states |
|---|---|---|
| ArrayList.MyArrayList.constructor | myarraylist.java:8-11 | a new list is empty and has capacity 10 |
| ArrayList.MyArrayList.Add | myarraylist.java:14-20 | `value` is appended after the old elements; the buffer doubles exactly when it was full; the capacity invariant is kept |
| ArrayList.MyArrayList.Get | myarraylist.java:24-29 | the element added `index`-th for `0 <= index < size`; an index-out-of-range error for any other index |
| ArrayList.MyArrayList.Size | myarraylist.java:31-34 | the number of elements added |
| ArrayList.MyArrayList.IsEmpty | myarraylist.java:36-39 | true exactly when no element was added |
| ArrayList.MyArrayList.Grow | myarraylist.java:41-48 | the new buffer is fresh, twice as long, and holds the first `size` elements in order; the contents are unchanged |
| TrieNode.FromIndex | Trie.java:209 | slot `i` stands for a lowercase letter |
| TrieNode.ToIndex | Trie.java:104-110 | `c - 'a'`, in `[0, 26)`, exactly for `'a'..'z'`; an invalid-symbol error for every other character |
| TrieNode.IndexRoundTrip | Trie.java:104-110 | mapping a slot to its letter and back gives the slot |
| TrieNode.EmptyNode | Trie.java:86-89 | a new node has 26 empty slots and is not a word end |
| TrieNode.GetChild | Trie.java:91-94 | the content of the letter's slot; throws exactly for a non-letter |
| TrieNode.Walk | Trie.java:186-198 | the node a walk reaches lies in the arena |
| TrieNode.WalkSticky | Trie.java:189-194 | after an exception or an empty slot, later characters do not change the walk's outcome |
| TrieNode.WalkLower | Trie.java:186-198 | a walk over letters only never throws |
| TrieNode.WalkReachesBadSymbol | Trie.java:189-194 | a non-letter right after a prefix that reaches a node makes the walk throw for that character |
| TrieNode.WalkErrorAt | Trie.java:189-194 | the walk throws only for a non-letter that it reaches after a node-reaching prefix |
| TrieNode.WordsOf | Trie.java:139-141 | every stored word is a path |
| TrieNode.ParentSpelling | Trie.java:96-102 | a node's spelling is its parent's spelling plus the letter of its slot |
| TrieNode.LabelLower | Trie.java:96-102 | every spelling is lowercase, and only the root's is empty |
| TrieNode.LabelsDistinct | Trie.java:96-102 | different nodes have different spellings (no sharing) |
| TrieNode.ChildByLabel | Trie.java:96-102 | the node spelled `spelling[n] + [c]` is the child of `n` in the slot of `c` |
| TrieNode.WordsLower | Trie.java:123-132 | stored words are lowercase |
| TrieNode.EmptyNotStored | Trie.java:175-183 | the empty string is never a stored word |
| TrieNode.Ancestor | Trie.java:123-132 | every prefix of a path is a path, spelled by an earlier node |
| TrieNode.WalkLabel | Trie.java:186-198 | walking a node's spelling reaches that node |
| TrieNode.WalkFound | Trie.java:186-198 | a walk that reaches a node has spelled that node's spelling |
| TrieNode.WalkPaths | Trie.java:145-152 | `s` is a path if and only if its walk reaches a node |
| TrieNode.WalkWords | Trie.java:135-142 | `s` is stored if and only if its walk reaches a node that ends a word |
| TrieNode.WithChild | Trie.java:96-102 | the empty slot points to a new empty node; every other slot and every word-end flag is unchanged |
| TrieNode.AddChild | Trie.java:96-102 | adding a child keeps the tree invariant, adds exactly the child's path and adds no word |
| TrieNode.AddChildLabelled | Trie.java:96-102 | adding a child keeps the labelling invariant |
| TrieNode.AddChildViews | Trie.java:96-102 | adding a child adds exactly its path and no word |
| TrieNode.WithWordEnd | Trie.java:131 | only the flag of node `n` changes, and it becomes true |
| TrieNode.MarkWordEnd | Trie.java:131 | marking a node keeps the tree and its paths and adds exactly that node's spelling to the words |
| TrieNode.Enum | Trie.java:201-218 | reference definition of collect's output below node `n` with the buffer holding `prefix`: `prefix` itself if `n` ends a word, then the contributions of slots 0 to 25; its meaning is proved by `EnumShape`, `EnumSorted` and `EnumSpec` |
| TrieNode.EnumFrom | Trie.java:206-217 | reference definition of what collect's slot loop adds from slot `i` on: for each present child in slot order, that child's enumeration with its letter appended to `prefix` |
| TrieNode.EnumFromStep | Trie.java:206-217 | one iteration of collect's slot loop appends exactly that slot's part of the enumeration |
| TrieNode.EnumShape | Trie.java:201-218 | everything enumerated below a node extends the buffer's contents |
| TrieNode.EnumFromShape | Trie.java:206-217 | what slots `i` onwards contribute extends the buffer by a letter no smaller than slot `i`'s |
| TrieNode.EnumSorted | Trie.java:201-218 | the enumeration is strictly ascending |
| TrieNode.BranchesOrdered | Trie.java:206-217 | words that branch off at a smaller letter come first |
| TrieNode.EnumFromSorted | Trie.java:206-217 | what slots `i` onwards contribute is strictly ascending |
| TrieNode.EnumSound | Trie.java:201-218 | everything enumerated from a node's spelling is a stored word that extends it |
| TrieNode.EnumFromSound | Trie.java:206-217 | the same, for the contributions of slots `i` onwards |
| TrieNode.EnumFromIncludes | Trie.java:206-217 | a child's enumeration is part of what its parent's slot loop contributes |
| TrieNode.EnumComplete | Trie.java:201-218 | every stored word that extends a node's spelling is enumerated |
| TrieNode.EnumSpec | Trie.java:201-218 | the enumeration holds exactly the stored words that extend the node's spelling, strictly ascending |
| Lexicographic.PrefixLess | Trie.java:201-218 | a proper prefix comes first |
| Lexicographic.BranchLess | Trie.java:206-217 | after a common prefix, the smaller letter comes first |
| Lexicographic.LessAsymmetric | Trie.java:201-218 | the order is asymmetric |
| Lexicographic.LessIrreflexive | Trie.java:201-218 | no string comes before itself |
| Lexicographic.SortedConcat | Trie.java:206-217 | two sorted lists whose elements are all ordered across them concatenate to a sorted list |
| Lexicographic.SortedUnique | Trie.java:155-171 | two strictly ascending lists with the same elements are equal, so the contract of getByPrefix fixes its result |
| PrefixTree.CharBuffer.constructor | Trie.java:167 | the buffer starts with the prefix |
| PrefixTree.CharBuffer.Append | Trie.java:209-210 | appends one character |
| PrefixTree.CharBuffer.DeleteLast | Trie.java:215 | removes the last character |
| PrefixTree.CheckWordForInsert | Trie.java:175-183 | passes exactly for a non-null, non-empty word, otherwise an invalid-key error |
| PrefixTree.FirstInvalid | Trie.java:126-130 | the position where insert's loop throws: a lowercase stretch followed by a non-letter, or the whole word |
| PrefixTree.PrefixesMeaning | Trie.java:126-130 | `Prefixes(s, k)` holds exactly the prefixes of `s` of length at most `k` |
| PrefixTree.PrefixesStep | Trie.java:126-130 | one more loop step adds exactly one more prefix |
| PrefixTree.StoredPrefixes | Trie.java:123-132 | a stored word is all letters and all its prefixes are paths, so inserting it again adds nothing |
| PrefixTree.Collect | Trie.java:201-218 | appends exactly the enumeration of the node to the result; the buffer ends as it started |
| PrefixTree.Trie.constructor | Trie.java:116-118 | a new tree stores no word and has only the empty path |
| PrefixTree.Trie.GetOrCreateChild | Trie.java:96-102 | throws, changing nothing, for a non-letter. Returns the existing child unchanged. Otherwise fills the slot with a new empty node, leaving the other slots alone. The result is spelled by the parent's spelling plus `c`; one path is added and the words are unchanged |
| PrefixTree.Trie.FindNode | Trie.java:186-198 | returns exactly `Walk` of the string |
| PrefixTree.Trie.Insert | Trie.java:123-132 | see the expanded entry below the table |
| PrefixTree.Trie.CreatePath | Trie.java:125-130 | the loop of insert: ends at the node spelled `w`, or throws at `w[FirstInvalid(w)]`; the paths gain exactly the prefixes it walked; the words are unchanged |
| PrefixTree.Trie.Contains | Trie.java:135-142 | false for a null or empty word. Throws as the walk does. Otherwise true if and only if the word is stored |
| PrefixTree.Trie.StartsWith | Trie.java:145-152 | false for a null or empty prefix. Throws as the walk does. Otherwise true if and only if the prefix's path exists |
| PrefixTree.Trie.GetByPrefix | Trie.java:155-171 | an empty new list for a null or empty prefix. Every returned list and its buffer are newly allocated. Throws as the walk does. Otherwise exactly the stored words that start with the prefix, strictly ascending (an absent path gives the empty list) |
| PrefixTree.InsertThenContains | Trie.java:123-142 | after inserting a non-empty lowercase word, contains finds it, and every word stored before stays stored |
| PrefixTree.ContainsThenStartsWith | Trie.java:135-152 | contains implies startsWith for the same input, and the two throw for the same inputs |
| PrefixTree.QueryAnswer | Trie.java:155-171 | for the words `b` and `ba`, the only possible answer to getByPrefix("b") is `[b, ba]` |
| PrefixTree.DemoAnswerApp | Trie.java:224-233 | for the demo's words apple, app, application and banana, the only possible answer to getByPrefix("app") is `[app, apple, application]` |
| PrefixTree.DemoAnswerBanana | Trie.java:224-235 | for the demo's words, the only possible answer to getByPrefix("banana") and to getByPrefix("ba") is `[banana]` |
| PrefixTree.DemoAnswerX | Trie.java:224-236 | for the demo's words, the only possible answer to getByPrefix("x") is `[]` |
| PrefixTree.InsertLower | Trie.java:123-132 | inserting an all-lowercase non-empty word adds exactly that word and makes every prefix of it a path, keeping the old paths |
| PrefixTree.BuildDemoTrie | Trie.java:222-227 | the demo's four inserts leave exactly the words apple, app, application and banana stored, with `ap` a path |
| PrefixTree.QueryLower | Trie.java:135-152 | for an all-lowercase non-empty string, contains answers membership in the words and startsWith membership in the paths, without error |
| PrefixTree.ListLower | Trie.java:155-171 | for an all-lowercase non-empty prefix, getByPrefix gives the stored words that extend it, strictly ascending |
| AdjacencyGraph.AppendNeighbor | graph.java:40 | appending to one vertex's list keeps the number of vertices |
| AdjacencyGraph.WithEdge | graph.java:33-45 | an edge keeps the number of vertices |
| AdjacencyGraph.EdgeNeighbors | graph.java:40-44 | see the expanded entry below the table |
| AdjacencyGraph.EdgeKeepsClosed | graph.java:33-45 | an edge between existing vertices keeps every neighbour index valid |
| AdjacencyGraph.Graph.constructor | graph.java:17-20 | a new graph of the requested kind has no vertices |
| AdjacencyGraph.Graph.AddVertex | graph.java:23-30 | rejects null, changing nothing. Otherwise returns the old vertex count and appends a vertex with that value and no neighbours |
| AdjacencyGraph.Graph.CheckIndex | graph.java:75-79 | passes exactly for `0 <= index < vertexCount`, otherwise an index-out-of-range error for that index |
| AdjacencyGraph.Graph.AddEdge | graph.java:33-45 | checks `fromIndex` first, then `toIndex`. An invalid index throws and changes nothing. Otherwise the vertices become `WithEdge`, and every neighbour index stays valid |
| AdjacencyGraph.Graph.GetVertexValue | graph.java:48-51 | the value of vertex `index`; an index-out-of-range error outside the graph |
| AdjacencyGraph.Graph.GetNeighbors | graph.java:54-57 | the neighbour indices of vertex `index`, in the order the edges were added; an index-out-of-range error outside the graph |
| AdjacencyGraph.Graph.GetNeighborValues | graph.java:60-69 | a newly allocated list, with a newly allocated buffer, as long as the neighbour list, whose element `j` is the value of vertex `neighbors[j]`; an index-out-of-range error outside the graph |
| AdjacencyGraph.Graph.VertexCount | graph.java:71-73 | the number of vertices added |

Two rows above need more room than the table allows:
- `PrefixTree.Trie.Insert` (Trie.java:123-132):
  - A null or empty word gives an invalid-key error and changes nothing.
  - Otherwise, with `k = FirstInvalid(w)`, the paths gain exactly the prefixes of `w` up to length `k`.
  - If `w` is all letters, the words gain `w` and the insert passes.
  - If not, the insert throws for `w[k]` and the words are unchanged.
  - Inserting a stored word again leaves the paths and the words unchanged.
- `AdjacencyGraph.EdgeNeighbors` (graph.java:40-44):
  - Every value is kept.
  - `t` is appended to the list of `f`.
  - In an undirected graph, `f` is also appended to the list of `t`, so a self-loop appends `f` twice.
  - Every other list is unchanged.

These members are scenarios: fixed call sequences whose assertions the verifier proves. They have no contract of their own:
- `ArrayList.ArrayListScenario`: eleven adds into a new list. Its loop invariant and final assertion show the buffer doubling from the default capacity 10 to 20 on the eleventh add (myarraylist.java:14-20, 41-48). `get(10)` returns the last element and `get(11)` throws.
- `AdjacencyGraph.GraphScenario`: the demo of graph.java:82-95. The graph has 3 vertices; the neighbours of A are `[1, 2]` and their values are `[B, C]`.
- `PrefixTree.FailedInsertScenario`: not a Java demo. After a failed insert of `"ab1"`, `startsWith("ab")` is true but `contains("ab")` is false.
- `PrefixTree.PrefixQueryScenario`: not a Java demo. After inserting `"ba"` and then `"b"`, `getByPrefix("b")` returns `[b, ba]`.
- `PrefixTree.DemoMembershipScenario`: the demo of Trie.java:221-231 on the tree of `BuildDemoTrie`. `contains("app")` is true, `contains("ap")` is false and `startsWith("ap")` is true.
- `PrefixTree.DemoPrefixScenario`: the demo of Trie.java:233-236 on the same tree. `getByPrefix` gives `[app, apple, application]` for `"app"`, `[banana]` for `"banana"` and for `"ba"`, and `[]` for `"x"`.

## Left out

- The console output of the `main` demo methods (Trie.java:221-237, graph.java:82-95). Both demos are scenarios whose answers are proved, but nothing is printed.
- `toString` of both array-list copies: it formats arbitrary objects by their own `toString`.
- Java object details: generics erasure, the unchecked cast in `get`, and `Object[]` storage. The element type is a Dafny type parameter, and an empty buffer slot is `None`.
- Exception classes and messages. A throw is an error result; only the kind of error and its offending value are kept.
- Node objects and references. The tree's nodes live in an arena of values indexed by number, so reference identity is replaced by node indices. Trees are never shared, so nothing observable is lost.
- `StringBuilder` is a `CharBuffer` holding the buffer's characters. `char` is Dafny's `char`, and only the `'a'..'z'` range check is modelled.
- The `Mylist` interface of graph.java is not part of this model. The vertex list and the neighbour lists of the graph are sequences, not `MyArrayList` objects. As a result, the model does not capture that `getNeighbors` returns the graph's own list (aliasing), which its caller could then modify.
- ArrayList.MyArrayList.Add: Java's 32-bit `int` is not modelled. `size`, the doubled capacity and vertex indices are unbounded. So the model does not capture that `grow`'s `data.length * 2` (myarraylist.java:42) wraps negative once the capacity reaches 10·2^27, which makes the next `add` throw a negative-array-size exception, nor that `size` overflows at 2^31.
- PrefixTree.Trie.Insert: re-inserting a stored word is proved to leave `Paths()` and `Words()` unchanged, not the node arena itself.
- Concurrency: the classes are not thread-safe, and the model assumes one caller at a time.
