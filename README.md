# A verified model of a character trie

The repository's trie stores a set of words. Each node holds a flag
`is_word` and a map `children` from characters to child nodes. The
`Trie` owns a single root node.

- `insert` walks a cursor down from the root. For each character it takes
  the existing child or adds a new one, and it marks the node where the
  word ends.
- `search` walks the same path and reports the end node's mark.
- `starts_with` reports whether the whole path exists.
- `find_words_with_prefix` walks to the node of the prefix. It then
  collects depth-first the words of every marked node below it. It keeps
  one shared prefix buffer, pushing a character before each child and
  popping it after. It appends each word to one shared result vector.

The model is imperative, like the source:

- `Tries.TrieNode` is a class with the fields `isWord` and `children`.
- `Tries.Trie` is a class holding `root`.
- `insert`, `search`, `starts_with` and the walk of `find_words_with_prefix`
  are loops over the word with a cursor.
- `collect_words` is a recursive method. It takes the prefix buffer and the
  result vector in and gives them back.

The trie's meaning is kept in ghost fields:

- `Words` is the set of inserted words.
- `Nodes` maps each path of the tree to its node.
- `Repr` holds the trie and its nodes.

`Valid()` ties these to the heap:

- the edges of the tree are exactly the one-character extensions of paths;
- each node knows its own path, so no node is shared between two paths;
- a node is marked exactly when its path is in `Words`;
- every inserted word is a path;
- every node except the root ends a word or has a child.

Every operation is proved against these sets. A word is `seq<char>`, and
`p <= w` says that `p` begins `w`.

The modules:

- `WordSets` (`word_sets.dfy`): words, the prefix filter `WithPrefix`,
  and duplicate-free sequences. It also states depth-first order as two
  predicates:
  - `PrefixesFirst`: shorter words come before the words they begin;
  - `Grouped`: the words below any one node are listed together, because
    whatever begins two listed words begins every word between them.
- `Tries` (`trie.dfy`): the node and trie classes with their operations.
- `TrieTests` (`trie_tests.dfy`):
  - the repository's two unit tests and an empty-word case, each a method
    whose postcondition lists what the assertions observe;
  - `ThreeWords`, which builds the three-word trie of the second test;
  - `SearchThenStartsWith`, a property for every valid trie and every
    word;
  - `InterleavedNotGrouped`, a listing that has shorter words first but
    is not depth-first.

## Model

| member | source | states |
|---|---|---|
| `Tries.TrieNode.constructor` | trie/src/trie.rs:146-151 | a new node ends no word and has no children |
| `Tries.Trie.constructor` | trie/src/trie.rs:164-168 | a new trie is valid and holds no words; its root is unmarked and has no children, so no word is found, not even the empty one |
| `Tries.Trie.PathPrefixes` | trie/src/trie.rs:140-143 | every prefix of a path of the tree is a path: the tree is reached from the root one character per edge |
| `Tries.Trie.ReachesWord` | trie/src/trie.rs:170-185 | every node other than the root begins some inserted word, because insertion only creates nodes on the path of the word it marks |
| `Tries.Trie.Descend` | trie/src/trie.rs:188-195 | the shared walk of search and starts_with gives the node of the word when the word is a path, and null (the early return) exactly when it is not |
| `Tries.Trie.Search` | trie/src/trie.rs:187-198 | true exactly when the word was inserted: the walk reaches a node and the node is marked |
| `Tries.Trie.StartsWith` | trie/src/trie.rs:200-211 | true exactly when the prefix is empty or begins some inserted word |
| `Tries.Trie.EntryOrInsert` | trie/src/trie.rs:173-175 | gives the child along `c`, adding a new node only when there is none; a new node is unmarked and childless, and it adds exactly its path and its edge from `node`; the trie stays valid, except that the child may lead nowhere yet; the word set is kept; no node is removed or replaced; an existing child leaves the whole trie unchanged |
| `Tries.Trie.AddChild` | trie/src/trie.rs:175 | linking a new node adds exactly one path and one child edge and keeps the tree valid |
| `Tries.Trie.MarkWord` | trie/src/trie.rs:184 | marking the end node adds exactly its path to the words and makes the trie valid; marking a marked node changes nothing |
| `Tries.Trie.Insert` | trie/src/trie.rs:170-185 | the words afterwards are the words before plus this one (so it is found and every earlier word still is); no node is removed or replaced; inserting a word already present leaves every object of the trie unchanged (idempotence) |
| `Tries.Trie.FindWordsWithPrefix` | trie/src/trie.rs:75-92 | the result holds every inserted word that begins with the prefix, and nothing else (so nothing when no path spells it); no word occurs twice; every word comes after the shorter listed words that begin it; the words below any one node are listed together |
| `Tries.Trie.CollectWords` | trie/src/trie.rs:95-105 | the prefix buffer comes back as it went in; the result keeps what it held and is extended by exactly the inserted words below the node, each once, each after the listed words that begin it, the words below each node together |
| `WordSets.WithPrefixViaReport` | trie/src/trie.rs:100-104 | after one more child's words are appended, the words listed are those through the children seen so far, still without duplicates, with shorter words first and the words below each node together |
| `WordSets.GroupedReport` | trie/src/trie.rs:100-104 | the words of the node and of the children seen so far, followed by the words of one more child, keep the words below each node together |
| `WordSets.GroupedBetween` | trie/src/trie.rs:94 | in a grouped listing, a word that begins two listed words begins every word between them, so the words below one node come together as in a depth-first walk |
| `WordSets.CommonPrefixLongest` | trie/src/trie.rs:94 | every word that begins two words also begins their longest common prefix |
| `WordSets.WithPrefixViaNone` | trie/src/trie.rs:96-98 | before any child is visited, only the node's own word can have been listed |
| `WordSets.NoDuplicatesSize` | trie/src/trie.rs:131 | a list without duplicates has as many entries as distinct words, which fixes the length of a listing with a known set of words |
| `TrieTests.TrieOperations` | trie/src/trie.rs:225-243 | after inserting "hello", "hello" is found while "hell" and "helloa" are not; "hel" is a prefix and "abc" is not; after inserting "hell", both are found |
| `TrieTests.ThreeWords` | trie/src/trie.rs:114-119 | inserting "hello", "world" and "hell" into a new trie gives exactly those three words |
| `TrieTests.TrieWithPrefixOperations` | trie/src/trie.rs:112-132 | with "hello", "world" and "hell" inserted, "hello" and "hell" are found and "hel" is not; "hel" is a prefix and "hit" is not; the words beginning with "hel" are exactly ["hell", "hello"], in that order |
| `TrieTests.EmptyWord` | trie/src/trie.rs:170-211 | on a new trie the empty word is not found but is a prefix; once it is inserted the root is marked, it is found, and it is the one word listed under the empty prefix |
| `TrieTests.SearchThenStartsWith` | trie/src/trie.rs:187-211 | a word that is found is also a prefix |
| `TrieTests.InterleavedNotGrouped` | trie/src/trie.rs:94 | ["ab", "ac", "abd"] has shorter words first, yet it is not depth-first, because "ac" lies between two words below "ab" |

## Left out

- `FindWordsWithPrefix`: visits the children of a node in no particular
  order, because a `HashMap` iterates in an unspecified order. The result
  is therefore stated as a set without duplicates in depth-first order, and
  not as one fixed sequence. Depth-first order means shorter words before
  the longer words they begin, and the words below each node listed
  together. Where a node has a single child, as in the test, this fixes the
  sequence.
- Strings are sequences of characters. The UTF-8 encoding of `String` and
  `&str` and the decoding done by `.chars()` are not modelled.
- `EntryOrInsert`: `or_insert(TrieNode::new())` builds a new node even when
  the child exists and then drops it. The model creates a node only when
  one is added, because the extra node cannot be observed.
- Rust's borrowing and ownership is not modelled. A node owns its children
  by value in the source. In the model that ownership is the invariant that
  no node lies on two paths, and allocation is Dafny's `new`.
- The commented-out first copy of the trie (its `TrieNode`, `Trie`,
  `insert`, `search` and `starts_with`) is not modelled a second time. It
  behaves as the live copy does. Only `find_words_with_prefix` and
  `collect_words` are taken from it.
- The `#[cfg(test)]` modules are not run. Their assertions are
  postconditions of the methods in `TrieTests`.
