# Prefix-completion trie

This project models the character trie at the heart of the dictionary
prefix-completion tool in `src/main/java/org/example/MyTree.java`, and proves
properties of it in Dafny.

- A `TrieNode` holds a map from characters to child nodes and an end-of-word
  flag. Both are updated in place.
- `Trie.insert` walks a word from the root. It reuses or creates one child per
  character, then flags the last node.
- `Trie.searchPrefix` walks the prefix. It returns an empty list as soon as a
  character has no child. Otherwise a recursive depth-first walk (`dfs`)
  collects every flagged path below the prefix node.

The model keeps the source's imperative form:

- `MyTree.TrieNode` and `MyTree.Trie` are classes over the heap.
- `Insert` mutates children maps and the end-of-word flag. Its loop is
  `WalkCreate`, the compute-if-absent step inside it is `ChildFor`, and the
  flag step is `MarkEnd`. Each is proved against its own contract.
- `SearchPrefix` is a loop with an early return.
- `Dfs` is a recursive method that loops over the current node's child keys.

Ghost state ties the heap to an abstract trie:

- `nodeAt` maps each path (a character sequence) to its node.
- `pathOf` is its inverse, so no node is shared between paths.
- `words` is the set of stored words.
- `Repr` is the set of nodes, used for framing.

`Tree()` states that the nodes form a tree whose edges are exactly the
one-character extensions of the paths, and that a node is flagged exactly when
its path is a stored word. `Valid()` adds that there are no dead branches:
every path other than the root is a word or continues to a longer path.

Module `WordSets` holds the value-level vocabulary: the prefixes of a word and
of a set of words, the words of a set with a given prefix, and duplicate-free
lists.

Two properties are consequences of the contracts rather than separate members:

- Order independence. `Insert` adds exactly its word to `words`, so any
  insertion order of the same words leaves the same `words`. `SearchPrefix`'s
  result is determined by `words` as a set.
- `searchPrefix` does not modify the trie. `SearchPrefix` and `Dfs` have no
  `modifies` clause, so they cannot change any node.

## Model

| member | source | states |
|---|---|---|
| MyTree.TrieNode.constructor | src/main/java/org/example/MyTree.java:13-16 | a new node has an empty child map and is not the end of a word |
| MyTree.Trie.constructor | src/main/java/org/example/MyTree.java:24-26 | a new trie is valid, has only the root path and stores no word |
| MyTree.Trie.ChildFor | src/main/java/org/example/MyTree.java:32 | returns the existing child for `ch`, or links in a fresh empty child when absent; the tree is kept, the paths grow by exactly `path + [ch]`, and the stored words and every existing path's node are unchanged |
| MyTree.Trie.LinkKeepsTree | src/main/java/org/example/MyTree.java:32 | linking a fresh, empty, unflagged node under one node keeps the tree shape: edges, one node per path, flags |
| MyTree.Trie.WalkCreate | src/main/java/org/example/MyTree.java:30-33 | ends at the node whose path is the whole word; the paths grow by exactly the word's prefixes; existing nodes keep their paths; nodes off the word's path are unchanged; every new node is fresh |
| MyTree.Trie.MarkEnd | src/main/java/org/example/MyTree.java:34 | flagging the node at `path` adds exactly `path` to the stored words and leaves the paths and nodes as they were |
| MyTree.Trie.Insert | src/main/java/org/example/MyTree.java:29-35 | keeps the trie valid; stored words become the old ones plus `word`; paths become the old ones plus the prefixes of `word`; existing nodes keep their paths and nodes off the path are unchanged; storing a word already present changes no path (idempotence) |
| MyTree.LeadsOnAddWord | src/main/java/org/example/MyTree.java:29-35 | adding all prefixes of a word to the paths and the word to the stored words leaves no dead branch |
| MyTree.Trie.PrefixClosed | src/main/java/org/example/MyTree.java:31-32 | every prefix of a path in the trie is a path in the trie |
| MyTree.Trie.EdgeOnPath | src/main/java/org/example/MyTree.java:43-47 | if a path continues `p` with `ch`, then the node at `p` has a child for `ch`, and that child is the node at `p + [ch]`; so a missing child rules out every word below |
| MyTree.Trie.WordBelow | src/main/java/org/example/MyTree.java:29-35 | in a valid trie every non-root path is a prefix of some stored word |
| MyTree.Trie.PathsArePrefixes | src/main/java/org/example/MyTree.java:29-35 | the paths of a valid trie are exactly the root plus the prefixes of the stored words |
| MyTree.Trie.PrefixesArePaths | src/main/java/org/example/MyTree.java:31-32 | every prefix of a stored word is a path |
| MyTree.Trie.PathIffWordBelow | src/main/java/org/example/MyTree.java:43-51 | a prefix's walk succeeds and some word is stored exactly when some stored word starts with the prefix |
| MyTree.Trie.Dfs | src/main/java/org/example/MyTree.java:57-65 | keeps the earlier results and appends every stored word that starts with `currentWord`, each exactly once and nothing else |
| MyTree.Trie.SearchPrefix | src/main/java/org/example/MyTree.java:38-53 | returns exactly the stored words that start with `prefix`, without duplicates; there are as many results as such words; the result is empty exactly when the walk falls off the trie or no word is stored |
| MyTree.InsertThenSearch | src/main/java/org/example/MyTree.java:29-53 | after storing `word`, a search for any prefix of it finds `word`, plus the earlier words with that prefix, and nothing else |
| WordSets.ExtendPrefix | src/main/java/org/example/MyTree.java:63 | `p + [ch]` is a prefix of `s` exactly when `p` is a prefix of `s` and `s` continues with `ch`; this is how `dfs` extends `currentWord` per child |
| WordSets.DistinctCount | src/main/java/org/example/MyTree.java:59 | a duplicate-free result list has as many entries as distinct words |
| WordSets.DistinctConcat | src/main/java/org/example/MyTree.java:62-64 | the duplicate-free results of sibling subtrees, which have no word in common, concatenate to a duplicate-free list |

## Left out

- `DictionaryLoader.loadDictionary` (lines 71-81): reading the word file is I/O. The model starts from the words that reach `insert`.
- `MyTree.main` (lines 87-124): the console loop, prompts and the `EXIT` sentinel are I/O around the trie.
- `trim().toUpperCase()` (lines 78 and 104): case folding and whitespace trimming happen before the trie is reached. The model compares characters exactly, as the trie itself does.
- HashMap iteration order (lines 14 and 62): `Dfs` visits the child keys in an arbitrary order. Results are therefore specified as a set with no duplicates and a count, not as a sequence in a fixed order.
- The shared `results` list (lines 39, 51, 59, 63): the list is local to `searchPrefix` and never aliased. `Dfs` therefore threads it as a sequence value in and out, instead of appending through a reference.
- Java `char` is a UTF-16 code unit; the model's `char` is an abstract character. The trie treats both as opaque keys compared by equality.
- `null` words or prefixes (a `NullPointerException` in Java) and stack overflow on very deep recursion are not modelled.
