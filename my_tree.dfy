/**
 * The character trie behind the prefix-completion tool: heap nodes whose
 * child maps and end-of-word flags are updated in place, an `Insert` that
 * walks or grows one path, and a `SearchPrefix` that walks the prefix and
 * then collects every stored word below it by a recursive depth-first walk.
 */
module MyTree {
  import opened WordSets

  /**
   * Among the paths `paths`, `s` is the root, a word of `W`, or has a
   * one-character extension that is also a path.
   */
  ghost predicate LeadsOn(paths: set<string>, W: set<string>, s: string)
  {
    s in paths && s != [] && s !in W ==> exists c :: s + [c] in paths
  }

  /**
   * Adding every prefix of `w` to the paths and `w` itself to the words
   * keeps every path leading on: a proper prefix continues along `w`, and
   * `w` is a word.
   */
  lemma LeadsOnAddWord(paths: set<string>, W: set<string>, w: string)
    requires forall s :: LeadsOn(paths, W, s)
    ensures forall s :: LeadsOn(paths + PrefixesOf(w), W + {w}, s)
  {
    forall s ensures LeadsOn(paths + PrefixesOf(w), W + {w}, s) {
      if s in paths {
        assert LeadsOn(paths, W, s);
      } else if s <= w && s != w {
        PrefixStep(w, |s|);
        assert s == w[..|s|];
      }
    }
  }

  /** One position in the trie: its children by character, and whether the path to it is a stored word. */
  class TrieNode {
    var children: map<char, TrieNode>
    var isEndOfWord: bool

    constructor ()
      ensures children == map[] && !isEndOfWord
    {
      children := map[];
      isEndOfWord := false;
    }
  }

  class Trie {
    const root: TrieNode
    /** The node reached from `root` by each path (sequence of characters) that exists in the trie. */
    ghost var nodeAt: map<string, TrieNode>
    /** The stored words: the paths whose node carries the end-of-word flag. */
    ghost var words: set<string>
    /** The nodes of the trie, for framing. */
    ghost var Repr: set<TrieNode>
    /** The path of each node, the inverse of `nodeAt`. */
    ghost var pathOf: map<TrieNode, string>

    /**
     * The nodes form a tree rooted at `root`: each path names one node, no
     * node is shared between two paths, the children of the node at `s` are
     * exactly the nodes at the one-character extensions of `s`, and every
     * path is reachable from the root edge by edge. A node is flagged
     * exactly when its path is a stored word.
     */
    ghost predicate Tree()
      reads this, Repr
    {
      && [] in nodeAt && nodeAt[[]] == root
      && (forall s :: s in nodeAt ==> nodeAt[s] in Repr && nodeAt[s] in pathOf && pathOf[nodeAt[s]] == s)
      && (forall s, ch {:trigger s + [ch]} {:trigger ch in nodeAt[s].children} ::
            s + [ch] in nodeAt <==> s in nodeAt && ch in nodeAt[s].children)
      && (forall s, ch {:trigger nodeAt[s].children[ch]} ::
            s in nodeAt && ch in nodeAt[s].children ==> nodeAt[s].children[ch] == nodeAt[s + [ch]])
      && (forall s :: s in words ==> s in nodeAt)
      && (forall s :: s in nodeAt ==> (nodeAt[s].isEndOfWord <==> s in words))
    }

    /**
     * The invariant of a trie built by `Insert`: a tree with no dead
     * branches, where every path other than the root is a stored word or
     * continues to a longer path.
     */
    ghost predicate Valid()
      reads this, Repr
    {
      Tree() && forall s :: LeadsOn(nodeAt.Keys, words, s)
    }

    /** Paths at or below `p`; shrinks strictly on every step down the tree. */
    ghost function Below(p: string): set<string>
      reads this
    {
      set s | s in nodeAt && p <= s
    }

    constructor ()
      ensures Valid() && fresh(Repr)
      ensures words == {} && nodeAt.Keys == {[]}
    {
      root := new TrieNode();
      nodeAt := map[[] := root];
      words := {};
      Repr := {root};
      pathOf := map[root := []];
    }

    /** Every prefix of an existing path is itself a path. */
    lemma {:induction false} PrefixClosed(s: string, p: string)
      requires Tree() && s in nodeAt && p <= s
      ensures p in nodeAt
      decreases |s|
    {
      if p != s {
        var parent := s[..|s| - 1];
        assert s == parent + [s[|s| - 1]];
        assert p <= parent;
        PrefixClosed(parent, p);
      }
    }

    /** The edge labelled `ch` leaves the node at `p` whenever some path continues `p` with `ch`. */
    lemma EdgeOnPath(s: string, p: string, ch: char)
      requires Tree() && s in nodeAt && p + [ch] <= s
      ensures p in nodeAt && ch in nodeAt[p].children
      ensures nodeAt[p].children[ch] == nodeAt[p + [ch]]
    {
      PrefixClosed(s, p + [ch]);
    }

    /** Every path other than the root lies on the way to a stored word. */
    lemma {:induction false} WordBelow(s: string)
      requires Valid() && s in nodeAt && s != []
      ensures exists w :: w in words && s <= w
      decreases Below(s)
    {
      if s !in words {
        assert LeadsOn(nodeAt.Keys, words, s);
        var c :| s + [c] in nodeAt;
        var t := s + [c];
        assert s in Below(s) && s !in Below(t);
        assert Below(t) <= Below(s);
        WordBelow(t);
        var w :| w in words && t <= w;
        assert s == w[..|s|];
      }
    }

    /**
     * The paths of a valid trie are exactly the root and the prefixes of the
     * stored words: a node exists for a character at some depth if and only
     * if a stored word continues the path above it with that character.
     */
    lemma PathsArePrefixes()
      requires Valid()
      ensures nodeAt.Keys == {[]} + Prefixes(words)
    {
      forall p | p in nodeAt && p != [] ensures p in Prefixes(words) {
        WordBelow(p);
      }
      PrefixesArePaths();
    }

    /** Every prefix of a stored word is a path. */
    lemma PrefixesArePaths()
      requires Tree()
      ensures Prefixes(words) <= nodeAt.Keys
    {
      forall p | p in Prefixes(words) ensures p in nodeAt {
        var w :| w in words && p <= w;
        PrefixClosed(w, p);
      }
    }

    /**
     * A path is in the trie, and some word is stored, exactly when a stored
     * word continues the path.
     */
    lemma PathIffWordBelow(p: string)
      requires Valid()
      ensures p in nodeAt && words != {} <==> exists w :: w in words && p <= w
    {
      if p in nodeAt && words != {} {
        if p == [] {
          var w :| w in words;
          assert p <= w;
        } else {
          WordBelow(p);
        }
      }
      if exists w :: w in words && p <= w {
        var w :| w in words && p <= w;
        PrefixClosed(w, p);
      }
    }

    /**
     * The compute-if-absent step of `insert`: the child of the node at
     * `path` for `ch`, created empty and linked in when absent. Only that
     * node's child map and the ghost bookkeeping change.
     */
    method ChildFor(node: TrieNode, ghost path: string, ch: char) returns (child: TrieNode)
      requires Tree() && path in nodeAt && nodeAt[path] == node
      modifies this, node
      ensures Repr == old(Repr) + {child}
      ensures Tree() && words == old(words)
      ensures nodeAt == old(nodeAt)[path + [ch] := child]
      ensures path + [ch] in old(nodeAt) ==> child == old(nodeAt)[path + [ch]]
      ensures path + [ch] !in old(nodeAt) ==> fresh(child)
    {
      if ch in node.children {
        child := node.children[ch];
      } else {
        var q := path + [ch];
        assert q !in nodeAt;
        child := new TrieNode();
        node.children := node.children[ch := child];
        nodeAt := nodeAt[q := child];
        Repr := Repr + {child};
        pathOf := pathOf[child := q];
        LinkKeepsTree(node, path, ch, child);
      }
    }

    /**
     * Linking a fresh, empty, unflagged node under the node at `path` for
     * `ch`, and naming it by the path `path + [ch]`, keeps the tree.
     */
    twostate lemma LinkKeepsTree(node: TrieNode, new path: string, new ch: char, new child: TrieNode)
      requires old(Tree()) && path in old(nodeAt) && old(nodeAt)[path] == node && path + [ch] !in old(nodeAt)
      requires child !in old(Repr) && child != node
      requires nodeAt == old(nodeAt)[path + [ch] := child] && Repr == old(Repr) + {child}
      requires pathOf == old(pathOf)[child := path + [ch]] && words == old(words)
      requires node.children == old(node.children)[ch := child] && node.isEndOfWord == old(node.isEndOfWord)
      requires child.children == map[] && !child.isEndOfWord
      requires forall n :: n in old(Repr) && n != node ==> n.children == old(n.children) && n.isEndOfWord == old(n.isEndOfWord)
      ensures Tree()
    {
      var q := path + [ch];
      forall s, c | s + [c] == q ensures s == path && c == ch {
        assert s == (s + [c])[..|s|] && c == (s + [c])[|s|];
      }
    }

    /**
     * Stores `word`: walks its path from the root, creating the missing
     * nodes, then flags the last one. Existing nodes are reused, the paths
     * grow by exactly the prefixes of `word`, the stored words by exactly
     * `word`, nodes off the path of `word` are untouched, and storing a word
     * a second time creates no node at all.
     */
    method Insert(word: string)
      requires Valid()
      modifies this, Repr
      ensures Valid() && fresh(Repr - old(Repr))
      ensures words == old(words) + {word}
      ensures nodeAt.Keys == old(nodeAt.Keys) + PrefixesOf(word)
      ensures forall s :: s in old(nodeAt) ==> nodeAt[s] == old(nodeAt[s])
      ensures forall s :: s in old(nodeAt) && !(s <= word) ==> unchanged(old(nodeAt[s]))
      ensures word in old(words) ==> nodeAt == old(nodeAt)
    {
      if word in words {
        forall p | p in PrefixesOf(word) ensures p in nodeAt {
          PrefixClosed(word, p);
        }
      }
      var node := WalkCreate(word);
      MarkEnd(node, word);
      LeadsOnAddWord(old(nodeAt.Keys), old(words), word);
    }

    /**
     * The loop of `insert`: follows `word` from the root, creating each
     * missing child, and returns the node at `word`.
     */
    method WalkCreate(word: string) returns (node: TrieNode)
      requires Tree()
      modifies this, Repr
      ensures Tree() && words == old(words) && fresh(Repr - old(Repr))
      ensures word in nodeAt && nodeAt[word] == node
      ensures nodeAt.Keys == old(nodeAt.Keys) + PrefixesOf(word)
      ensures forall s :: s in old(nodeAt) ==> nodeAt[s] == old(nodeAt[s])
      ensures forall s :: s in old(nodeAt) && !(s <= word) ==> unchanged(old(nodeAt[s]))
    {
      node := root;
      for i := 0 to |word|
        invariant Tree() && words == old(words)
        invariant word[..i] in nodeAt && nodeAt[word[..i]] == node
        invariant nodeAt.Keys == old(nodeAt.Keys) + PrefixesUpTo(word, i)
        invariant forall s :: s in old(nodeAt) ==> nodeAt[s] == old(nodeAt[s])
        invariant fresh(Repr - old(Repr))
        invariant forall s :: s in old(nodeAt) && !(s <= word) ==> unchanged(old(nodeAt[s]))
      {
        PrefixStep(word, i);
        node := ChildFor(node, word[..i], word[i]);
      }
      assert word[..|word|] == word;
    }

    /** Sets the end-of-word flag of the node at `path`: `path` becomes a stored word. */
    method MarkEnd(node: TrieNode, ghost path: string)
      requires Tree() && path in nodeAt && nodeAt[path] == node
      modifies this, node
      ensures Tree() && words == old(words) + {path}
      ensures nodeAt == old(nodeAt) && Repr == old(Repr)
    {
      node.isEndOfWord := true;
      words := words + {path};
    }

    /**
     * The depth-first walk below `node`, the node at path `currentWord`:
     * appends to `results` every stored word that starts with
     * `currentWord`, each exactly once, and leaves the earlier entries as
     * they were. Children are visited in an unspecified order.
     */
    method Dfs(node: TrieNode, currentWord: string, results: seq<string>) returns (out: seq<string>)
      requires Tree() && currentWord in nodeAt && nodeAt[currentWord] == node
      ensures |results| <= |out| && out[..|results|] == results
      ensures Distinct(out[|results|..])
      ensures forall s :: s in out[|results|..] <==> s in words && currentWord <= s
      decreases Below(currentWord)
    {
      out := results;
      if node.isEndOfWord {
        out := out + [currentWord];
      }
      var pending := node.children.Keys;
      ghost var visited: set<char> := {};
      while pending != {}
        invariant pending + visited == node.children.Keys && pending !! visited
        invariant |results| <= |out| && out[..|results|] == results
        invariant Distinct(out[|results|..])
        invariant forall s :: s in out[|results|..] <==>
            s in words && currentWord <= s && (s == currentWord || s[|currentWord|] in visited)
        decreases pending
      {
        var ch :| ch in pending;
        var next := currentWord + [ch];
        assert currentWord in Below(currentWord) && currentWord !in Below(next);
        var before := out;
        out := Dfs(node.children[ch], next, out);
        ghost var found := out[|before|..];
        assert out == before + found;
        AppendSlices(before, found, |results|);
        forall s ensures s in found <==> s in words && currentWord <= s && |currentWord| < |s| && s[|currentWord|] == ch {
          ExtendPrefix(currentWord, ch, s);
        }
        DistinctConcat(before[|results|..], found);
        pending := pending - {ch};
        visited := visited + {ch};
      }
      forall s | s in words && currentWord <= s && s != currentWord
        ensures s[|currentWord|] in visited
      {
        var ch := s[|currentWord|];
        ExtendPrefix(currentWord, ch, s);
        EdgeOnPath(s, currentWord, ch);
      }
    }

    /**
     * The stored words that start with `prefix`, each exactly once, in an
     * unspecified order: as many results as there are such words. The result
     * is empty exactly when the walk down `prefix` falls off the trie or no
     * word is stored. Reads the trie and changes nothing.
     */
    method SearchPrefix(prefix: string) returns (results: seq<string>)
      requires Valid()
      ensures Distinct(results)
      ensures forall s :: s in results <==> s in words && prefix <= s
      ensures |results| == |WithPrefix(words, prefix)|
      ensures results == [] <==> prefix !in nodeAt || words == {}
    {
      PathIffWordBelow(prefix);
      results := [];
      var node := root;
      for i := 0 to |prefix|
        invariant prefix[..i] in nodeAt && nodeAt[prefix[..i]] == node
      {
        var ch := prefix[i];
        PrefixStep(prefix, i);
        if ch !in node.children {
          forall s | s in words ensures !(prefix <= s) {
            if prefix <= s {
              assert prefix[..i + 1] <= s;
              EdgeOnPath(s, prefix[..i], ch);
            }
          }
          return;
        }
        node := node.children[ch];
      }
      assert prefix[..|prefix|] == prefix;
      results := Dfs(node, prefix, results);
      assert results[0..] == results;
      assert (set s | s in results) == WithPrefix(words, prefix);
      DistinctCount(results);
      if results != [] {
        assert results[0] in results;
      }
    }
  }

  /**
   * Storing `word` and then searching for any prefix of it finds `word`,
   * together with the earlier words that share the prefix and nothing else.
   */
  method InsertThenSearch(trie: Trie, word: string, prefix: string) returns (results: seq<string>)
    requires trie.Valid() && prefix <= word
    modifies trie, trie.Repr
    ensures trie.Valid() && word in results
    ensures forall s :: s in results <==> (s == word || s in old(trie.words)) && prefix <= s
  {
    trie.Insert(word);
    results := trie.SearchPrefix(prefix);
  }
}
