/** The character trie: nodes that own their children through a character-keyed
    map, and a trie that owns one root node. Insertion walks a cursor down the
    tree and adds children in place; lookups walk the same path without
    changing anything. */
module Tries {
  import opened WordSets

  /** One node of the tree: whether the path from the root to it spells an
      inserted word, and the child reached along each outgoing character. */
  class TrieNode {
    var isWord: bool
    var children: map<char, TrieNode>
    /** The path from the root of the trie to this node. */
    ghost const path: Word

    /** A node that ends no word and has no children; it is to be reached along `path`. */
    constructor (ghost path: Word)
      ensures !isWord && children == map[] && this.path == path
    {
      isWord := false;
      children := map[];
      this.path := path;
    }
  }

  class Trie {
    var root: TrieNode

    /** The words inserted so far. */
    ghost var Words: set<Word>
    /** The node reached from the root along each path of the tree. */
    ghost var Nodes: map<Word, TrieNode>
    /** The trie object and every node it owns. */
    ghost var Repr: set<object>

    /** The nodes form a tree whose paths are indexed by `Nodes` and whose
        word marks are exactly `Words`. */
    ghost predicate Shape()
      reads this, Repr
    {
      && this in Repr
      && [] in Nodes && Nodes[[]] == root
      // each node remembers its own path, so no node is reached along two paths
      && (forall p {:trigger Nodes[p]} :: p in Nodes ==> Nodes[p] in Repr && Nodes[p].path == p)
      // the edge labelled c out of the node of path p leads to the node of path p + [c] ...
      && (forall p, c {:trigger Nodes[p].children[c]} :: p in Nodes && c in Nodes[p].children ==>
            p + [c] in Nodes && Nodes[p + [c]] == Nodes[p].children[c])
      // ... and every path other than the root's ends with such an edge
      && (forall p, c {:trigger p + [c] in Nodes} :: p + [c] in Nodes ==> p in Nodes && c in Nodes[p].children)
      && (forall p {:trigger Nodes[p].isWord} :: p in Nodes ==> (Nodes[p].isWord <==> p in Words))
    }

    /** The object invariant, except that the node reached along `e` may
        lead nowhere: every inserted word is a path, and every other node
        but the root ends a word or has a child. */
    ghost predicate ValidExcept(e: Word)
      reads this, Repr
    {
      && Shape()
      && (forall w :: w in Words ==> w in Nodes)
      && (forall p {:trigger Live(p)} :: p in Nodes && p != [] && p != e ==> Live(p))
    }

    /** The node reached along `p` ends a word or has a child. */
    ghost predicate Live(p: Word)
      requires p in Nodes
      reads this, Nodes[p]
    {
      Nodes[p].isWord || Nodes[p].children.Keys != {}
    }

    /** The object invariant: no branch of the tree leads nowhere (see
        `ReachesWord`). */
    ghost predicate Valid()
      reads this, Repr
    {
      ValidExcept([])
    }

    /** A trie holding a single root node, which ends no word. */
    constructor ()
      ensures Valid() && fresh(Repr)
      ensures Words == {}
      ensures Nodes == map[[] := root] && !root.isWord && root.children == map[]
    {
      root := new TrieNode([]);
      Words := {};
      Nodes := map[[] := root];
      Repr := {this, root};
    }

    /** Every prefix of a path is a path. */
    lemma {:induction false} PathPrefixes(q: Word, p: Word)
      requires Shape()
      requires q in Nodes && p <= q
      ensures p in Nodes
      decreases |q|
    {
      if |p| < |q| {
        var parent := q[..|q| - 1];
        assert q == parent + [q[|q| - 1]];
        PathPrefixes(parent, p);
      } else {
        assert p == q;
      }
    }

    /** The paths of the tree that begin with `p`. */
    ghost function Below(p: Word): set<Word>
      reads this
    {
      set q | q in Nodes && p <= q
    }

    /** Every path other than the root's is the beginning of an inserted word. */
    lemma {:induction false} ReachesWord(p: Word)
      requires Valid()
      requires p in Nodes && p != []
      ensures exists w :: w in Words && p <= w
      decreases Below(p)
    {
      assert Live(p);
      if !Nodes[p].isWord {
        var c :| c in Nodes[p].children.Keys;
        assert p + [c] in Nodes && Nodes[p + [c]] == Nodes[p].children[c];
        assert p !in Below(p + [c]);
        ReachesWord(p + [c]);
        var w :| w in Words && p + [c] <= w;
        ExtendedPrefix(p, c, w);
      }
    }

    /** Follows `word` from the root, one character per edge, and gives the
        node it reaches, or null at the first character with no edge. */
    method Descend(word: Word) returns (node: TrieNode?)
      requires Valid()
      ensures word in Nodes ==> node == Nodes[word]
      ensures word !in Nodes ==> node == null
    {
      var current := root;
      for i := 0 to |word|
        invariant word[..i] in Nodes && current == Nodes[word[..i]]
      {
        var c := word[i];
        assert word[..i + 1] == word[..i] + [c];
        if c in current.children {
          current := current.children[c];
        } else {
          if word in Nodes {
            // a prefix of a path is a path, and word[..i + 1] is not one
            PathPrefixes(word, word[..i + 1]);
            assert false;
          }
          return null;
        }
      }
      assert word[..|word|] == word;
      return current;
    }

    /** Whether `word` was inserted. */
    method Search(word: Word) returns (found: bool)
      requires Valid()
      ensures found <==> word in Words
    {
      var node := Descend(word);
      found := node != null && node.isWord;
    }

    /** Whether some path of the tree spells `prefix`: the empty prefix
        always, otherwise exactly when an inserted word begins with it. */
    method StartsWith(prefix: Word) returns (found: bool)
      requires Valid()
      ensures found <==> prefix == [] || exists w :: w in Words && prefix <= w
    {
      var node := Descend(prefix);
      found := node != null;
      if w :| w in Words && prefix <= w {
        PathPrefixes(w, prefix);
      } else if found && prefix != [] {
        ReachesWord(prefix);
      }
    }

    /** The child of `node`, the node reached along `p`, along `c`: the one
        already there, or else a new node added as that child. */
    method EntryOrInsert(node: TrieNode, ghost p: Word, c: char) returns (child: TrieNode)
      requires ValidExcept(p)
      requires p in Nodes && Nodes[p] == node
      modifies this, node
      ensures ValidExcept(p + [c]) && Words == old(Words)
      ensures p + [c] in Nodes && child == Nodes[p + [c]]
      ensures forall q :: q in old(Nodes) ==> q in Nodes && Nodes[q] == old(Nodes)[q]
      ensures c in old(node.children) ==> unchanged(this, node)
      ensures c !in old(node.children) ==> fresh(child) && Repr == old(Repr) + {child}
      ensures c !in old(node.children) ==> !child.isWord && child.children == map[]
      ensures c !in old(node.children) ==> Nodes == old(Nodes)[p + [c] := child]
      ensures c !in old(node.children) ==>
        node.children == old(node.children)[c := child] && node.isWord == old(node.isWord)
    {
      if c in node.children {
        child := node.children[c];
      } else {
        child := new TrieNode(p + [c]);
        AddChild(node, p, c, child);
      }
    }

    /** Links `child`, a node not yet in the trie that ends no word, as the
        child of `node`, the node reached along `p`, along `c`. */
    method AddChild(node: TrieNode, ghost p: Word, c: char, child: TrieNode)
      requires ValidExcept(p)
      requires p in Nodes && Nodes[p] == node && c !in node.children
      requires child !in Repr && !child.isWord && child.children == map[] && child.path == p + [c]
      modifies this, node
      ensures ValidExcept(p + [c]) && Words == old(Words) && root == old(root)
      ensures Nodes == old(Nodes)[p + [c] := child] && Repr == old(Repr) + {child}
      ensures node.children == old(node.children)[c := child] && node.isWord == old(node.isWord)
    {
      assert p + [c] !in Nodes;
      node.children := node.children[c := child];
      Nodes := Nodes[p + [c] := child];
      Repr := Repr + {child};
      forall q, d {:trigger Nodes[q].children[d]} | q in Nodes && d in Nodes[q].children
        ensures q + [d] in Nodes && Nodes[q + [d]] == Nodes[q].children[d]
      {
        if q == p {
          if d != c {
            assert d in old(node.children);
          }
        } else if q != p + [c] {
          assert Nodes[q] == old(Nodes)[q] && Nodes[q] != node;
        }
      }
      forall q {:trigger Nodes[q].isWord} | q in Nodes
        ensures Nodes[q].isWord <==> q in Words
      {
        if q != p + [c] {
          assert Nodes[q] == old(Nodes)[q];
        }
      }
      forall q, d {:trigger q + [d] in Nodes} | q + [d] in Nodes
        ensures q in Nodes && d in Nodes[q].children
      {
        if q + [d] == p + [c] {
          ExtendedInjective(q, d, p, c);
        }
      }
      forall q | q in Nodes && q != [] && q != p + [c]
        ensures Live(q)
      {
        if q == p {
          assert c in Nodes[q].children.Keys;
        } else {
          assert q in old(Nodes) && old(Live(q));
          assert Nodes[q] == old(Nodes)[q] && Nodes[q] != node;
        }
      }
    }

    /** Marks `node`, the node reached along `w`, as the end of a word. */
    method MarkWord(node: TrieNode, ghost w: Word)
      requires ValidExcept(w)
      requires w in Nodes && Nodes[w] == node
      modifies this, node
      ensures Valid() && Words == old(Words) + {w}
      ensures Nodes == old(Nodes) && Repr == old(Repr)
      ensures node.isWord && node.children == old(node.children)
      ensures old(node.isWord) ==> unchanged(this, node)
    {
      assert node.isWord ==> w in Words && Words + {w} == Words;
      node.isWord := true;
      Words := Words + {w};
      forall q {:trigger Nodes[q].isWord} | q in Nodes
        ensures Nodes[q].isWord <==> q in Words
      {
        if q != w {
          assert Nodes[q].path != node.path;
        }
      }
      forall q | q in Nodes && q != []
        ensures Live(q)
      {
        if q != w {
          assert old(Live(q));
          assert Nodes[q].path != node.path;
        }
      }
    }

    /** Adds `word`: walks it from the root, taking or creating the child
        along each character, and marks the node it ends at. */
    method Insert(word: Word)
      requires Valid()
      modifies Repr
      ensures Valid() && fresh(Repr - old(Repr))
      ensures Words == old(Words) + {word}
      // nodes are only ever added, never removed or replaced
      ensures forall p :: p in old(Nodes) ==> p in Nodes && Nodes[p] == old(Nodes)[p]
      // inserting a word already present changes nothing
      ensures word in old(Words) ==> Repr == old(Repr) && unchanged(Repr)
    {
      var curr := root;
      for i := 0 to |word|
        invariant ValidExcept(word[..i]) && Words == old(Words)
        invariant fresh(Repr - old(Repr))
        invariant forall p :: p in old(Nodes) ==> p in Nodes && Nodes[p] == old(Nodes)[p]
        invariant word[..i] in Nodes && curr == Nodes[word[..i]]
        invariant word in old(Words) ==> Repr == old(Repr) && unchanged(Repr)
      {
        var c := word[i];
        assert word[..i + 1] == word[..i] + [c];
        if word in Words && c !in curr.children {
          PathPrefixes(word, word[..i + 1]);
          assert false;
        }
        curr := EntryOrInsert(curr, word[..i], c);
      }
      assert word[..|word|] == word;
      MarkWord(curr, word);
    }

    /** The words inserted so far that begin with `prefix`, each once, in
        depth-first order: shorter words before the words they begin, the
        words below each node together, the children in no particular
        order. None when no path spells `prefix`. */
    method FindWordsWithPrefix(prefix: Word) returns (result: seq<Word>)
      requires Valid()
      ensures NoDuplicates(result) && PrefixesFirst(result) && Grouped(result)
      ensures Elements(result) == WithPrefix(Words, prefix)
    {
      result := [];
      var node := Descend(prefix);
      if node == null {
        forall w | w in Words && prefix <= w
          ensures false
        {
          PathPrefixes(w, prefix);
        }
        return;
      }
      var buffer := prefix;
      buffer, result := CollectWords(node, buffer, result);
    }

    /** Depth-first collection below `node`, the node reached along `prefix`:
        appends the word every marked node spells to `result`, extending the
        `prefix` buffer by one character before each child and shortening it
        again after. Gives back the buffer as it was on entry and `result`
        followed by each word below `node`, once. */
    method CollectWords(node: TrieNode, prefix: Word, result: seq<Word>)
      returns (prefix': Word, result': seq<Word>)
      requires Valid()
      requires prefix in Nodes && Nodes[prefix] == node
      ensures prefix' == prefix
      ensures |result| <= |result'| && result'[..|result|] == result
      ensures NoDuplicates(result'[|result|..]) && PrefixesFirst(result'[|result|..])
      ensures Grouped(result'[|result|..])
      ensures Elements(result'[|result|..]) == WithPrefix(Words, prefix)
      decreases Below(prefix)
    {
      var buf, res := prefix, result;
      // the words appended so far, and the children whose words they include
      ghost var out: seq<Word> := [];
      ghost var visited: set<char> := {};
      if node.isWord {
        res := res + [buf];
        out := [prefix];
      }
      WithPrefixViaNone(Words, prefix);
      var keys := node.children.Keys;
      while keys != {}
        invariant keys !! visited && keys + visited == node.children.Keys
        invariant buf == prefix && res == result + out
        invariant NoDuplicates(out) && PrefixesFirst(out) && Grouped(out)
        invariant Elements(out) == WithPrefixVia(Words, prefix, visited)
        decreases keys
      {
        var c :| c in keys;
        var child := node.children[c];
        ghost var before := res;
        buf := buf + [c];
        assert prefix !in Below(buf);
        buf, res := CollectWords(child, buf, res);
        assert buf[..|buf| - 1] == prefix;
        buf := buf[..|buf| - 1];
        ghost var found := res[|before|..];
        assert res == res[..|before|] + found;
        assert res == result + (out + found);
        WithPrefixViaReport(out, found, Words, prefix, visited, c);
        out := out + found;
        keys := keys - {c};
        visited := visited + {c};
      }
      forall w | w in Words && prefix <= w && |prefix| < |w|
        ensures w[|prefix|] in visited
      {
        ExtendedPrefix(prefix, w[|prefix|], w);
        PathPrefixes(w, prefix + [w[|prefix|]]);
      }
      assert WithPrefixVia(Words, prefix, visited) == WithPrefix(Words, prefix);
      assert res[|result|..] == out;
      prefix', result' := buf, res;
    }
  }
}
