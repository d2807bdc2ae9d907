/**
 * A prefix tree over characters (src/trie.ts): every node has a map from
 * characters to child nodes and a flag marking the end of a stored word.
 * The model names every node by the path of characters that leads to it
 * (a ghost map from paths to nodes) and states the operations against the
 * set of inserted words.
 */
module Tries {

  /** `p` is the empty path or a prefix of some stored word. */
  ghost predicate HasPrefix(words: set<string>, p: string) {
    p == [] || exists w :: w in words && p <= w
  }

  /** Adding a word never takes a prefix away. */
  lemma HasPrefixGrows(words: set<string>, w: string, p: string)
    requires HasPrefix(words, p)
    ensures HasPrefix(words + {w}, p)
  {
    if p != [] {
      var u :| u in words && p <= u;
      assert u in words + {w};
    }
  }

  class TrieNode {
    var children: map<char, TrieNode>
    var isEndOfWord: bool
    /** The characters from the root to this node. */
    ghost const path: string

    constructor (ghost path: string)
      ensures children == map[] && !isEndOfWord && this.path == path
    {
      children := map[];
      isEndOfWord := false;
      this.path := path;
    }
  }

  class Trie {
    const root: TrieNode
    /** The node reached from the root along each path. */
    ghost var nodes: map<string, TrieNode>
    /** The inserted words. */
    ghost var words: set<string>

    /**
     * The shape of the trie, allowing the nodes of a word `pending` that is
     * being inserted: paths are prefix-closed, each node knows its path (so
     * distinct paths reach distinct nodes), each child edge extends the path by its character, a node ends
     * a word exactly when its path was inserted, and every path leads
     * towards a stored word (or towards `pending`).
     */
    ghost predicate Shaped(pending: string)
      reads this, nodes.Values
    {
      Linked() && Marked(pending)
    }

    /** The paths form a prefix-closed tree rooted at `root` whose edges follow `children`. */
    ghost predicate Linked()
      reads this, nodes.Values
    {
      && [] in nodes && nodes[[]] == root
      && (forall p, i :: p in nodes && 0 <= i <= |p| ==> p[..i] in nodes)
      && (forall p :: p in nodes ==> nodes[p].path == p)
      && (forall p, c {:trigger p + [c]} :: p in nodes ==>
            && (c in nodes[p].children <==> p + [c] in nodes)
            && (c in nodes[p].children ==> nodes[p].children[c] == nodes[p + [c]]))
    }

    /** The end-of-word flags mark exactly the words, and every path leads towards one. */
    ghost predicate Marked(pending: string)
      reads this, nodes.Values
    {
      && (forall p :: p in nodes ==> (nodes[p].isEndOfWord <==> p in words))
      && (forall w :: w in words ==> w in nodes)
      && (forall p {:trigger HasPrefix(words, p)} :: p in nodes ==> HasPrefix(words, p) || p <= pending)
    }

    ghost predicate Valid()
      reads this, nodes.Values
    {
      Shaped([])
    }

    constructor ()
      ensures Valid() && words == {} && fresh(nodes.Values)
    {
      var r := new TrieNode([]);
      root := r;
      nodes := map[[] := r];
      words := {};
    }

    /** `insert`: walks `word` from the root, creating missing children, and marks the last node. */
    method Insert(word: string)
      requires Valid()
      modifies this, nodes.Values
      ensures Valid()
      ensures words == old(words) + {word}
      ensures fresh(nodes.Values - old(nodes.Values))
    {
      var current := root;
      for i := 0 to |word|
        invariant Shaped(word) && words == old(words)
        invariant word[..i] in nodes && current == nodes[word[..i]]
        invariant fresh(nodes.Values - old(nodes.Values))
      {
        current := Descend(current, word, i);
      }
      assert word[..|word|] == word;
      MarkWord(current, word);
    }

    /** The end of `insert`: the node of `word` marks the end of a word. */
    method MarkWord(current: TrieNode, word: string)
      requires Shaped(word) && word in nodes && current == nodes[word]
      modifies this, current
      ensures Valid() && words == old(words) + {word} && nodes == old(nodes)
    {
      forall p | p in nodes
        ensures HasPrefix(words + {word}, p)
      {
        if p <= word {
          assert p == [] || (word in words + {word} && p <= word);
        } else {
          HasPrefixGrows(words, word, p);
        }
      }
      current.isEndOfWord := true;
      words := words + {word};
      assert forall p :: p in nodes ==> (nodes[p].isEndOfWord <==> p in words) by {
        forall p | p in nodes
          ensures nodes[p].isEndOfWord <==> p in words
        {
          if p != word {
            assert nodes[p].path != current.path;
          }
        }
      }
    }

    /** One round of `insert`'s loop: the child for `word[i]`, created when missing. */
    method Descend(current: TrieNode, word: string, i: nat) returns (next: TrieNode)
      requires i < |word| && Shaped(word) && word[..i] in nodes && current == nodes[word[..i]]
      modifies this, current
      ensures Shaped(word) && words == old(words)
      ensures word[..i + 1] in nodes && next == nodes[word[..i + 1]]
      ensures fresh(nodes.Values - old(nodes.Values))
    {
      var c := word[i];
      assert word[..i + 1] == word[..i] + [c];
      if c !in current.children {
        AddChild(current, word, i);
      }
      next := current.children[c];
    }

    /** The `set` of `insert`: a fresh node becomes the child for `word[i]`. */
    method AddChild(current: TrieNode, word: string, i: nat)
      requires i < |word| && Shaped(word) && word[..i] in nodes && current == nodes[word[..i]]
      requires word[i] !in current.children
      modifies this, current
      ensures Shaped(word) && words == old(words)
      ensures word[i] in current.children && nodes == old(nodes)[word[..i + 1] := current.children[word[i]]]
      ensures fresh(nodes.Values - old(nodes.Values))
    {
      var w := word[..i + 1];
      assert w == word[..i] + [word[i]];
      assert w !in words;
      var n := LinkChild(current, word, i);
      assert forall p :: p in nodes ==> (nodes[p].isEndOfWord <==> p in words) by {
        forall p | p in nodes
          ensures nodes[p].isEndOfWord <==> p in words
        {
          if p != w {
            assert nodes[p] == old(nodes)[p];
          }
        }
      }
      assert forall p {:trigger HasPrefix(words, p)} :: p in nodes ==> HasPrefix(words, p) || p <= word by {
        forall p | p in nodes
          ensures HasPrefix(words, p) || p <= word
        {
          if p == w {
            assert w <= word;
          } else {
            assert p in old(nodes);
          }
        }
      }
    }

    /** The links of `AddChild`: the fresh node hangs below `current` and takes the path `word[..i + 1]`. */
    method LinkChild(current: TrieNode, word: string, i: nat) returns (n: TrieNode)
      requires i < |word| && Linked() && word[..i] in nodes && current == nodes[word[..i]]
      requires word[i] !in current.children
      modifies this, current
      ensures Linked() && words == old(words) && current.isEndOfWord == old(current.isEndOfWord)
      ensures fresh(n) && !n.isEndOfWord && word[i] in current.children && current.children[word[i]] == n
      ensures word[..i + 1] !in old(nodes) && nodes == old(nodes)[word[..i + 1] := n]
    {
      var c := word[i];
      var w := word[..i + 1];
      assert w == word[..i] + [c];
      assert w !in nodes;
      n := new TrieNode(w);
      current.children := current.children[c := n];
      nodes := nodes[w := n];
      assert forall p :: p in nodes ==> p in old(nodes) || p == w;
      assert forall p, j :: p in nodes && 0 <= j <= |p| ==> p[..j] in nodes by {
        forall p, j | p in nodes && 0 <= j <= |p|
          ensures p[..j] in nodes
        {
          if p == w {
            if j <= i {
              assert p[..j] == word[..i][..j];
            } else {
              assert p[..j] == p;
            }
          }
        }
      }
      assert forall p, d {:trigger p + [d]} :: p in nodes ==>
          && (d in nodes[p].children <==> p + [d] in nodes)
          && (d in nodes[p].children ==> nodes[p].children[d] == nodes[p + [d]]) by {
        forall p, d | p in nodes
          ensures d in nodes[p].children <==> p + [d] in nodes
          ensures d in nodes[p].children ==> nodes[p].children[d] == nodes[p + [d]]
        {
          if p == w {
            assert (p + [d])[..|p|] == p;
            assert p + [d] !in old(nodes);
          } else if p == word[..i] {
          } else {
            assert nodes[p] != current;
          }
        }
      }
    }

    /** Every prefix of a stored word has a node. */
    lemma PrefixesReached(p: string)
      requires Valid()
      ensures HasPrefix(words, p) ==> p in nodes
    {
      if p != [] && HasPrefix(words, p) {
        var w :| w in words && p <= w;
        assert p == w[..|p|];
      }
    }

    /** `search`: the walk along `word` reaches a node that ends a word. */
    method Search(word: string) returns (r: bool)
      requires Valid()
      ensures r <==> word in words
    {
      var current := root;
      for i := 0 to |word|
        invariant word[..i] in nodes && current == nodes[word[..i]]
      {
        var c := word[i];
        assert word[..i + 1] == word[..i] + [c];
        if c !in current.children {
          assert word[..i + 1][..i] == word[..i];
          assert word[..i + 1] !in nodes;
          assert word !in nodes;
          return false;
        }
        current := current.children[c];
      }
      assert word[..|word|] == word;
      return current.isEndOfWord;
    }

    /** `startsWith`: the walk along `prefix` never falls off the trie. */
    method StartsWith(prefix: string) returns (r: bool)
      requires Valid()
      ensures r <==> HasPrefix(words, prefix)
    {
      var current := root;
      for i := 0 to |prefix|
        invariant prefix[..i] in nodes && current == nodes[prefix[..i]]
      {
        var c := prefix[i];
        assert prefix[..i + 1] == prefix[..i] + [c];
        if c !in current.children {
          assert prefix[..i + 1][..i] == prefix[..i];
          assert prefix[..i + 1] !in nodes;
          assert prefix !in nodes;
          PrefixesReached(prefix);
          return false;
        }
        current := current.children[c];
      }
      assert prefix[..|prefix|] == prefix;
      return true;
    }
  }

  /** Two `insert`s in a row. */
  method InsertBoth(trie: Trie, a: string, b: string)
    requires trie.Valid()
    modifies trie, trie.nodes.Values
    ensures trie.Valid() && trie.words == old(trie.words) + {a, b}
    ensures fresh(trie.nodes.Values - old(trie.nodes.Values))
  {
    trie.Insert(a);
    trie.Insert(b);
  }

  /** The trie of the tests: apple, app, apricot and banana. */
  method SampleTrie() returns (trie: Trie)
    ensures trie.Valid() && fresh(trie.nodes.Values)
    ensures trie.words == SampleWords()
  {
    trie := new Trie();
    InsertBoth(trie, "apple", "app");
    InsertBoth(trie, "apricot", "banana");
  }

  /** The stored words of the tests. */
  function SampleWords(): set<string> {
    {"apple", "app", "apricot", "banana"}
  }

  /** Which of the tested prefixes the sample words have. */
  lemma SamplePrefixes()
    ensures HasPrefix(SampleWords(), "ap") && HasPrefix(SampleWords(), "app") && HasPrefix(SampleWords(), "apple")
    ensures !HasPrefix(SampleWords(), "orange") && !HasPrefix(SampleWords(), "bap")
  {
    assert "apple" in SampleWords();
    assert "ap" <= "apple" && "app" <= "apple";
    forall w | w in SampleWords()
      ensures !("orange" <= w) && !("bap" <= w)
    {
      assert "orange"[0] == 'o' && "bap"[0] == 'b' && "bap"[2] == 'p';
      assert |w| > 2 && (w[0] == 'a' || (w[0] == 'b' && w[2] == 'n'));
    }
  }

  /**
   * The search tests of src/trie.test.ts: whole words are found, a longer
   * word and a bare prefix are not.
   */
  method SearchScenario() returns (apple: bool, app: bool, apples: bool, apri: bool)
    ensures apple && app && !apples && !apri
  {
    var trie := SampleTrie();
    apple := trie.Search("apple");
    app := trie.Search("app");
    apples := trie.Search("apples");
    apri := trie.Search("apri");
  }

  /** The empty word is found only once it has been inserted. */
  method EmptyWordScenario() returns (before: bool, after: bool)
    ensures !before && after
  {
    var trie := SampleTrie();
    before := trie.Search("");
    trie.Insert("");
    after := trie.Search("");
  }

  /** The `startsWith` tests of src/trie.test.ts: it follows the prefixes of the stored words. */
  method StartsWithScenario() returns (ap: bool, app: bool, apple: bool, orange: bool, bap: bool)
    ensures ap && app && apple && !orange && !bap
  {
    var trie := SampleTrie();
    SamplePrefixes();
    ap := trie.StartsWith("ap");
    app := trie.StartsWith("app");
    apple := trie.StartsWith("apple");
    orange := trie.StartsWith("orange");
    bap := trie.StartsWith("bap");
  }
}
