/**
 * The node of the prefix tree (`TrieNode` in src/trie.rs) and its two recursive
 * operations: the walk that answers a query (`search_tree`) and the insertion of
 * the remaining characters of a word (`add_word`).
 *
 * A node owns its children outright, so a subtree is a value. The abstract view of
 * a subtree is the set of strings it stores as words, `Words`, and the set of
 * strings that spell a path from it, `Paths`.
 */
module TrieNodes {

  /** One node: whether the path to it spells a stored word, its character, its children by character. */
  datatype Node = Node(isWord: bool, ch: char, children: map<char, Node>)

  /** What `add_word` reports beside the updated subtree: nodes created, and whether the word was new. */
  datatype Insertion = Insertion(node: Node, created: nat, isNew: bool)

  /** Every child sits under the key of its own character, all the way down. */
  ghost predicate Keyed(n: Node) {
    forall c :: c in n.children ==> n.children[c].ch == c && Keyed(n.children[c])
  }

  /** No dead branch below `n`: every descendant is a word or has children (the root itself may be bare). */
  ghost predicate Live(n: Node) {
    forall c :: c in n.children ==>
      (n.children[c].isWord || n.children[c].children != map[]) && Live(n.children[c])
  }

  /** The strings spelled by the paths that start at `n`, the empty one included. */
  ghost function Paths(n: Node): set<string> {
    {[]} + (set c, p | c in n.children && p in Paths(n.children[c]) :: [c] + p)
  }

  /** The strings whose path from `n` ends on a node marked as a word. */
  ghost function Words(n: Node): set<string> {
    (if n.isWord then {[]} else {}) + (set c, p | c in n.children && p in Words(n.children[c]) :: [c] + p)
  }

  /** The prefixes of `w`, from the empty one to `w` itself. */
  ghost function Prefixes(w: string): set<string> {
    set i | 0 <= i <= |w| :: w[..i]
  }

  /**
   * The number of nodes of the subtree (`onlyWords == false`), or of its nodes
   * marked as words (`onlyWords == true`).
   */
  ghost function Count(n: Node, onlyWords: bool): nat
    decreases n
  {
    (if !onlyWords || n.isWord then 1 else 0) + CountBelow(n, n.children.Keys, onlyWords)
  }

  /** `Count` summed over the children of `n` whose keys are in `keys`. */
  ghost function CountBelow(n: Node, keys: set<char>, onlyWords: bool): nat
    requires keys <= n.children.Keys
    decreases n, keys
  {
    if keys == {} then 0
    else
      var k :| k in keys;
      Count(n.children[k], onlyWords) + CountBelow(n, keys - {k}, onlyWords)
  }

  /** `TrieNode::new`: a fresh node for `c`, not a word, without children. */
  function Leaf(c: char): (r: Node)
    ensures r.ch == c && Keyed(r) && Live(r)
    ensures Words(r) == {} && Paths(r) == {[]}
    ensures Count(r, false) == 1 && Count(r, true) == 0
  {
    Node(false, c, map[])
  }

  /**
   * `search_tree`: `chars` starts with the character of `n` itself, which is skipped.
   * The walk follows the next character into the matching child and fails at once
   * when there is none; when the characters run out it answers `isWord` if
   * `mustBeComplete` holds and `true` otherwise.
   */
  function SearchTree(n: Node, chars: string, mustBeComplete: bool): (r: bool)
    requires |chars| > 0
    ensures |chars| > 1 && chars[1] !in n.children ==> !r
    ensures |chars| == 1 ==> (r <==> n.isWord || !mustBeComplete)
    decreases |chars|
  {
    if |chars| > 1 then
      if chars[1] in n.children then SearchTree(n.children[chars[1]], chars[1..], mustBeComplete)
      else false
    else
      (n.isWord && mustBeComplete) || !mustBeComplete
  }

  /**
   * `add_word`: inserts the characters of `w` below `n`. A missing child for the next
   * character is created (and counted) before the walk goes on into it; at the end of
   * the word the node reached is marked as a word, and the word counts as new only if
   * it was not marked already.
   */
  function AddWord(n: Node, w: string): (r: Insertion)
    ensures r.created <= |w|
    ensures r.node.ch == n.ch
    decreases |w|
  {
    if w == [] then
      if !n.isWord then Insertion(n.(isWord := true), 0, true)
      else Insertion(n, 0, false)
    else
      var c := w[0];
      var made := if c in n.children then 0 else 1;
      var child := if c in n.children then n.children[c] else Leaf(c);
      var sub := AddWord(child, w[1..]);
      Insertion(n.(children := n.children[c := sub.node]), made + sub.created, sub.isNew)
  }

  /** The length of the longest prefix of `w` that is already a path from `n`. */
  function MatchedLength(n: Node, w: string): (k: nat)
    ensures k <= |w|
    decreases |w|
  {
    if w != [] && w[0] in n.children then 1 + MatchedLength(n.children[w[0]], w[1..]) else 0
  }

  // ---------------------------------------------------------------------------
  // Membership in Paths and Words, one character at a time

  lemma PathsStep(n: Node, s: string)
    ensures s in Paths(n) <==> s == [] || (s[0] in n.children && s[1..] in Paths(n.children[s[0]]))
  {
    if s != [] && s[0] in n.children && s[1..] in Paths(n.children[s[0]]) {
      assert s == [s[0]] + s[1..];
    }
    if s != [] && s in Paths(n) {
      var c, p :| c in n.children && p in Paths(n.children[c]) && s == [c] + p;
      assert s[1..] == p;
    }
  }

  lemma WordsStep(n: Node, s: string)
    ensures s in Words(n) <==>
      (s == [] && n.isWord) || (s != [] && s[0] in n.children && s[1..] in Words(n.children[s[0]]))
  {
    if s != [] && s[0] in n.children && s[1..] in Words(n.children[s[0]]) {
      assert s == [s[0]] + s[1..];
    }
    if s != [] && s in Words(n) {
      var c, p :| c in n.children && p in Words(n.children[c]) && s == [c] + p;
      assert s[1..] == p;
    }
  }

  /** Every stored word spells a path. */
  lemma {:induction false} WordsArePaths(n: Node, s: string)
    requires s in Words(n)
    ensures s in Paths(n)
    decreases |s|
  {
    WordsStep(n, s);
    PathsStep(n, s);
    if s != [] {
      WordsArePaths(n.children[s[0]], s[1..]);
    }
  }

  /** Every prefix of a path is a path. */
  lemma {:induction false} PathsPrefixClosed(n: Node, p: string, rest: string)
    requires p + rest in Paths(n)
    ensures p in Paths(n)
    decreases |p|
  {
    PathsStep(n, p);
    PathsStep(n, p + rest);
    if p != [] {
      assert (p + rest)[0] == p[0] && (p + rest)[1..] == p[1..] + rest;
      PathsPrefixClosed(n.children[p[0]], p[1..], rest);
    }
  }

  // ---------------------------------------------------------------------------
  // search_tree

  /**
   * What `search_tree` answers: with `mustBeComplete` it reports whether the query
   * (after the node's own character) is a stored word, without it whether the query
   * spells a path, whether or not that path ends on a word.
   */
  lemma {:induction false} SearchTreeSpec(n: Node, chars: string, mustBeComplete: bool)
    requires |chars| > 0
    ensures SearchTree(n, chars, mustBeComplete) <==>
      chars[1..] in (if mustBeComplete then Words(n) else Paths(n))
    decreases |chars|
  {
    var q := chars[1..];
    WordsStep(n, q);
    PathsStep(n, q);
    if |chars| > 1 && chars[1] in n.children {
      SearchTreeSpec(n.children[chars[1]], chars[1..], mustBeComplete);
      assert chars[1..][1..] == q[1..];
    }
  }

  /** A complete-word search that succeeds implies the plain path search succeeds too. */
  lemma {:induction false} CompleteSearchImpliesPath(n: Node, chars: string)
    requires |chars| > 0
    ensures SearchTree(n, chars, true) ==> SearchTree(n, chars, false)
  {
    SearchTreeSpec(n, chars, true);
    SearchTreeSpec(n, chars, false);
    if chars[1..] in Words(n) {
      WordsArePaths(n, chars[1..]);
    }
  }

  // ---------------------------------------------------------------------------
  // add_word

  /** After `add_word(w)` the stored words are the old ones plus `w`; it is new exactly when it was absent. */
  lemma {:induction false} AddWordWords(n: Node, w: string)
    ensures Words(AddWord(n, w).node) == Words(n) + {w}
    ensures AddWord(n, w).isNew <==> w !in Words(n)
    decreases |w|
  {
    var r := AddWord(n, w);
    if w == [] {
      forall s ensures s in Words(r.node) <==> s in Words(n) || s == w {
        WordsStep(r.node, s);
        WordsStep(n, s);
      }
      WordsStep(n, w);
    } else {
      var c := w[0];
      var child := if c in n.children then n.children[c] else Leaf(c);
      var sub := AddWord(child, w[1..]);
      AddWordWords(child, w[1..]);
      forall s ensures s in Words(r.node) <==> s in Words(n) || s == w {
        WordsStep(r.node, s);
        WordsStep(n, s);
        if s != [] && s[0] == c && s[1..] == w[1..] {
          assert s == w;
        }
        if s == w {
          assert s[1..] == w[1..];
        }
      }
      WordsStep(n, w);
    }
  }

  /** `add_word` stores one more distinct word exactly when it reports the word as new. */
  lemma AddWordStoredCount(n: Node, w: string)
    ensures |Words(AddWord(n, w).node)| == |Words(n)| + if AddWord(n, w).isNew then 1 else 0
  {
    AddWordWords(n, w);
    CardinalityOfInsert(Words(n), w);
  }

  lemma CardinalityOfInsert<T>(s: set<T>, x: T)
    ensures |s + {x}| == |s| + if x in s then 0 else 1
  {
    if x in s {
      assert s + {x} == s;
    }
  }

  /** Re-adding a stored word changes nothing and reports `(0, false)`. */
  lemma {:induction false} AddWordIdempotent(n: Node, w: string)
    requires w in Words(n)
    ensures AddWord(n, w) == Insertion(n, 0, false)
    decreases |w|
  {
    WordsStep(n, w);
    if w != [] {
      var c := w[0];
      AddWordIdempotent(n.children[c], w[1..]);
      assert n.children[c := n.children[c]] == n.children;
    }
  }

  /** After `add_word(w)` the paths are the old ones plus every prefix of `w`. */
  lemma {:induction false} AddWordPaths(n: Node, w: string)
    ensures Paths(AddWord(n, w).node) == Paths(n) + Prefixes(w)
    decreases |w|
  {
    var r := AddWord(n, w);
    if w == [] {
      forall s ensures s in Paths(r.node) <==> s in Paths(n) {
        PathsStep(r.node, s);
        PathsStep(n, s);
      }
      assert Prefixes(w) == {[]} by {
        assert w[..0] == [];
      }
      PathsStep(n, []);
    } else {
      var c := w[0];
      var child := if c in n.children then n.children[c] else Leaf(c);
      var sub := AddWord(child, w[1..]);
      assert r.node == n.(children := n.children[c := sub.node]);
      AddWordPaths(child, w[1..]);
      assert [] in Prefixes(w[1..]) by {
        assert w[1..][..0] == [];
      }
      forall s ensures s in Paths(r.node) <==> s in Paths(n) || s in Prefixes(w) {
        PathsStep(r.node, s);
        PathsStep(n, s);
        PrefixesStep(w, s);
        if s != [] && s[0] == c {
          assert s[1..] in Paths(r.node.children[c]) <==> s[1..] in Paths(child) || s[1..] in Prefixes(w[1..]);
          if c !in n.children {
            PathsStep(child, s[1..]);
          }
        }
      }
    }
  }

  lemma PrefixesStep(w: string, s: string)
    requires w != []
    ensures s in Prefixes(w) <==> s == [] || (s[0] == w[0] && s[1..] in Prefixes(w[1..]))
  {
    assert w[..0] == [];
    if s != [] && s in Prefixes(w) {
      var i :| 0 <= i <= |w| && s == w[..i];
      assert s[1..] == w[1..][..i - 1];
    }
    if s != [] && s[0] == w[0] && s[1..] in Prefixes(w[1..]) {
      var i :| 0 <= i <= |w[1..]| && s[1..] == w[1..][..i];
      assert s == w[..i + 1];
    }
  }

  /** `add_word` keeps every child under its own character and leaves no dead branch. */
  lemma {:induction false} AddWordKeepsShape(n: Node, w: string)
    requires Keyed(n) && Live(n)
    ensures Keyed(AddWord(n, w).node) && Live(AddWord(n, w).node)
    ensures w != [] ==> AddWord(n, w).node.children != map[]
    decreases |w|
  {
    if w != [] {
      var c := w[0];
      var child := if c in n.children then n.children[c] else Leaf(c);
      AddWordKeepsShape(child, w[1..]);
      assert c in AddWord(n, w).node.children;
    }
  }

  /**
   * The count of created nodes is the number of characters of `w` past the longest
   * prefix already present: the walk creates exactly the missing tail of the path.
   */
  lemma {:induction false} AddWordCreatesMissingTail(n: Node, w: string)
    ensures AddWord(n, w).created == |w| - MatchedLength(n, w)
    decreases |w|
  {
    if w != [] {
      var c := w[0];
      if c in n.children {
        AddWordCreatesMissingTail(n.children[c], w[1..]);
      } else {
        AddWordCreatesAll(Leaf(c), w[1..]);
      }
    }
  }

  /** Below a node without children every character is new. */
  lemma {:induction false} AddWordCreatesAll(n: Node, w: string)
    requires n.children == map[]
    ensures AddWord(n, w).created == |w|
    decreases |w|
  {
    if w != [] {
      AddWordCreatesAll(Leaf(w[0]), w[1..]);
    }
  }

  /** `MatchedLength` is the longest prefix of `w` that is a path. */
  lemma {:induction false} MatchedLengthIsLongest(n: Node, w: string)
    ensures w[..MatchedLength(n, w)] in Paths(n)
    ensures MatchedLength(n, w) < |w| ==> w[..MatchedLength(n, w) + 1] !in Paths(n)
    decreases |w|
  {
    var k := MatchedLength(n, w);
    PathsStep(n, w[..k]);
    if w != [] && w[0] in n.children {
      var child := n.children[w[0]];
      MatchedLengthIsLongest(child, w[1..]);
      assert w[..k][1..] == w[1..][..k - 1];
      if k < |w| {
        PathsStep(n, w[..k + 1]);
        assert w[..k + 1][1..] == w[1..][..k];
      }
    } else if w != [] {
      PathsStep(n, w[..1]);
    }
  }

  // ---------------------------------------------------------------------------
  // Counting nodes

  /** `CountBelow` does not depend on the order in which keys are taken. */
  lemma {:induction false} CountBelowPick(n: Node, keys: set<char>, onlyWords: bool, k: char)
    requires keys <= n.children.Keys && k in keys
    ensures CountBelow(n, keys, onlyWords) ==
      Count(n.children[k], onlyWords) + CountBelow(n, keys - {k}, onlyWords)
    decreases |keys|
  {
    var j :| j in keys &&
      CountBelow(n, keys, onlyWords) == Count(n.children[j], onlyWords) + CountBelow(n, keys - {j}, onlyWords);
    if j != k {
      CountBelowPick(n, keys - {j}, onlyWords, k);
      CountBelowPick(n, keys - {k}, onlyWords, j);
      assert keys - {j} - {k} == keys - {k} - {j};
    }
  }

  /** Two nodes whose children agree on `keys` have the same count below `keys`. */
  lemma {:induction false} CountBelowSame(n: Node, m: Node, keys: set<char>, onlyWords: bool)
    requires keys <= n.children.Keys && keys <= m.children.Keys
    requires forall k :: k in keys ==> n.children[k] == m.children[k]
    ensures CountBelow(n, keys, onlyWords) == CountBelow(m, keys, onlyWords)
    decreases |keys|
  {
    if keys != {} {
      var k :| k in keys;
      CountBelowPick(n, keys, onlyWords, k);
      CountBelowPick(m, keys, onlyWords, k);
      CountBelowSame(n, m, keys - {k}, onlyWords);
    }
  }

  /** Replacing (or adding) the child under `c` changes the count by the difference of the two subtrees. */
  lemma ReplaceChildCount(n: Node, c: char, sub: Node, onlyWords: bool)
    ensures Count(n.(children := n.children[c := sub]), onlyWords) + (if c in n.children then Count(n.children[c], onlyWords) else 0)
         == Count(n, onlyWords) + Count(sub, onlyWords)
  {
    var m := n.(children := n.children[c := sub]);
    var rest := n.children.Keys - {c};
    CountBelowPick(m, m.children.Keys, onlyWords, c);
    assert m.children.Keys - {c} == rest;
    CountBelowSame(m, n, rest, onlyWords);
    if c in n.children {
      CountBelowPick(n, n.children.Keys, onlyWords, c);
    } else {
      assert n.children.Keys == rest;
    }
  }

  /**
   * `add_word` adds exactly `created` nodes to the subtree, and one node marked as a
   * word exactly when the word is new.
   */
  lemma {:induction false} AddWordCount(n: Node, w: string)
    ensures Count(AddWord(n, w).node, false) == Count(n, false) + AddWord(n, w).created
    ensures Count(AddWord(n, w).node, true) == Count(n, true) + (if AddWord(n, w).isNew then 1 else 0)
    decreases |w|
  {
    var r := AddWord(n, w);
    if w == [] {
      if !n.isWord {
        CountBelowSame(r.node, n, n.children.Keys, false);
        CountBelowSame(r.node, n, n.children.Keys, true);
      }
    } else {
      var c := w[0];
      var child := if c in n.children then n.children[c] else Leaf(c);
      var sub := AddWord(child, w[1..]);
      AddWordCount(child, w[1..]);
      ReplaceChildCount(n, c, sub.node, false);
      ReplaceChildCount(n, c, sub.node, true);
    }
  }

  // ---------------------------------------------------------------------------
  // Paths and words in a tree without dead branches

  /** A node that is a word or has a child, with no dead branch below, stores some word. */
  lemma {:induction false} LiveStoresWord(n: Node) returns (w: string)
    requires Live(n) && (n.isWord || n.children != map[])
    ensures w in Words(n)
    decreases n
  {
    if n.isWord {
      w := [];
      WordsStep(n, w);
    } else {
      var c :| c in n.children;
      var v := LiveStoresWord(n.children[c]);
      w := [c] + v;
      WordsStep(n, w);
      assert w[1..] == v;
    }
  }

  /** In a tree without dead branches, every non-empty path extends to a stored word. */
  lemma {:induction false} LivePathExtends(n: Node, p: string) returns (rest: string)
    requires Live(n) && p in Paths(n) && p != []
    ensures p + rest in Words(n)
    decreases |p|
  {
    PathsStep(n, p);
    var child := n.children[p[0]];
    if p[1..] == [] {
      var v := LiveStoresWord(child);
      rest := v;
    } else {
      rest := LivePathExtends(child, p[1..]);
    }
    WordsStep(n, p + rest);
    assert (p + rest)[1..] == p[1..] + rest;
  }

  /** Every string that a stored word starts with spells a path. */
  lemma WordPrefixIsPath(n: Node, p: string, rest: string)
    requires p + rest in Words(n)
    ensures p in Paths(n)
  {
    WordsArePaths(n, p + rest);
    PathsPrefixClosed(n, p, rest);
  }
}
