/**
 * The word-level API of the prefix tree (`Trie` in src/trie.rs): the root node with
 * its sentinel character, the counters `trie_size` and `num_words`, bulk insertion,
 * and the word and prefix queries.
 */
module Tries {
  import opened Ascii
  import opened TrieNodes
  import opened Validation

  /** The character of the root node. Queries put it in front of the query text. */
  const Sentinel := '!'

  /** What a batch of `add_word` calls leaves: the tree, nodes created, words newly stored. */
  datatype Batch = Batch(node: Node, created: nat, newWords: nat)

  /** `add_word` applied to the words in order, summing what each call reports. */
  function AddAll(n: Node, words: seq<string>): (r: Batch)
    ensures r.newWords <= |words|
    ensures r.node.ch == n.ch
    ensures words == [] ==> r == Batch(n, 0, 0)
    decreases |words|
  {
    if words == [] then Batch(n, 0, 0)
    else
      var prev := AddAll(n, words[..|words| - 1]);
      var ins := AddWord(prev.node, words[|words| - 1]);
      Batch(ins.node, prev.created + ins.created, prev.newWords + if ins.isNew then 1 else 0)
  }

  /** A batch keeps the root's character, every child under its own key, and no dead branch. */
  lemma {:induction false} AddAllKeepsShape(n: Node, words: seq<string>)
    requires Keyed(n) && Live(n)
    ensures AddAll(n, words).node.ch == n.ch
    ensures Keyed(AddAll(n, words).node) && Live(AddAll(n, words).node)
    decreases |words|
  {
    if words != [] {
      var init := words[..|words| - 1];
      AddAllKeepsShape(n, init);
      AddWordKeepsShape(AddAll(n, init).node, words[|words| - 1]);
    }
  }

  /** A batch stores exactly the old words plus the words of the batch. */
  lemma {:induction false} AddAllWords(n: Node, words: seq<string>)
    ensures Words(AddAll(n, words).node) == Words(n) + (set w | w in words)
    decreases |words|
  {
    if words != [] {
      var init := words[..|words| - 1];
      var last := words[|words| - 1];
      AddAllWords(n, init);
      AddWordWords(AddAll(n, init).node, last);
      assert words == init + [last];
      assert (set w | w in words) == (set w | w in init) + {last};
    }
  }

  /** A batch adds to the tree exactly the nodes it reports as created. */
  lemma {:induction false} AddAllNodeCount(n: Node, words: seq<string>)
    ensures Count(AddAll(n, words).node, false) == Count(n, false) + AddAll(n, words).created
    decreases |words|
  {
    if words != [] {
      var init := words[..|words| - 1];
      var last := words[|words| - 1];
      var prev := AddAll(n, init);
      AddAllNodeCount(n, init);
      AddWordCount(prev.node, last);
      var ins := AddWord(prev.node, last);
      assert AddAll(n, words) == Batch(ins.node, prev.created + ins.created, prev.newWords + if ins.isNew then 1 else 0);
    }
  }

  /** A batch marks as words exactly as many nodes as it reports new words. */
  lemma {:induction false} AddAllWordCount(n: Node, words: seq<string>)
    ensures Count(AddAll(n, words).node, true) == Count(n, true) + AddAll(n, words).newWords
    decreases |words|
  {
    if words != [] {
      var init := words[..|words| - 1];
      var last := words[|words| - 1];
      var prev := AddAll(n, init);
      AddAllWordCount(n, init);
      AddWordCount(prev.node, last);
      var ins := AddWord(prev.node, last);
      assert AddAll(n, words) == Batch(ins.node, prev.created + ins.created, prev.newWords + if ins.isNew then 1 else 0);
    }
  }

  /** The words a batch reports as new are the distinct words of the batch not stored before. */
  lemma {:induction false} AddAllNewWords(n: Node, words: seq<string>)
    ensures |Words(AddAll(n, words).node)| == |Words(n)| + AddAll(n, words).newWords
    decreases |words|
  {
    if words != [] {
      var init := words[..|words| - 1];
      var last := words[|words| - 1];
      var prev := AddAll(n, init);
      AddAllNewWords(n, init);
      AddWordStoredCount(prev.node, last);
      var ins := AddWord(prev.node, last);
      assert AddAll(n, words) == Batch(ins.node, prev.created + ins.created, prev.newWords + if ins.isNew then 1 else 0);
    }
  }

  /** Adding a batch a second time changes nothing and counts nothing. */
  lemma {:induction false} AddAllTwice(n: Node, words: seq<string>)
    ensures var once := AddAll(n, words).node;
      AddAll(once, words) == Batch(once, 0, 0)
  {
    var once := AddAll(n, words).node;
    AddAllWords(n, words);
    AddAllStored(once, words);
  }

  /** Adding words that are all stored already leaves the tree as it is. */
  lemma {:induction false} AddAllStored(n: Node, words: seq<string>)
    requires forall w :: w in words ==> w in Words(n)
    ensures AddAll(n, words) == Batch(n, 0, 0)
    decreases |words|
  {
    if words != [] {
      var init := words[..|words| - 1];
      AddAllStored(n, init);
      assert words[|words| - 1] in words;
      AddWordIdempotent(n, words[|words| - 1]);
    }
  }

  class Trie {
    /** `base_trie_node`: the root, whose character is the sentinel. */
    var root: Node
    /** `trie_size`: the number of nodes created by the most recent `add_words` call. */
    var trieSize: nat
    /** `num_words`: the number of stored words. */
    var numWords: nat

    /**
     * The root carries the sentinel; children sit under their own characters; there
     * is no dead branch; `num_words` is both the number of nodes marked as words and
     * the number of distinct stored words; `trie_size` never exceeds the non-root nodes.
     */
    ghost predicate Valid()
      reads this
    {
      && root.ch == Sentinel && Keyed(root) && Live(root)
      && numWords == Count(root, true) == |Words(root)|
      && trieSize < Count(root, false)
    }

    /** The set of stored words. */
    ghost function Dictionary(): set<string>
      reads this
    {
      Words(root)
    }

    /** The empty trie that `Trie::new` starts from. */
    constructor ()
      ensures Valid()
      ensures root == Node(false, Sentinel, map[]) && trieSize == 0 && numWords == 0
      ensures Dictionary() == {}
    {
      root := Leaf(Sentinel);
      trieSize := 0;
      numWords := 0;
    }

    /**
     * `add_words`: inserts each word at the root in order. `num_words` grows by one
     * per newly stored word; `trie_size` is set to the nodes created by this call,
     * replacing its previous value.
     */
    method AddWords(words: seq<string>)
      requires Valid()
      modifies this
      ensures Valid()
      ensures root == AddAll(old(root), words).node
      ensures Dictionary() == old(Dictionary()) + (set w | w in words)
      ensures numWords == old(numWords) + |Dictionary() - old(Dictionary())|
      ensures trieSize == AddAll(old(root), words).created
      ensures trieSize == Count(root, false) - Count(old(root), false)
    {
      var numNodesAdded: nat := 0;
      var i := 0;
      while i < |words|
        invariant 0 <= i <= |words|
        invariant root == AddAll(old(root), words[..i]).node
        invariant numNodesAdded == AddAll(old(root), words[..i]).created
        invariant numWords == old(numWords) + AddAll(old(root), words[..i]).newWords
      {
        var returned := AddWord(root, words[i]);
        assert words[..i + 1][..i] == words[..i];
        root := returned.node;
        numNodesAdded := numNodesAdded + returned.created;
        if returned.isNew {
          numWords := numWords + 1;
        }
        i := i + 1;
      }
      assert words[..i] == words;
      AddAllKeepsShape(old(root), words);
      AddAllWords(old(root), words);
      AddAllNodeCount(old(root), words);
      AddAllWordCount(old(root), words);
      AddAllNewWords(old(root), words);
      trieSize := numNodesAdded;
    }

    /**
     * `does_prefix_exist`: whether the lower-cased query spells a path from the root,
     * whether or not that path ends on a stored word.
     */
    function DoesPrefixExist(s: string): (r: bool)
      reads this
      ensures r <==> Lower(s) in Paths(root)
    {
      var q := [Sentinel] + Lower(s);
      SearchTreeSpec(root, q, false);
      assert q[1..] == Lower(s);
      SearchTree(root, q, false)
    }

    /** `does_word_exist`: whether the lower-cased query is a stored word. */
    function DoesWordExist(s: string): (r: bool)
      reads this
      ensures r <==> Lower(s) in Dictionary()
    {
      var q := [Sentinel] + Lower(s);
      SearchTreeSpec(root, q, true);
      assert q[1..] == Lower(s);
      SearchTree(root, q, true)
    }
  }

  /** A word query that succeeds implies the prefix query for the same text succeeds. */
  lemma WordImpliesPrefix(t: Trie, s: string)
    ensures t.DoesWordExist(s) ==> t.DoesPrefixExist(s)
  {
    if Lower(s) in t.Dictionary() {
      WordsArePaths(t.root, Lower(s));
    }
  }

  /** Both queries ignore the case of ASCII letters in the query. */
  lemma QueriesIgnoreCase(t: Trie, s: string)
    ensures t.DoesWordExist(s) == t.DoesWordExist(Lower(s))
    ensures t.DoesPrefixExist(s) == t.DoesPrefixExist(Lower(s))
  {
    LowerIdempotent(s);
  }

  /**
   * In a valid trie the prefix query succeeds exactly for the empty query and for the
   * strings some stored word starts with, a stored word itself included.
   */
  lemma PrefixMeansSomeWordExtends(t: Trie, s: string)
    requires t.Valid()
    ensures t.DoesPrefixExist(s) <==> Lower(s) == [] || exists rest :: Lower(s) + rest in t.Dictionary()
  {
    var p := Lower(s);
    if p in Paths(t.root) && p != [] {
      var rest := LivePathExtends(t.root, p);
    }
    if exists rest :: p + rest in t.Dictionary() {
      var rest :| p + rest in t.Dictionary();
      WordPrefixIsPath(t.root, p, rest);
    }
    PathsStep(t.root, p);
  }

  /**
   * `Trie::new`, given the text of the file at `filePath` as `contents`: an empty trie
   * with the validated word list, or the validation error with no words.
   */
  method New(filePath: string, contents: string) returns (t: Result<Trie>, words: seq<string>)
    ensures Load(filePath, contents).Err? ==> t == Err(Load(filePath, contents).error) && words == []
    ensures Load(filePath, contents).Ok? ==>
      && t.Ok? && fresh(t.value) && t.value.Valid() && t.value.Dictionary() == {}
      && t.value.numWords == 0 && t.value.trieSize == 0
      && words == Load(filePath, contents).value
  {
    var trie := new Trie();
    var verified := VerifyContents(filePath, contents);
    match verified {
      case Ok(ws) =>
        t, words := Ok(trie), ws;
      case Err(e) =>
        t, words := Err(e), [];
    }
  }

  /**
   * The words `Trie::new` accepts, added with `add_words`, are then found by the word
   * query: they are stored lower-cased, and the query lower-cases too.
   */
  lemma LoadedWordsAreFound(filePath: string, contents: string, n: Node, t: Trie, s: string)
    requires Load(filePath, contents).Ok? && s in Load(filePath, contents).value
    requires t.root == AddAll(n, Load(filePath, contents).value).node
    ensures Lower(s) == s
    ensures SearchTree(t.root, [Sentinel] + s, true)
    ensures t.DoesWordExist(s)
  {
    var ws := Load(filePath, contents).value;
    var lines := Split(contents, Newline);
    VerifiedOk(lines);
    var i :| 0 <= i < |ws| && ws[i] == s;
    LowerIdempotent(lines[i]);
    AddAllWords(n, ws);
    SearchTreeSpec(t.root, [Sentinel] + s, true);
    assert ([Sentinel] + s)[1..] == s;
  }
}
