# A verified model of the API_Trie prefix-tree engine

This project models the prefix-tree engine of API_Trie (`src/trie.rs`) in Dafny and proves
properties of it. The engine has three parts:

- **`TrieNode`** (`trie_node.dfy`, module `TrieNodes`). A node holds a word flag, its
  character and a map from characters to child nodes. It has two recursive operations:
  - `search_tree` walks a query one character at a time.
  - `add_word` inserts the remaining characters of a word and reports two things: the
    number of nodes it created, and whether the word was new.

  A subtree is abstracted as two sets: `Words`, the strings it stores, and `Paths`, the
  strings that spell a path from it. `Count` gives the number of nodes, or the number of
  nodes marked as words.
- **`Trie`** (`trie.dfy`, module `Tries`). A class holding the root node, which carries the
  sentinel character `'!'`, and the two counters `trie_size` and `num_words`.
  - `add_words` is a loop over the words that reassigns the root and updates the counters.
  - `does_prefix_exist` and `does_word_exist` lower-case the query, put `'!'` in front of
    it and search from the root.
  - The class invariant `Valid()` says five things:
    - the root carries the sentinel `'!'`;
    - `num_words` equals both the number of nodes marked as words and the number of
      distinct stored words;
    - every child sits under its own character;
    - no branch of the tree is dead (every non-root node is a word or has children);
    - `trie_size` is smaller than the node count.
- **The validation inside `Trie::new`** (`validation.dfy`, module `Validation`). It works
  on the text of the word file:
  - the text is split on `'\n'`;
  - the lines are checked in order, and the first empty line (`InvalidFormatting`) or the
    first character that is not an ASCII letter (`InvalidCharacter(c)`) ends the check;
  - otherwise every line is kept, lower-cased and in order;
  - an empty file path gives an empty word list.

  `VerifyContents` is the loop; `Load` is the function it is proved against. `Tries.New`
  puts the empty trie and the word list together, as `Trie::new` does.

`ascii.dfy` (module `Ascii`) holds the ASCII letter test and case folding that the code
takes from Rust's `char` and `str`.

Four behaviours of the code that the model keeps as written:

- `does_prefix_exist` does not turn false on an exact stored word. The condition at
  src/trie.rs:46 is `(is_word && must_be_complete) || !must_be_complete`, which is `true`
  whenever `must_be_complete` is false. So the prefix query answers whether the query
  spells a path, including a path that ends on a stored word.
  `Tries.PrefixMeansSomeWordExtends` states this.
- `add_words` sets `trie_size` to the number of nodes created by that call alone
  (src/trie.rs:129-132, 142). It does not add to the previous value. So `trie_size` is the
  node count of the tree only after the first call on an empty trie.
- The error type is `InvalidFormatting` for an empty line and `InvalidCharacter(c)` for a
  bad character (src/trie.rs:110-117). Neither variant carries the offending line.
- `add_words` neither validates nor lower-cases its input (src/trie.rs:126-143). A word
  with upper-case letters added directly is stored as given, and the queries, which
  lower-case the query, do not find it. An empty word marks the root as a word. Words
  that come through `Trie::new` are already lower-case, and `Tries.LoadedWordsAreFound`
  shows that the word query finds them.

## Model

| member | source | states |
|---|---|---|
| `TrieNodes.Leaf` | src/trie.rs:27-29 | A new node carries the given character. It stores no word, its only path is the empty one, and it counts as one node and no word. |
| `TrieNodes.SearchTree` | src/trie.rs:31-57 | `search_tree` fails at once when the next character has no child. When only the node's own character is left, it answers `is_word` with `must_be_complete` and `true` without it. |
| `TrieNodes.SearchTreeSpec` | src/trie.rs:31-57 | `search_tree` skips the node's own character. With `must_be_complete` it is true exactly when the rest of the query is a stored word. Without it, it is true exactly when the rest spells a path. |
| `TrieNodes.CompleteSearchImpliesPath` | src/trie.rs:44-51 | A complete-word search that succeeds implies the plain search on the same characters succeeds. |
| `TrieNodes.WordsArePaths` | src/trie.rs:44-51 | Every stored word spells a path. |
| `TrieNodes.WordPrefixIsPath` | src/trie.rs:35-43 | Every prefix of a stored word spells a path. |
| `TrieNodes.AddWord` | src/trie.rs:60-82 | `add_word` creates at most one node per character of the word. It keeps the node's own character. |
| `TrieNodes.AddWordWords` | src/trie.rs:60-82 | After `add_word(w)`, the stored words are the old ones plus `w`. The word is reported new exactly when it was not stored before. |
| `TrieNodes.AddWordStoredCount` | src/trie.rs:72-81 | The number of distinct stored words grows by one exactly when `add_word` reports the word as new. |
| `TrieNodes.AddWordIdempotent` | src/trie.rs:72-81 | Adding a stored word again returns `(0, false)` and leaves the subtree unchanged. |
| `TrieNodes.AddWordPaths` | src/trie.rs:61-71 | After `add_word(w)`, the paths are the old ones plus every prefix of `w`. No path is removed. |
| `TrieNodes.AddWordKeepsShape` | src/trie.rs:63-66 | `add_word` keeps every child under its own character and leaves no dead branch. A non-empty word leaves the node with children. |
| `TrieNodes.AddWordCreatesMissingTail` | src/trie.rs:61-71 | The created count is the length of `w` minus the longest prefix of `w` already present. |
| `TrieNodes.AddWordCreatesAll` | src/trie.rs:63-66 | Below a node without children, every character of the word creates a node. |
| `TrieNodes.MatchedLengthIsLongest` | src/trie.rs:63-70 | The matched length is the longest prefix of `w` that is a path: that prefix exists and the next one does not. |
| `TrieNodes.AddWordCount` | src/trie.rs:61-81 | `add_word` adds exactly the created count to the subtree's node count. It adds one node marked as a word exactly when the word is new. |
| `TrieNodes.LiveStoresWord` | src/trie.rs:60-82 | A node with no dead branch below it that is a word or has children stores some word. |
| `TrieNodes.LivePathExtends` | src/trie.rs:60-82 | In a tree built by `add_word`, every non-empty path extends to a stored word. |
| `Tries.AddAll` | src/trie.rs:129-140 | The words of a batch are inserted in order. The batch reports at most one new word per word and keeps the root's character. An empty batch changes nothing and counts nothing. |
| `Tries.AddAllKeepsShape` | src/trie.rs:126-143 | A batch of insertions keeps the root's character, every child under its own key, and no dead branch. |
| `Tries.AddAllWords` | src/trie.rs:130-131 | After a batch, the stored words are the old ones plus the words of the batch. |
| `Tries.AddAllNodeCount` | src/trie.rs:129-132 | A batch adds to the node count exactly the sum of the created counts it reports. |
| `Tries.AddAllWordCount` | src/trie.rs:133-135 | A batch adds to the count of word-marked nodes exactly the number of words it reports new. |
| `Tries.AddAllNewWords` | src/trie.rs:133-135 | The words a batch reports new are as many as the distinct words of the batch that were not stored before. |
| `Tries.AddAllStored` | src/trie.rs:130-140 | A batch of words that are all stored already leaves the tree unchanged and counts nothing. |
| `Tries.AddAllTwice` | src/trie.rs:126-143 | Adding the same batch a second time changes nothing and counts nothing. |
| `Tries.Trie.constructor` | src/trie.rs:98 | The starting trie is a bare root with the sentinel `'!'`. Both counters are zero, no word is stored, and the invariant holds. |
| `Tries.Trie.AddWords` | src/trie.rs:126-143 | Three effects. The stored words become the old ones plus the batch. `num_words` grows by the number of words newly stored. `trie_size` is set to the nodes created by this call alone (the new node count minus the old one). The invariant is kept. |
| `Tries.Trie.DoesPrefixExist` | src/trie.rs:146-149 | True exactly when the lower-cased query spells a path from the root. An exact stored word counts as well. |
| `Tries.Trie.DoesWordExist` | src/trie.rs:153-156 | True exactly when the lower-cased query is a stored word. |
| `Tries.WordImpliesPrefix` | src/trie.rs:146-156 | If the word query succeeds, the prefix query on the same text succeeds too. |
| `Tries.QueriesIgnoreCase` | src/trie.rs:146-156 | Both queries give the same answer for a query and for its lower-cased form. |
| `Tries.PrefixMeansSomeWordExtends` | src/trie.rs:146-149 | In a valid trie, the prefix query succeeds exactly in two cases. The query is empty, or some stored word starts with it, the word itself included. |
| `Tries.New` | src/trie.rs:96-124 | `Trie::new` on a text either gives the validation error and no words, or gives a fresh, valid, empty trie with the validated word list. |
| `Tries.LoadedWordsAreFound` | src/trie.rs:119 | A word accepted by `Trie::new` is already lower-case. Once the loaded list is added to a trie's root, `does_word_exist` finds it. |
| `Validation.Split` | src/trie.rs:107 | Splitting on `'\n'` always gives at least one line, and no line contains the separator. |
| `Validation.JoinSplit` | src/trie.rs:107 | Joining the pieces of a split with the separator gives back the text. |
| `Validation.SplitJoin` | src/trie.rs:107 | Splitting the join of pieces without separators gives back those pieces. |
| `Validation.SplitTrailing` | src/trie.rs:107 | A trailing separator adds one empty last piece. |
| `Validation.FirstNonLetter` | src/trie.rs:113-117 | A reported character occurs in the line and is not an ASCII letter. |
| `Validation.FirstNonLetterAt` | src/trie.rs:113-118 | The scan of a line reports the character at the first position that is not an ASCII letter. |
| `Validation.FirstNonLetterNone` | src/trie.rs:113-118 | The scan of a line reports nothing exactly when every character is an ASCII letter. |
| `Validation.FirstNonLetterSome` | src/trie.rs:113-118 | A reported character sits at a position that is not a letter, and every position before it is a letter. |
| `Validation.LineError` | src/trie.rs:110-117 | A line is refused with `InvalidFormatting` exactly when it is empty. An `InvalidCharacter` refusal names a character of the line that is not an ASCII letter. |
| `Validation.LineErrorSpec` | src/trie.rs:110-118 | An empty line is refused with `InvalidFormatting`, and only an empty one. Otherwise the refusal is `InvalidCharacter` of the first non-letter. A non-empty line of letters is accepted. |
| `Validation.Verified` | src/trie.rs:108-120 | An accepted batch has one word per line. A refused batch reports the error of one of its lines. |
| `Validation.VerifiedOk` | src/trie.rs:108-120 | The lines are accepted exactly when every line is. The result then has the same length and order as the lines, each lower-cased. |
| `Validation.VerifiedErr` | src/trie.rs:108-118 | A refused batch reports the error of its first refused line. Every line before that one is accepted. |
| `Validation.VerifiedSnoc` | src/trie.rs:108-120 | Checking one more line keeps an earlier error. Otherwise the new line's own check decides, and an accepted line is appended lower-cased. |
| `Validation.VerifiedErrPrefix` | src/trie.rs:110-117 | Once a prefix of the lines is refused, the later lines do not change the result. |
| `Validation.TrailingNewlineRefused` | src/trie.rs:107-112 | A text ending in a newline is always refused. When every earlier line is valid, the error is `InvalidFormatting`. |
| `Validation.Load` | src/trie.rs:96-124 | Every word that `Trie::new` accepts is a non-empty run of ASCII letters that lower-casing leaves unchanged. |
| `Validation.VerifyContents` | src/trie.rs:96-124 | The validation loop returns the result of `Load`. An empty path gives `Ok` with no words. Every accepted word is a non-empty, lower-case run of letters. |
| `Ascii.IsAsciiAlphabetic` | src/trie.rs:114 | Only ASCII characters count as letters. |
| `Ascii.LowerChar` | src/trie.rs:119 | Lower-casing one character never gives an upper-case ASCII letter. It maps each upper-case letter to its own lower-case letter and leaves every other character, lower-case letters included, as it is. |
| `Ascii.Lower` | src/trie.rs:119 | Lower-casing a string keeps its length and lower-cases each character in place. |

## Left out

- `fs::read_to_string` and the `UnableToOpen` error (src/trie.rs:105, 121) are file I/O. The text of the file is a parameter.
- The `println!` diagnostics in `add_word`, `add_words` and `Trie::new` are not modelled.
- The `Rc<RefCell<TrieNode>>` sharing of children is not modelled: children are owned subtrees, and nothing in the code aliases a node. `add_word`'s update in place is modelled as a function that returns the updated subtree, and `Trie.AddWords` stores it back into `root`.
- The `unreachable!()` branch of `search_tree` is not modelled. It becomes the precondition that the query is non-empty, which both queries meet because they put `'!'` in front.
- Tries.Trie.AddWords: the `u32` counters `trie_size` and `num_words` and the `u32` count returned by `add_word` are unbounded here. Overflow would need more than 2^32 nodes.
- src/main.rs (the HTTP routes and the demo in `main`) is not part of this model.
- Delete with pruning, autocomplete, clearing, metadata and the multi-instance registry with its locking do not exist in `src/trie.rs`. They are not part of this model.
