/**
 * The batch validation that `Trie::new` (src/trie.rs) runs over the text of a word
 * list: split on newlines, reject an empty line or a character that is not an ASCII
 * letter, otherwise keep every line, lower-cased, in order.
 *
 * The text of the file is a parameter: reading the file is not part of this model.
 */
module Validation {
  import opened Ascii

  /** `CustomError`, without the file-system variant `UnableToOpen`. */
  datatype CustomError = InvalidFormatting | InvalidCharacter(c: char)

  datatype Result<T> = Ok(value: T) | Err(error: CustomError)

  datatype Option<T> = None | Some(value: T)

  const Newline := '\n'

  // ---------------------------------------------------------------------------
  // Splitting on a separator (`str::split` with a one-character pattern)

  /** The pieces of `s` between occurrences of `sep`; there is always at least one piece. */
  function Split(s: string, sep: char): (parts: seq<string>)
    ensures |parts| >= 1
    ensures forall i :: 0 <= i < |parts| ==> sep !in parts[i]
  {
    if s == [] then [[]]
    else
      var rest := Split(s[1..], sep);
      if s[0] == sep then [[]] + rest
      else [[s[0]] + rest[0]] + rest[1..]
  }

  /** The pieces put back together with `sep` between neighbours. */
  function Join(parts: seq<string>, sep: char): string
    requires |parts| >= 1
  {
    if |parts| == 1 then parts[0] else parts[0] + [sep] + Join(parts[1..], sep)
  }

  /** Splitting loses nothing: joining the pieces gives the text back. */
  lemma {:induction false} JoinSplit(s: string, sep: char)
    ensures Join(Split(s, sep), sep) == s
  {
    if s != [] {
      var rest := Split(s[1..], sep);
      JoinSplit(s[1..], sep);
      if s[0] == sep {
        assert ([[]] + rest)[1..] == rest;
      } else {
        var parts := [[s[0]] + rest[0]] + rest[1..];
        if |rest| > 1 {
          assert parts[1..] == rest[1..];
        }
      }
    }
  }

  /** A piece free of `sep` stays glued to what follows it up to the next `sep`. */
  lemma {:induction false} SplitFreePrefix(a: string, t: string, sep: char)
    requires sep !in a
    ensures Split(a + t, sep) == [a + Split(t, sep)[0]] + Split(t, sep)[1..]
  {
    var st := Split(t, sep);
    if a == [] {
      assert a + t == t && a + st[0] == st[0];
      assert st == [st[0]] + st[1..];
    } else {
      SplitFreePrefix(a[1..], t, sep);
      assert (a + t)[1..] == a[1..] + t;
      assert (a + t)[0] == a[0] != sep;
      var rest := Split(a[1..] + t, sep);
      assert rest == [a[1..] + st[0]] + st[1..];
      assert rest[0] == a[1..] + st[0] && rest[1..] == st[1..];
      assert [a[0]] + (a[1..] + st[0]) == a + st[0];
    }
  }

  /** Splitting undoes joining, for pieces that do not contain the separator. */
  lemma {:induction false} SplitJoin(parts: seq<string>, sep: char)
    requires |parts| >= 1
    requires forall i :: 0 <= i < |parts| ==> sep !in parts[i]
    ensures Split(Join(parts, sep), sep) == parts
  {
    if |parts| == 1 {
      SplitFreePrefix(parts[0], [], sep);
      assert parts[0] + [] == parts[0];
    } else {
      var tail := Join(parts[1..], sep);
      SplitJoin(parts[1..], sep);
      var t := [sep] + tail;
      assert Split(t, sep) == [[]] + parts[1..] by {
        assert t != [] && t[0] == sep && t[1..] == tail;
      }
      assert Join(parts, sep) == parts[0] + t;
      SplitFreePrefix(parts[0], t, sep);
      assert parts[0] + [] == parts[0];
      assert parts == [parts[0]] + parts[1..];
    }
  }

  /** A trailing separator adds one empty last piece. */
  lemma {:induction false} SplitTrailing(s: string, sep: char)
    ensures Split(s + [sep], sep) == Split(s, sep) + [[]]
  {
    if s != [] {
      SplitTrailing(s[1..], sep);
      assert (s + [sep])[1..] == s[1..] + [sep];
    }
  }

  // ---------------------------------------------------------------------------
  // Checking one line

  /** The first character of `line` that is not an ASCII letter, if any. */
  function FirstNonLetter(line: string): (r: Option<char>)
    ensures r.Some? ==> r.value in line && !IsAsciiAlphabetic(r.value)
  {
    if line == [] then None
    else if !IsAsciiAlphabetic(line[0]) then Some(line[0])
    else FirstNonLetter(line[1..])
  }

  /** `FirstNonLetter` finds the character at the first position that is not a letter. */
  lemma {:induction false} FirstNonLetterAt(line: string, j: nat)
    requires j < |line| && !IsAsciiAlphabetic(line[j])
    requires forall k :: 0 <= k < j ==> IsAsciiAlphabetic(line[k])
    ensures FirstNonLetter(line) == Some(line[j])
  {
    if j > 0 {
      FirstNonLetterAt(line[1..], j - 1);
    }
  }

  /** `FirstNonLetter` finds nothing exactly in a line of letters. */
  lemma {:induction false} FirstNonLetterNone(line: string)
    ensures FirstNonLetter(line) == None <==> forall k :: 0 <= k < |line| ==> IsAsciiAlphabetic(line[k])
  {
    if line != [] {
      FirstNonLetterNone(line[1..]);
      if forall k :: 0 <= k < |line[1..]| ==> IsAsciiAlphabetic(line[1..][k]) {
        forall k | 1 <= k < |line| ensures IsAsciiAlphabetic(line[k]) {
          assert line[k] == line[1..][k - 1];
        }
      }
    }
  }

  /** What `FirstNonLetter` finds is the character at the first position that is not a letter. */
  lemma {:induction false} FirstNonLetterSome(line: string) returns (j: nat)
    requires FirstNonLetter(line).Some?
    ensures j < |line| && line[j] == FirstNonLetter(line).value && !IsAsciiAlphabetic(line[j])
    ensures forall k :: 0 <= k < j ==> IsAsciiAlphabetic(line[k])
  {
    if IsAsciiAlphabetic(line[0]) {
      var i := FirstNonLetterSome(line[1..]);
      j := i + 1;
      assert forall k :: 1 <= k < j ==> line[k] == line[1..][k - 1];
    } else {
      j := 0;
    }
  }

  /** Why a line is refused: an empty line first, otherwise its first non-letter. */
  function LineError(line: string): (r: Option<CustomError>)
    ensures r == Some(InvalidFormatting) <==> line == []
    ensures r.Some? && r.value.InvalidCharacter? ==> r.value.c in line && !IsAsciiAlphabetic(r.value.c)
  {
    if |line| == 0 then Some(InvalidFormatting)
    else match FirstNonLetter(line)
      case Some(c) => Some(InvalidCharacter(c))
      case None => None
  }

  /** A line is accepted: it is not empty and made of ASCII letters only. */
  ghost predicate GoodLine(line: string) {
    line != [] && forall k :: 0 <= k < |line| ==> IsAsciiAlphabetic(line[k])
  }

  /**
   * A line is refused with `InvalidFormatting` exactly when it is empty, with
   * `InvalidCharacter(c)` when `c` is its first character that is not a letter, and
   * not at all when it is a non-empty run of letters.
   */
  lemma LineErrorSpec(line: string)
    ensures LineError(line) == None <==> GoodLine(line)
    ensures LineError(line) == Some(InvalidFormatting) <==> line == []
    ensures LineError(line).Some? && LineError(line).value.InvalidCharacter? ==>
      exists j :: 0 <= j < |line| && line[j] == LineError(line).value.c && !IsAsciiAlphabetic(line[j]) &&
        forall k :: 0 <= k < j ==> IsAsciiAlphabetic(line[k])
  {
    FirstNonLetterNone(line);
    if line != [] && FirstNonLetter(line).Some? {
      var j := FirstNonLetterSome(line);
    }
  }

  // ---------------------------------------------------------------------------
  // Checking the lines in order

  /** The outcome of checking `lines` in order: the first refused line decides the error. */
  function Verified(lines: seq<string>): (r: Result<seq<string>>)
    ensures r.Ok? ==> |r.value| == |lines|
    ensures r.Err? ==> exists i :: 0 <= i < |lines| && LineError(lines[i]) == Some(r.error)
  {
    if lines == [] then Ok([])
    else match LineError(lines[0])
      case Some(e) => Err(e)
      case None =>
        match Verified(lines[1..])
        case Ok(rest) => Ok([Lower(lines[0])] + rest)
        case Err(e) => Err(e)
  }

  /**
   * The batch is accepted exactly when every line is; it then holds every line,
   * lower-cased, in the same order.
   */
  lemma {:induction false} VerifiedOk(lines: seq<string>)
    ensures Verified(lines).Ok? <==> forall i :: 0 <= i < |lines| ==> GoodLine(lines[i])
    ensures Verified(lines).Ok? ==>
      |Verified(lines).value| == |lines| &&
      forall i :: 0 <= i < |lines| ==> Verified(lines).value[i] == Lower(lines[i])
  {
    if lines != [] {
      VerifiedOk(lines[1..]);
      LineErrorSpec(lines[0]);
      assert forall i :: 1 <= i < |lines| ==> lines[1..][i - 1] == lines[i];
    }
  }

  /** An accepted batch holds non-empty words of ASCII letters that lower-casing leaves unchanged. */
  lemma VerifiedLowerLetters(lines: seq<string>)
    ensures Verified(lines).Ok? ==> forall i :: 0 <= i < |Verified(lines).value| ==>
      GoodLine(Verified(lines).value[i]) && Lower(Verified(lines).value[i]) == Verified(lines).value[i]
  {
    VerifiedOk(lines);
    if Verified(lines).Ok? {
      forall k | 0 <= k < |lines|
        ensures GoodLine(Lower(lines[k])) && Lower(Lower(lines[k])) == Lower(lines[k])
      {
        LowerOfLetters(lines[k]);
        LowerIdempotent(lines[k]);
      }
    }
  }

  /**
   * A refused batch reports the error of its first refused line: every line before
   * it is accepted.
   */
  lemma {:induction false} VerifiedErr(lines: seq<string>) returns (i: nat)
    requires Verified(lines).Err?
    ensures i < |lines|
    ensures forall k :: 0 <= k < i ==> GoodLine(lines[k])
    ensures LineError(lines[i]) == Some(Verified(lines).error)
  {
    LineErrorSpec(lines[0]);
    if LineError(lines[0]).Some? {
      i := 0;
    } else {
      var j := VerifiedErr(lines[1..]);
      i := j + 1;
      assert forall k :: 1 <= k < i ==> lines[k] == lines[1..][k - 1];
    }
  }

  /** Checking one more line: an earlier error stands, otherwise the new line decides. */
  lemma {:induction false} VerifiedSnoc(lines: seq<string>, line: string)
    ensures Verified(lines + [line]) ==
      match Verified(lines)
      case Err(e) => Err(e)
      case Ok(v) => (match LineError(line)
        case Some(e) => Err(e)
        case None => Ok(v + [Lower(line)]))
  {
    if lines == [] {
      assert lines + [line] == [line];
      assert [line][1..] == [];
      assert [Lower(line)] + [] == [] + [Lower(line)];
    } else {
      var l := lines + [line];
      assert l[0] == lines[0];
      assert l[1..] == lines[1..] + [line];
      VerifiedSnoc(lines[1..], line);
      match LineError(lines[0]) {
        case Some(e) =>
        case None =>
          match Verified(lines[1..]) {
            case Err(e) =>
            case Ok(rest) =>
              match LineError(line) {
                case Some(e) =>
                case None =>
                  assert [Lower(lines[0])] + (rest + [Lower(line)]) == ([Lower(lines[0])] + rest) + [Lower(line)];
              }
          }
      }
    }
  }

  /** Once a prefix of the lines is refused, the lines after it do not matter. */
  lemma {:induction false} VerifiedErrPrefix(lines: seq<string>, more: seq<string>)
    requires Verified(lines).Err?
    ensures Verified(lines + more) == Verified(lines)
  {
    assert lines != [];
    if LineError(lines[0]).None? {
      VerifiedErrPrefix(lines[1..], more);
      assert (lines + more)[1..] == lines[1..] + more;
    }
    assert (lines + more)[0] == lines[0];
  }

  // ---------------------------------------------------------------------------
  // The whole of Trie::new's validation

  /**
   * The word list `Trie::new` returns for `filePath`, given `contents` as the text of
   * that file: an empty path means no file and no words.
   */
  function Load(filePath: string, contents: string): (r: Result<seq<string>>)
    ensures r.Ok? ==> forall i :: 0 <= i < |r.value| ==> GoodLine(r.value[i]) && Lower(r.value[i]) == r.value[i]
  {
    if |filePath| == 0 then Ok([])
    else
      var lines := Split(contents, Newline);
      VerifiedLowerLetters(lines);
      Verified(lines)
  }

  /**
   * A text that ends in a newline is always refused: its last line is empty, and
   * unless an earlier line has a bad character the error is `InvalidFormatting`.
   */
  lemma TrailingNewlineRefused(filePath: string, contents: string)
    requires |filePath| > 0
    ensures Load(filePath, contents + [Newline]).Err?
    ensures Verified(Split(contents, Newline)).Ok? ==>
      Load(filePath, contents + [Newline]) == Err(InvalidFormatting)
  {
    SplitTrailing(contents, Newline);
    VerifiedSnoc(Split(contents, Newline), []);
  }

  /**
   * The validation loop of `Trie::new`: walks the lines, returns at the first empty
   * line or bad character, and otherwise collects every line lower-cased.
   */
  method VerifyContents(filePath: string, contents: string) returns (r: Result<seq<string>>)
    ensures r == Load(filePath, contents)
    ensures |filePath| == 0 ==> r == Ok([])
    ensures r.Ok? ==> forall i :: 0 <= i < |r.value| ==> GoodLine(r.value[i]) && Lower(r.value[i]) == r.value[i]
  {
    if |filePath| == 0 {
      return Ok([]);
    }
    var lines := Split(contents, Newline);
    var verifiedContents: seq<string> := [];
    var i := 0;
    while i < |lines|
      invariant 0 <= i <= |lines|
      invariant Verified(lines[..i]) == Ok(verifiedContents)
    {
      var content := lines[i];
      VerifiedSnoc(lines[..i], content);
      assert lines[..i + 1] == lines[..i] + [content];
      if |content| == 0 {
        VerifiedErrPrefix(lines[..i + 1], lines[i + 1..]);
        assert lines[..i + 1] + lines[i + 1..] == lines by {
          assert forall k :: 0 <= k < |lines| ==> (lines[..i + 1] + lines[i + 1..])[k] == lines[k];
        }
        return Err(InvalidFormatting);
      }
      var j := 0;
      while j < |content|
        invariant 0 <= j <= |content|
        invariant forall k :: 0 <= k < j ==> IsAsciiAlphabetic(content[k])
      {
        var c := content[j];
        if !IsAsciiAlphabetic(c) {
          FirstNonLetterAt(content, j);
          VerifiedErrPrefix(lines[..i + 1], lines[i + 1..]);
          assert lines[..i + 1] + lines[i + 1..] == lines by {
            assert forall k :: 0 <= k < |lines| ==> (lines[..i + 1] + lines[i + 1..])[k] == lines[k];
          }
          return Err(InvalidCharacter(c));
        }
        j := j + 1;
      }
      FirstNonLetterNone(content);
      verifiedContents := verifiedContents + [Lower(content)];
      i := i + 1;
    }
    assert lines[..i] == lines;
    r := Ok(verifiedContents);
  }
}
