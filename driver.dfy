/**
 * The driver (`find_word` in md5_decrypt_cpu.py): either the stripped lines of
 * a word list, or, for each length from `min_length` to `max_length`, the
 * generated candidates are scanned. A hit ends the whole run (the source calls
 * `sys.exit(0)`); an exception from the generator ends it too.
 */
module Driver {
  import opened Options
  import opened Generator
  import opened Matcher

  /** What the caller's `word_list_file` amounts to once the file has been opened. */
  datatype WordList =
    | NoWordList                     // `None` or the empty path: brute-force mode
    | MissingFile                    // `open` raised `FileNotFoundError`
    | FileLines(lines: seq<string>)  // the lines the file yields, terminators included

  /** How a run ends. */
  datatype Run =
    | Completed(m: Match)      // a hit (process exit) or exhaustion of the last length
    | FileNotFound             // message printed, `find_word` returns
    | Raised(error: GenError)  // an exception escaping from the generator
    | TypeErrorRaised          // the word-list call as written (see FindWordAsWritten)

  /** The characters Python's `str.isspace` accepts, which `str.strip()` removes. */
  predicate IsSpace(c: char)
  {
    || ('\t' <= c <= '\r')
    || ('\U{1C}' <= c <= '\U{1F}')
    || c == ' '
    || c == '\U{85}'
    || c == '\U{A0}'
    || c == '\U{1680}'
    || ('\U{2000}' <= c <= '\U{200A}')
    || c == '\U{2028}'
    || c == '\U{2029}'
    || c == '\U{202F}'
    || c == '\U{205F}'
    || c == '\U{3000}'
  }

  /** The number of whitespace characters at the start of `s`. */
  function LeadingSpace(s: string): (n: nat)
    ensures n <= |s|
    ensures forall k :: 0 <= k < n ==> IsSpace(s[k])
    ensures n < |s| ==> !IsSpace(s[n])
    decreases |s|
  {
    if s != [] && IsSpace(s[0]) then 1 + LeadingSpace(s[1..]) else 0
  }

  /** The number of whitespace characters at the end of `s`. */
  function TrailingSpace(s: string): (n: nat)
    ensures n <= |s|
    ensures forall k :: |s| - n <= k < |s| ==> IsSpace(s[k])
    ensures n < |s| ==> !IsSpace(s[|s| - 1 - n])
    decreases |s|
  {
    if s != [] && IsSpace(s[|s| - 1]) then 1 + TrailingSpace(s[..|s| - 1]) else 0
  }

  /** `line.strip()`: the longest middle part of `line` that neither starts nor
      ends with whitespace; what is cut off on either side is all whitespace. */
  function Strip(line: string): (r: string)
    ensures LeadingSpace(line) + |r| <= |line|
    ensures r == line[LeadingSpace(line)..LeadingSpace(line) + |r|]
    ensures forall k :: LeadingSpace(line) + |r| <= k < |line| ==> IsSpace(line[k])
    ensures r != [] ==> !IsSpace(r[0]) && !IsSpace(r[|r| - 1])
    ensures (forall k :: 0 <= k < |line| ==> IsSpace(line[k])) <==> r == []
  {
    var lo := LeadingSpace(line);
    if lo == |line| then ""
    else
      var hi := |line| - TrailingSpace(line);
      line[lo..hi]
  }

  /** Stripping twice is stripping once. */
  lemma StripIdempotent(line: string)
    ensures Strip(Strip(line)) == Strip(line)
  {
    var r := Strip(line);
    if r != [] {
      assert LeadingSpace(r) == 0;
      assert TrailingSpace(r) == 0;
    }
  }

  /** `[line.strip() for line in file]`. */
  function StripLines(lines: seq<string>): seq<string>
  {
    seq(|lines|, i requires 0 <= i < |lines| => Strip(lines[i]))
  }

  /** A word that neither starts nor ends with whitespace, read with its line
      terminator, strips to itself. */
  lemma StripLineTerminator(word: string)
    requires word != [] && !IsSpace(word[0]) && !IsSpace(word[|word| - 1])
    ensures Strip(word + "\n") == word
  {
    var line := word + "\n";
    assert line[..|line| - 1] == word;
    assert TrailingSpace(word) == 0;
    assert TrailingSpace(line) == 1;
    assert LeadingSpace(line) == 0;
  }

  /** Two lines read with their terminators strip to the two words. */
  lemma StripTwoLines(a: string, b: string)
    requires a != [] && !IsSpace(a[0]) && !IsSpace(a[|a| - 1])
    requires b != [] && !IsSpace(b[0]) && !IsSpace(b[|b| - 1])
    ensures StripLines([a + "\n", b + "\n"]) == [a, b]
  {
    StripLineTerminator(a);
    StripLineTerminator(b);
  }

  /** A file with lines "foo\n" and "bar\n" yields the candidates "foo" and "bar". */
  lemma StripLinesExample()
    ensures StripLines(["foo\n", "bar\n"]) == ["foo", "bar"]
  {
    StripTwoLines("foo", "bar");
    assert "foo" + "\n" == "foo\n" && "bar" + "\n" == "bar\n";
  }

  /** `find_word`'s brute-force mode, from `length` up to `maxLength`. */
  function BruteForce(md5Hex: string -> string, target: string, length: int, maxLength: int,
                      characters: string, startChar: Option<string>, maxCollisions: int): Run
    decreases maxLength - length
  {
    if length > maxLength then Completed(Exhausted)
    else match Combinations(length, characters, startChar)
      case Failure(e) => Raised(e)
      case Success(candidates) =>
        var m := Scan(md5Hex, target, candidates, maxCollisions);
        if m.Found? then Completed(m)
        else BruteForce(md5Hex, target, length + 1, maxLength, characters, startChar, maxCollisions)
  }

  /** `find_word` with the word-list call completed to the matcher's five parameters. */
  function FindWordSpec(md5Hex: string -> string, target: string, minLength: int, maxLength: int,
                        characters: string, startChar: Option<string>, wordList: WordList, maxCollisions: int): Run
  {
    match wordList
    case NoWordList => BruteForce(md5Hex, target, minLength, maxLength, characters, startChar, maxCollisions)
    case MissingFile => FileNotFound
    case FileLines(lines) => Completed(Scan(md5Hex, target, StripLines(lines), maxCollisions))
  }

  /** `find_word` as written: the word-list branch passes three arguments to a
      five-parameter function, so Python raises `TypeError` before any search. */
  function FindWordAsWritten(md5Hex: string -> string, target: string, minLength: int, maxLength: int,
                             characters: string, startChar: Option<string>, wordList: WordList, maxCollisions: int): Run
  {
    match wordList
    case NoWordList => BruteForce(md5Hex, target, minLength, maxLength, characters, startChar, maxCollisions)
    case MissingFile => FileNotFound
    case FileLines(_) => TypeErrorRaised
  }

  /** Every readable word list fails as written, although the intended scan
      always ends in a verdict, and finds any line that hits. */
  lemma WordListDefect(md5Hex: string -> string, target: string, minLength: int, maxLength: int,
                       characters: string, startChar: Option<string>, lines: seq<string>, maxCollisions: int)
    ensures FindWordAsWritten(md5Hex, target, minLength, maxLength, characters, startChar, FileLines(lines), maxCollisions) == TypeErrorRaised
    ensures var run := FindWordSpec(md5Hex, target, minLength, maxLength, characters, startChar, FileLines(lines), maxCollisions);
      && run.Completed?
      && (run.m == Exhausted <==>
            forall j, r :: 0 <= j < |lines| && 1 <= r <= maxCollisions ==> !Hit(md5Hex, target, Strip(lines[j]), r))
  {
    var cands := StripLines(lines);
    ScanExhausted(md5Hex, target, cands, maxCollisions);
    assert forall j :: 0 <= j < |lines| ==> cands[j] == Strip(lines[j]);
  }

  /** Brute force ends in exhaustion exactly when every length in the range
      generates without error and its scan is exhausted; an empty range is
      exhausted at once. */
  lemma {:induction false} BruteForceExhausted(md5Hex: string -> string, target: string, length: int, maxLength: int,
                                               characters: string, startChar: Option<string>, maxCollisions: int)
    ensures BruteForce(md5Hex, target, length, maxLength, characters, startChar, maxCollisions) == Completed(Exhausted) <==>
      forall l :: length <= l <= maxLength ==>
        Combinations(l, characters, startChar).Success? &&
        Scan(md5Hex, target, Combinations(l, characters, startChar).value, maxCollisions) == Exhausted
    decreases maxLength - length
  {
    if length <= maxLength {
      BruteForceExhausted(md5Hex, target, length + 1, maxLength, characters, startChar, maxCollisions);
    }
  }

  /** A hit among the candidates of one length has that length and starts with the prefix. */
  lemma FoundShape(md5Hex: string -> string, target: string, length: int,
                   characters: string, startChar: Option<string>, maxCollisions: int)
    requires Combinations(length, characters, startChar).Success?
    requires Scan(md5Hex, target, Combinations(length, characters, startChar).value, maxCollisions).Found?
    ensures var m := Scan(md5Hex, target, Combinations(length, characters, startChar).value, maxCollisions);
      |m.word| == length && m.word[..|PrefixOf(startChar)|] == PrefixOf(startChar)
  {
    var cs := Combinations(length, characters, startChar).value;
    var m := Scan(md5Hex, target, cs, maxCollisions);
    ScanFound(md5Hex, target, cs, maxCollisions);
    CombinationsShape(length, characters, startChar);
    var i :| 0 <= i < |cs| && cs[i] == m.word;
  }

  /** A brute-force hit comes from the first length, in increasing order,
      whose scan finds something; it has that length and starts with the prefix. */
  lemma {:induction false} BruteForceFound(md5Hex: string -> string, target: string, length: int, maxLength: int,
                                           characters: string, startChar: Option<string>, maxCollisions: int)
    requires BruteForce(md5Hex, target, length, maxLength, characters, startChar, maxCollisions).Completed?
    requires BruteForce(md5Hex, target, length, maxLength, characters, startChar, maxCollisions).m.Found?
    ensures var m := BruteForce(md5Hex, target, length, maxLength, characters, startChar, maxCollisions).m;
      exists l ::
        && length <= l <= maxLength
        && Combinations(l, characters, startChar).Success?
        && Scan(md5Hex, target, Combinations(l, characters, startChar).value, maxCollisions) == m
        && |m.word| == l
        && m.word[..|PrefixOf(startChar)|] == PrefixOf(startChar)
        && (forall l' :: length <= l' < l ==>
              Combinations(l', characters, startChar).Success? &&
              Scan(md5Hex, target, Combinations(l', characters, startChar).value, maxCollisions) == Exhausted)
    decreases maxLength - length
  {
    var cs := Combinations(length, characters, startChar).value;
    var m := Scan(md5Hex, target, cs, maxCollisions);
    if m.Found? {
      FoundShape(md5Hex, target, length, characters, startChar, maxCollisions);
    } else {
      BruteForceFound(md5Hex, target, length + 1, maxLength, characters, startChar, maxCollisions);
    }
  }

  /** A non-empty prefix too long for the first length is rejected before any search. */
  lemma PrefixTooLongFirst(md5Hex: string -> string, target: string, minLength: int, maxLength: int,
                           characters: string, startChar: Option<string>, maxCollisions: int)
    requires minLength <= maxLength
    requires PrefixOf(startChar) != "" && |PrefixOf(startChar)| >= minLength
    ensures FindWordSpec(md5Hex, target, minLength, maxLength, characters, startChar, NoWordList, maxCollisions) == Raised(PrefixTooLong)
  {
  }

  /** Without a prefix and with an empty alphabet, a negative `min_length`
      raises `ZeroDivisionError` from `0 ** min_length` before any scan. */
  lemma EmptyAlphabetNegativeLength(md5Hex: string -> string, target: string, minLength: int, maxLength: int,
                                    startChar: Option<string>, maxCollisions: int)
    requires minLength < 0 && minLength <= maxLength
    requires PrefixOf(startChar) == ""
    ensures FindWordSpec(md5Hex, target, minLength, maxLength, "", startChar, NoWordList, maxCollisions) == Raised(ZeroToNegative)
  {
  }

  /** `find_word`: the word-list branch with the matcher called as intended,
      or the loop over `range(min_length, max_length + 1)`. */
  method FindWord(md5Hex: string -> string, target: string, minLength: int, maxLength: int,
                  characters: string, startChar: Option<string>, wordList: WordList, maxCollisions: int)
    returns (run: Run)
    ensures run == FindWordSpec(md5Hex, target, minLength, maxLength, characters, startChar, wordList, maxCollisions)
    ensures run != TypeErrorRaised
  {
    match wordList {
      case MissingFile =>
        return FileNotFound;
      case FileLines(lines) =>
        var combinations := StripLines(lines);
        var m := FindWordFromCombinations(md5Hex, target, combinations, maxCollisions);
        return Completed(m);
      case NoWordList =>
        var length := minLength;
        while length <= maxLength
          invariant BruteForce(md5Hex, target, minLength, maxLength, characters, startChar, maxCollisions)
                 == BruteForce(md5Hex, target, length, maxLength, characters, startChar, maxCollisions)
          decreases maxLength - length
        {
          var candidates := GenerateCombinations(length, characters, startChar);
          if candidates.Failure? {
            return Raised(candidates.error);
          }
          var m := FindWordFromCombinations(md5Hex, target, candidates.value, maxCollisions);
          if m.Found? {
            return Completed(m);
          }
          length := length + 1;
        }
        return Completed(Exhausted);
    }
  }
}
