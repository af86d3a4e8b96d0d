# md5-decrypter: a verified model of the candidate search

This project models, in Dafny, the two sequential cores of the md5-decrypter
repository:

* `md5_decrypt_cpu.py` searches for a plaintext whose iterated MD5 digest
  equals a target hash. It expands alphabet shorthand tags (`replace_tags`),
  enumerates every string of a given length over an alphabet in
  `itertools.product` order, optionally behind a fixed prefix
  (`generate_combinations_gpu`), and scans these candidates, or the stripped
  lines of a word list, for the first word and the smallest repetition count
  whose iterated digest is the target (`find_word_from_combinations`,
  `find_word`).
* `phrase_to_unique_symb.py` removes repeated characters from a phrase and
  keeps the first occurrence of each (`unique_chars_generator`).

Modules: `Options` (Option and Result), `Hashing` (`md5_hash`), `Tags`
(`TAGS`, `replace_tags`), `Generator` (`generate_combinations_gpu`),
`Matcher` (`find_word_from_combinations`), `Driver` (`find_word`) and
`UniqueChars` (`unique_chars_generator`).

The loops of the source are methods with loops: `Md5Hash`, `ReplaceTags`,
`GenerateCombinations` with `Collect`, `FindWordFromCombinations`, `FindWord`
and `UniqueCharsGenerator`. Each is proved against a specification function:
`Iterate`, `ReplaceAll`, `Product`/`Combinations`, `Scan`, `FindWordSpec` and
`FirstOccurrences`. The lemmas then prove what the source promises about
these functions.

MD5 itself is a foreign library call. Every member takes it as a parameter
`md5Hex: string -> string`, which stands for "MD5 of the UTF-8 encoding, as
lower-case hex". Nothing is assumed about it, so no concrete digest value
is claimed.

Printing followed by `sys.exit(0)` becomes a returned value. A scan ends in
`Match.Found(word, collisions, digest)`, where `digest` is the single-pass
digest the source prints, or in `Match.Exhausted`. A run of `find_word` ends
in `Run.Completed(match)`, `Run.FileNotFound`, `Run.Raised(error)` or,
for the word-list call as written, `Run.TypeErrorRaised` (see "## Findings").
`Run.Raised` stands for an exception from the generator (`ValueError` or
`ZeroDivisionError`), which the source does not catch.

On these edge inputs the model follows what the code does:

* The word-list mode cannot work as written (see "## Findings").
* The code accepts an empty alphabet. It then yields no candidate for a
  positive length, and the single empty candidate for length 0.
* A negative length with no prefix first evaluates
  `len(characters) ** length`. For an empty alphabet that is `0` raised to a
  negative power, which raises `ZeroDivisionError`
  (`GenError.ZeroToNegative`). For a non-empty alphabet it yields a float,
  and `itertools.product(..., repeat=n)` then raises `ValueError`
  (`GenError.NegativeRepeat`). A non-empty prefix that is too long raises
  `ValueError` before either (`GenError.PrefixTooLong`).
* An empty `start_char` is falsy in Python and means "no prefix", exactly like
  `None`.

## Model

| member | source | states |
|---|---|---|
| `Hashing.Md5Hash` | md5_decrypt_cpu.py:20-25 | the loop returns `md5Hex` applied `times` times to the word; `times <= 0` returns the word unchanged, `times == 1` a single digest |
| `Hashing.IterateStep` | md5_decrypt_cpu.py:22-25 | one more repetition is one more digest of the previous result: `md5_hash(w, t+1) == md5(md5_hash(w, t))` |
| `Hashing.IterateAdd` | md5_decrypt_cpu.py:22-25 | hashing `a` times and then `b` times equals hashing `a + b` times |
| `Tags.ReplaceTags` | md5_decrypt_cpu.py:12-31 | the five replacements of `TAGS` are applied in table order; text containing none of the tags, in particular text without `<`, is returned unchanged |
| `Tags.ReplaceAll` | md5_decrypt_cpu.py:30 | `str.replace` for a non-empty pattern: occurrences are found leftmost first and do not overlap, and scanning resumes after each replacement; replacing a pattern by itself changes nothing, and a replacement of the same length keeps the length |
| `Tags.ReplaceAllAbsent` | md5_decrypt_cpu.py:30 | `str.replace` leaves text unchanged when the pattern does not occur in it |
| `Tags.ReplaceAllFirstCharAbsent` | md5_decrypt_cpu.py:12-18 | a pattern whose first character (`<` for every tag) is absent from the text does not occur in it, and replacing it changes nothing |
| `Tags.ApplyTagsAbsent` | md5_decrypt_cpu.py:29-31 | a table of replacements none of whose patterns occur leaves the text unchanged |
| `Generator.Extend` | md5_decrypt_cpu.py:53-59 | one round of `itertools.product` as Python documents it (`[x + [y] for x in result for y in pool]`); it is empty exactly when there are no tuples so far or the alphabet is empty |
| `Generator.Product` | md5_decrypt_cpu.py:53-59 | `itertools.product(characters, repeat=n)`: `n` rounds starting from the single empty tuple; it is empty exactly for a positive `n` over an empty alphabet (for `n == 0` it holds the single empty candidate) |
| `Generator.ExtendAt` | md5_decrypt_cpu.py:53-59 | one round of the product puts tuple `h` extended by character `j` at position `k*h + j` (`k` the alphabet size): earlier positions vary slower |
| `Generator.ProductLength` | md5_decrypt_cpu.py:56-60 | without a prefix there are exactly `len(characters) ** length` candidates |
| `Generator.ProductAt` | md5_decrypt_cpu.py:59-60 | candidate `i` is the mixed-radix base-`len(characters)` expansion of `i`, rightmost position fastest |
| `Generator.Unrank` | md5_decrypt_cpu.py:59-60 | the decoding of an index has exactly `length` characters |
| `Generator.UnrankOverAlphabet` | md5_decrypt_cpu.py:59-60 | every character of a decoded candidate belongs to the alphabet |
| `Generator.UnrankInjective` | md5_decrypt_cpu.py:59-60 | over an alphabet without repeats, different indices decode to different candidates |
| `Generator.ProductDistinct` | md5_decrypt_cpu.py:56-60 | over an alphabet without repeats the candidates are pairwise distinct; duplicates come only from a repeated character |
| `Generator.ProductComplete` | md5_decrypt_cpu.py:56-60 | every string of length `length` over the alphabet is a candidate |
| `Generator.ProductExample` | md5_decrypt_cpu.py:59-60 | alphabet "ab", length 2 gives `["aa","ab","ba","bb"]` |
| `Generator.CombinationsShape` | md5_decrypt_cpu.py:44-60 | on success there are `len(characters) ** (length - len(start_char))` candidates; each has length `length`, starts with the prefix and has only alphabet characters after it; candidate `i` is the prefix plus the decoding of `i`; a non-empty prefix is shorter than `length` |
| `Generator.CombinationsComplete` | md5_decrypt_cpu.py:45-54 | every string made of the prefix and `length - len(start_char)` alphabet characters is a candidate |
| `Generator.Collect` | md5_decrypt_cpu.py:51-54 | the append loop yields one entry per tuple, in order, each the prefix followed by the joined tuple |
| `Generator.GenerateCombinations` | md5_decrypt_cpu.py:33-68 | returns `Combinations`; raises `PrefixTooLong` exactly for a non-empty prefix not shorter than `length`, `ZeroToNegative` (`ZeroDivisionError` from `0 ** length`) exactly for no prefix, a negative length and an empty alphabet, and `NegativeRepeat` exactly for no prefix, a negative length and a non-empty alphabet; `Some("")` behaves as `None` |
| `Matcher.FirstRoundSpec` | md5_decrypt_cpu.py:82-83 | the inner loop finds the smallest count in range that hits, or reports that none in range hits |
| `Matcher.ScanFound` | md5_decrypt_cpu.py:81-88 | a reported word is the first candidate, in sequence order, that hits for some count in `1..max_collisions`; the reported count is the smallest that hits for it; the digest is `md5_hash(word, 1)` |
| `Matcher.ScanExhausted` | md5_decrypt_cpu.py:81-94 | the scan ends without a word exactly when no (candidate, count) pair with count in `1..max_collisions` hits |
| `Matcher.NoCountsNoMatch` | md5_decrypt_cpu.py:82 | with `max_collisions < 1` nothing ever matches |
| `Matcher.HitIsReported` | md5_decrypt_cpu.py:81-88 | if some candidate hits for some count in range, the scan reports a word |
| `Matcher.FindWordFromCombinations` | md5_decrypt_cpu.py:70-94 | the nested loops with early exit return exactly `Scan` of the candidates |
| `Driver.IsSpace` | md5_decrypt_cpu.py:111 | the characters Python's `str.isspace` accepts, which `str.strip()` removes: U+0009..U+000D, U+001C..U+001F, U+0020, U+0085, U+00A0, U+1680, U+2000..U+200A, U+2028, U+2029, U+202F, U+205F and U+3000 |
| `Driver.LeadingSpace` | md5_decrypt_cpu.py:111 | counts the whitespace at the start of a line: all counted characters are whitespace and the next one is not |
| `Driver.TrailingSpace` | md5_decrypt_cpu.py:111 | the same at the end of a line |
| `Driver.Strip` | md5_decrypt_cpu.py:111 | `line.strip()` is a contiguous part of the line that neither starts nor ends with whitespace; everything cut off on either side is whitespace; it is empty exactly for an all-whitespace line |
| `Driver.StripLines` | md5_decrypt_cpu.py:111 | the list comprehension `[line.strip() for line in file]`: one stripped entry per line, in file order |
| `Driver.StripIdempotent` | md5_decrypt_cpu.py:111 | stripping twice is stripping once |
| `Driver.StripLineTerminator` | md5_decrypt_cpu.py:111 | a line made of a word that neither starts nor ends with whitespace, plus its terminator, strips to the word |
| `Driver.StripLinesExample` | md5_decrypt_cpu.py:111 | the lines "foo\n", "bar\n" give the candidates "foo", "bar" |
| `Driver.FindWordAsWritten` | md5_decrypt_cpu.py:108-115 | `find_word` as written: a missing file prints and returns, and a file that opens reaches the three-argument call and raises `TypeError`; without a word list it runs `BruteForce` |
| `Driver.WordListDefect` | md5_decrypt_cpu.py:108-115 | as written, every readable word list ends in `TypeError`; as intended, the run ends in a verdict that is exhaustion exactly when no stripped line hits for any count in range |
| `Driver.BruteForce` | md5_decrypt_cpu.py:117-122 | the loop over `range(min_length, max_length + 1)`: each length is generated; a generator error ends the run, a hit ends it (the source exits), and an exhausted length moves on to the next |
| `Driver.BruteForceExhausted` | md5_decrypt_cpu.py:117-122 | brute force ends in exhaustion exactly when every length in `min_length..max_length` generates without error and its scan is exhausted (at once for an empty range) |
| `Driver.FoundShape` | md5_decrypt_cpu.py:119-122 | a hit among one length's candidates has that length and starts with the prefix |
| `Driver.BruteForceFound` | md5_decrypt_cpu.py:117-122 | a hit comes from the first length, in increasing order, whose scan finds a word; all smaller lengths were exhausted |
| `Driver.PrefixTooLongFirst` | md5_decrypt_cpu.py:45-47 | a non-empty prefix too long for `min_length` raises `ValueError` before any search |
| `Driver.EmptyAlphabetNegativeLength` | md5_decrypt_cpu.py:55-59 | with no prefix, an empty alphabet and a negative `min_length`, the first length raises `ZeroDivisionError` from `0 ** min_length` before any scan |
| `Driver.FindWord` | md5_decrypt_cpu.py:96-122 | the driver returns `FindWordSpec`, with the word-list call corrected, and never the `TypeError` of the code as written |
| `UniqueChars.SameCharacters` | phrase_to_unique_symb.py:5-8 | the output has exactly the characters of the input |
| `UniqueChars.NoRepeats` | phrase_to_unique_symb.py:5-8 | the output contains no character twice |
| `UniqueChars.NoLonger` | phrase_to_unique_symb.py:5-10 | the output is no longer than the input |
| `UniqueChars.PositionsIncrease` | phrase_to_unique_symb.py:5-10 | the kept positions lie inside the input and strictly increase: the output is a subsequence of the input |
| `UniqueChars.KeptAreFirst` | phrase_to_unique_symb.py:5-10 | output character `k` is the input character at kept position `k`, and that position is the first occurrence of its character |
| `UniqueChars.FirstIsKept` | phrase_to_unique_symb.py:5-10 | every first occurrence is kept; with the two rows above, characters appear in the order of their first occurrence |
| `UniqueChars.Step` | phrase_to_unique_symb.py:5-8 | one more input character is appended exactly when it has not occurred before |
| `UniqueChars.HelloWorld` | phrase_to_unique_symb.py:12-15 | 'Hello World!' gives 'Helo Wrd!' |
| `UniqueChars.UniqueCharsGenerator` | phrase_to_unique_symb.py:1-10 | the loop, with the invariant that `seen_chars` is the set of `unique_chars`, returns `FirstOccurrences(phrase)`: no repeats, the input's character set, no longer than the input |

## Left out

- MD5 (RFC 1321) and the UTF-8 encoding before it are a foreign library call. They are the parameter `md5Hex`, and no concrete digest is proved.
- Progress bars (`tqdm`), timing (`time.time()`), all `print` output and `sys.exit` are left out. The elapsed time is not part of `Match.Found`. The choice between the two "not found" messages, which depends only on `min_length == max_length`, is print-only. So the matcher takes neither `min_length` nor `max_length`.
- The `KeyboardInterrupt` branch of the generator is left out: it prompts with `input()` and may exit the process. Its "continue" answer would return a prefix of the enumeration.
- NumPy arrays (`np.array(..., dtype=object)`) are plain sequences of strings.
- `itertools.product` is modelled by its documented result (`Generator.Product`), materialised eagerly as the source does. Its lazy iteration is not modelled.
- Opening and reading the word-list file are left out. `Driver.WordList` gives what the open produced: no list, a missing file, or the file's lines with their terminators.
- The command line is left out: `argparse`, the regex hint printed for a bare alphabet, range parsing with Python's `int()`, and the final `input()`.
- Python strings may hold lone surrogates. Dafny's `char` cannot, so such strings are not modelled.
- Tags.ReplaceAll: requires a non-empty pattern, because every `TAGS` key is non-empty. Python's behaviour for an empty pattern is not modelled.

## Findings

| source | as written | input that shows it | evidently intended | confidence | as-written member | corrected member |
|---|---|---|---|---|---|---|
| md5_decrypt_cpu.py:115 | the word-list branch calls `find_word_from_combinations(target_hash, np.array(combinations), max_collisions)`, which passes three arguments to a function of five parameters (md5_decrypt_cpu.py:70); Python raises `TypeError` before any search | any `word_list_file` that opens, e.g. a file with lines "foo\n", "bar\n" | call the matcher with the target, the two length bounds, the stripped lines and `max_collisions`, and scan the lines in order | high, not executed | `Driver.FindWordAsWritten`, `Driver.WordListDefect` | `Driver.FindWord` |
