/**
 * Candidate generation (`generate_combinations_gpu` in md5_decrypt_cpu.py).
 *
 * `Product` is the Cartesian power of the alphabet in `itertools.product`
 * order, built the way Python documents that iterator: starting from the one
 * empty tuple, each round extends every tuple so far with every character
 * of the alphabet in turn. `Unrank` is an independent reference: the i-th
 * candidate is the base-|alphabet| expansion of i, least significant digit
 * last (the rightmost position varies fastest).
 */
module Generator {
  import opened Options

  /** The errors `generate_combinations_gpu` can raise. */
  datatype GenError =
    | PrefixTooLong     // `ValueError`: a non-empty `start_char` at least as long as `length`
    | ZeroToNegative    // `ZeroDivisionError`: `len(characters) ** length` is `0 ** n` with n < 0
    | NegativeRepeat    // `ValueError`: `itertools.product(..., repeat=n)` with n < 0

  function Pow(b: nat, e: nat): nat
    decreases e
  {
    if e == 0 then 1 else b * Pow(b, e - 1)
  }

  /** One round of the product: `[x + [y] for x in heads for y in alphabet]`. */
  function Extend(heads: seq<string>, alphabet: string): (r: seq<string>)
    ensures r == [] <==> heads == [] || alphabet == []
    decreases |heads|
  {
    if heads == [] then []
    else seq(|alphabet|, j requires 0 <= j < |alphabet| => heads[0] + [alphabet[j]])
         + Extend(heads[1..], alphabet)
  }

  /** `itertools.product(alphabet, repeat=n)`, each tuple joined into a string. */
  function Product(alphabet: string, n: nat): (r: seq<string>)
    ensures r == [] <==> n > 0 && alphabet == []
    decreases n
  {
    if n == 0 then [""] else Extend(Product(alphabet, n - 1), alphabet)
  }

  /** Each candidate prefixed with `prefix` (`start_char + ''.join(comb)`). */
  function Prefixed(prefix: string, tails: seq<string>): (r: seq<string>)
    ensures |r| == |tails|
  {
    seq(|tails|, j requires 0 <= j < |tails| => prefix + tails[j])
  }

  lemma DivBound(i: nat, k: nat, p: nat)
    requires k > 0 && i < k * p
    ensures 0 <= i / k < p && 0 <= i % k < k
  {
    assert k * (i / k) <= i;
  }

  lemma DivMod(i: nat, k: nat)
    requires k > 0
    ensures i == k * (i / k) + i % k && 0 <= i / k && 0 <= i % k < k
  {
  }

  /** Quotient and remainder determine the number. */
  lemma DivModUnique(i: nat, i': nat, k: nat)
    requires k > 0 && i / k == i' / k && i % k == i' % k
    ensures i == i'
  {
    assert i == k * (i / k) + i % k;
    assert i' == k * (i' / k) + i' % k;
  }

  lemma BlockIndex(h: nat, k: nat, j: nat, n: nat)
    requires h < n && j < k
    ensures k * h + j < k * n
    ensures h > 0 ==> k * h + j == k + (k * (h - 1) + j)
  {
    assert k * h <= k * (n - 1);
    assert k * (n - 1) + k == k * n;
  }

  /** The mixed-radix decoding of index `i` into a string of length `n`. */
  function Unrank(alphabet: string, n: nat, i: nat): (s: string)
    requires i < Pow(|alphabet|, n)
    ensures |s| == n
    decreases n
  {
    if n == 0 then ""
    else
      DivBound(i, |alphabet|, Pow(|alphabet|, n - 1));
      Unrank(alphabet, n - 1, i / |alphabet|) + [alphabet[i % |alphabet|]]
  }

  lemma {:induction false} ExtendLength(heads: seq<string>, alphabet: string)
    ensures |Extend(heads, alphabet)| == |alphabet| * |heads|
    decreases |heads|
  {
    if heads != [] {
      ExtendLength(heads[1..], alphabet);
      assert |alphabet| * |heads| == |alphabet| + |alphabet| * (|heads| - 1);
    }
  }

  /** Position `|alphabet| * h + j` of a round holds tuple `h` extended by character `j`. */
  lemma {:induction false} ExtendAt(heads: seq<string>, alphabet: string, h: nat, j: nat)
    requires h < |heads| && j < |alphabet|
    ensures |alphabet| * h + j < |Extend(heads, alphabet)|
    ensures Extend(heads, alphabet)[|alphabet| * h + j] == heads[h] + [alphabet[j]]
    decreases h
  {
    var k := |alphabet|;
    ExtendLength(heads, alphabet);
    BlockIndex(h, k, j, |heads|);
    if h > 0 {
      ExtendAt(heads[1..], alphabet, h - 1, j);
      var block := seq(k, j requires 0 <= j < k => heads[0] + [alphabet[j]]);
      assert Extend(heads, alphabet) == block + Extend(heads[1..], alphabet);
      assert k * h + j == k + (k * (h - 1) + j);
    }
  }

  /** With no prefix there are exactly |alphabet|^n candidates. */
  lemma {:induction false} ProductLength(alphabet: string, n: nat)
    ensures |Product(alphabet, n)| == Pow(|alphabet|, n)
    decreases n
  {
    if n > 0 {
      ProductLength(alphabet, n - 1);
      ExtendLength(Product(alphabet, n - 1), alphabet);
    }
  }

  /** The `itertools.product` order: candidate `i` is the base-|alphabet| expansion of `i`. */
  lemma {:induction false} ProductAt(alphabet: string, n: nat, i: nat)
    requires i < Pow(|alphabet|, n)
    ensures i < |Product(alphabet, n)|
    ensures Product(alphabet, n)[i] == Unrank(alphabet, n, i)
    decreases n
  {
    ProductLength(alphabet, n);
    if n > 0 {
      var k := |alphabet|;
      var p := Pow(k, n - 1);
      DivBound(i, k, p);
      DivMod(i, k);
      var q, j := i / k, i % k;
      ProductLength(alphabet, n - 1);
      ProductAt(alphabet, n - 1, q);
      ExtendAt(Product(alphabet, n - 1), alphabet, q, j);
    }
  }

  /** Every string of length `n` over the alphabet is among the candidates. */
  lemma {:induction false} ProductComplete(alphabet: string, n: nat, s: string)
    requires |s| == n
    requires forall c :: c in s ==> c in alphabet
    ensures s in Product(alphabet, n)
    decreases n
  {
    if n > 0 {
      var init, last := s[..n - 1], s[n - 1];
      assert s == init + [last];
      assert forall c :: c in init ==> c in s;
      ProductComplete(alphabet, n - 1, init);
      var h :| 0 <= h < |Product(alphabet, n - 1)| && Product(alphabet, n - 1)[h] == init;
      assert last in s;
      var j :| 0 <= j < |alphabet| && alphabet[j] == last;
      ExtendAt(Product(alphabet, n - 1), alphabet, h, j);
    }
  }

  predicate Distinct(s: string)
  {
    forall a, b :: 0 <= a < b < |s| ==> s[a] != s[b]
  }

  /** Equal decodings have equal last characters. */
  lemma UnrankEqualLast(alphabet: string, n: nat, i: nat, i': nat)
    requires 0 < n && i < Pow(|alphabet|, n) && i' < Pow(|alphabet|, n)
    requires Unrank(alphabet, n, i) == Unrank(alphabet, n, i')
    ensures |alphabet| > 0
    ensures 0 <= i % |alphabet| < |alphabet| && 0 <= i' % |alphabet| < |alphabet|
    ensures alphabet[i % |alphabet|] == alphabet[i' % |alphabet|]
  {
    var k := |alphabet|;
    DivBound(i, k, Pow(k, n - 1));
    DivBound(i', k, Pow(k, n - 1));
    var u := Unrank(alphabet, n, i);
    assert u[n - 1] == alphabet[i % k];
    assert u[n - 1] == alphabet[i' % k];
  }

  /** Equal decodings come from quotients with equal decodings. */
  lemma UnrankEqualInit(alphabet: string, n: nat, i: nat, i': nat)
    requires 0 < n && i < Pow(|alphabet|, n) && i' < Pow(|alphabet|, n)
    requires Unrank(alphabet, n, i) == Unrank(alphabet, n, i')
    ensures |alphabet| > 0
    ensures 0 <= i / |alphabet| < Pow(|alphabet|, n - 1) && 0 <= i' / |alphabet| < Pow(|alphabet|, n - 1)
    ensures Unrank(alphabet, n - 1, i / |alphabet|) == Unrank(alphabet, n - 1, i' / |alphabet|)
  {
    var k := |alphabet|;
    DivBound(i, k, Pow(k, n - 1));
    DivBound(i', k, Pow(k, n - 1));
    var u := Unrank(alphabet, n, i);
    assert u[..n - 1] == Unrank(alphabet, n - 1, i / k);
    assert u[..n - 1] == Unrank(alphabet, n - 1, i' / k);
  }

  /** Every decoded character comes from the alphabet. */
  lemma {:induction false} UnrankOverAlphabet(alphabet: string, n: nat, i: nat)
    requires i < Pow(|alphabet|, n)
    ensures forall c :: c in Unrank(alphabet, n, i) ==> c in alphabet
    decreases n
  {
    if n > 0 {
      var k := |alphabet|;
      DivBound(i, k, Pow(k, n - 1));
      UnrankOverAlphabet(alphabet, n - 1, i / k);
      assert Unrank(alphabet, n, i) == Unrank(alphabet, n - 1, i / k) + [alphabet[i % k]];
    }
  }

  lemma DistinctAt(s: string, a: nat, b: nat)
    requires Distinct(s) && a < |s| && b < |s| && s[a] == s[b]
    ensures a == b
  {
  }

  /** Over an alphabet without repeated characters, different indices decode to different strings. */
  lemma {:induction false} UnrankInjective(alphabet: string, n: nat, i: nat, i': nat)
    requires Distinct(alphabet)
    requires i < Pow(|alphabet|, n) && i' < Pow(|alphabet|, n)
    requires Unrank(alphabet, n, i) == Unrank(alphabet, n, i')
    ensures i == i'
    decreases n
  {
    if n > 0 {
      var k := |alphabet|;
      UnrankEqualLast(alphabet, n, i, i');
      UnrankEqualInit(alphabet, n, i, i');
      DistinctAt(alphabet, i % k, i' % k);
      UnrankInjective(alphabet, n - 1, i / k, i' / k);
      DivModUnique(i, i', k);
    }
  }

  /** Duplicates among the candidates arise only from duplicates in the alphabet. */
  lemma ProductDistinct(alphabet: string, n: nat)
    requires Distinct(alphabet)
    ensures forall a, b :: 0 <= a < b < |Product(alphabet, n)| ==>
              Product(alphabet, n)[a] != Product(alphabet, n)[b]
  {
    ProductLength(alphabet, n);
    forall a, b | 0 <= a < b < |Product(alphabet, n)|
      ensures Product(alphabet, n)[a] != Product(alphabet, n)[b]
    {
      ProductAt(alphabet, n, a);
      ProductAt(alphabet, n, b);
      if Unrank(alphabet, n, a) == Unrank(alphabet, n, b) {
        UnrankInjective(alphabet, n, a, b);
      }
    }
  }

  /** Alphabet "ab", length 2: the order of `itertools.product`. */
  lemma ProductExample()
    ensures Product("ab", 2) == ["aa", "ab", "ba", "bb"]
  {
    var p := Product("ab", 2);
    ProductLength("ab", 2);
    forall i | 0 <= i < 4
      ensures p[i] == ["aa", "ab", "ba", "bb"][i]
    {
      ProductAt("ab", 2, i);
    }
  }

  /** The prefix `start_char` stands for: `None` and the empty string are both
      falsy in Python and mean "no prefix". */
  function PrefixOf(startChar: Option<string>): string
  {
    if startChar.Some? then startChar.value else ""
  }

  /** What `generate_combinations_gpu(length, characters, start_char)` returns or raises. */
  function Combinations(length: int, characters: string, startChar: Option<string>): Result<seq<string>, GenError>
  {
    var prefix := PrefixOf(startChar);
    if prefix != "" then
      if |prefix| >= length then Failure(PrefixTooLong)
      else Success(Prefixed(prefix, Product(characters, length - |prefix|)))
    else if length < 0 then
      if |characters| == 0 then Failure(ZeroToNegative) else Failure(NegativeRepeat)
    else Success(Product(characters, length))
  }

  /** The shape of every candidate: count, length, prefix, alphabet and position. */
  lemma CombinationsShape(length: int, characters: string, startChar: Option<string>)
    requires Combinations(length, characters, startChar).Success?
    ensures var prefix, cs := PrefixOf(startChar), Combinations(length, characters, startChar).value;
      && 0 <= |prefix| <= length
      && (prefix != "" ==> |prefix| < length)
      && |cs| == Pow(|characters|, length - |prefix|)
      && forall i :: 0 <= i < |cs| ==>
           && |cs[i]| == length
           && cs[i] == prefix + Unrank(characters, length - |prefix|, i)
           && forall c :: c in cs[i][|prefix|..] ==> c in characters
  {
    var prefix, cs := PrefixOf(startChar), Combinations(length, characters, startChar).value;
    var n := length - |prefix|;
    var ts := Product(characters, n);
    ProductLength(characters, n);
    assert cs == Prefixed(prefix, ts) by {
      if prefix == "" {
        assert forall j :: 0 <= j < |ts| ==> prefix + ts[j] == ts[j];
      }
    }
    forall i | 0 <= i < |cs|
      ensures |cs[i]| == length
      ensures cs[i] == prefix + Unrank(characters, n, i)
      ensures forall c :: c in cs[i][|prefix|..] ==> c in characters
    {
      ProductAt(characters, n, i);
      UnrankOverAlphabet(characters, n, i);
      assert cs[i][|prefix|..] == Unrank(characters, n, i);
    }
  }

  /** Every string made of the prefix and `length - |prefix|` alphabet characters is a candidate. */
  lemma CombinationsComplete(length: int, characters: string, startChar: Option<string>, tail: string)
    requires Combinations(length, characters, startChar).Success?
    requires |PrefixOf(startChar)| + |tail| == length
    requires forall c :: c in tail ==> c in characters
    ensures PrefixOf(startChar) + tail in Combinations(length, characters, startChar).value
  {
    var prefix := PrefixOf(startChar);
    ProductComplete(characters, |tail|, tail);
    var ts := Product(characters, |tail|);
    var j :| 0 <= j < |ts| && ts[j] == tail;
    if prefix == "" {
      assert prefix + tail == tail;
    } else {
      assert Prefixed(prefix, ts)[j] == prefix + tail;
    }
  }

  /** `generate_combinations_gpu`: the prefix check, then a loop that appends
      one joined tuple of `itertools.product` after another. */
  method GenerateCombinations(length: int, characters: string, startChar: Option<string>)
    returns (r: Result<seq<string>, GenError>)
    ensures r == Combinations(length, characters, startChar)
    ensures r == Failure(PrefixTooLong) <==> PrefixOf(startChar) != "" && |PrefixOf(startChar)| >= length
    ensures r == Failure(ZeroToNegative) <==> PrefixOf(startChar) == "" && length < 0 && |characters| == 0
    ensures r == Failure(NegativeRepeat) <==> PrefixOf(startChar) == "" && length < 0 && |characters| > 0
    ensures startChar == Some("") ==> r == Combinations(length, characters, None)
  {
    if startChar.Some? && startChar.value != "" {
      var prefix := startChar.value;
      if |prefix| >= length {
        return Failure(PrefixTooLong);
      }
      var tuples := Product(characters, length - |prefix|);
      var combinations := Collect(prefix, tuples);
      assert combinations == Prefixed(prefix, tuples);
      return Success(combinations);
    } else {
      if length < 0 {
        // `len(characters) ** length` is evaluated before `product` is reached
        if |characters| == 0 {
          return Failure(ZeroToNegative);
        }
        return Failure(NegativeRepeat);
      }
      var tuples := Product(characters, length);
      var combinations := Collect("", tuples);
      assert forall j :: 0 <= j < |tuples| ==> "" + tuples[j] == tuples[j];
      assert combinations == tuples;
      return Success(combinations);
    }
  }

  /** The append loop: `combinations.append(prefix + ''.join(comb))` for each tuple in order. */
  method Collect(prefix: string, tuples: seq<string>) returns (combinations: seq<string>)
    ensures |combinations| == |tuples|
    ensures forall j :: 0 <= j < |tuples| ==> combinations[j] == prefix + tuples[j]
  {
    combinations := [];
    for k := 0 to |tuples|
      invariant |combinations| == k
      invariant forall j :: 0 <= j < k ==> combinations[j] == prefix + tuples[j]
    {
      combinations := combinations + [prefix + tuples[k]];
    }
  }
}
