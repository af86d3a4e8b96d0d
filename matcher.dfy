/**
 * The search (`find_word_from_combinations` in md5_decrypt_cpu.py).
 *
 * The source prints the hit and ends the process with `sys.exit(0)`, or
 * prints a "not found" line and returns; the model returns a `Match`.
 */
module Matcher {
  import opened Options
  import opened Hashing

  /** The outcome of one scan: the hit, or exhaustion of every (word, r) pair. */
  datatype Match =
    | Found(word: string, collisions: nat, digest: string)  // digest is `md5_hash(word, 1)`
    | Exhausted

  /** `r` repetitions of the digest turn `word` into the target. */
  predicate Hit(md5Hex: string -> string, target: string, word: string, r: nat)
  {
    Iterate(md5Hex, word, r) == target
  }

  /** The smallest repetition count in `from..maxCollisions` that hits, if any. */
  function FirstRound(md5Hex: string -> string, target: string, word: string, from: nat, maxCollisions: int): Option<nat>
    decreases maxCollisions - from
  {
    if from > maxCollisions then None
    else if Hit(md5Hex, target, word, from) then Some(from)
    else FirstRound(md5Hex, target, word, from + 1, maxCollisions)
  }

  /** Words in order; for each, repetition counts 1..maxCollisions in order; the first hit wins. */
  function Scan(md5Hex: string -> string, target: string, words: seq<string>, maxCollisions: int): Match
    decreases |words|
  {
    if words == [] then Exhausted
    else match FirstRound(md5Hex, target, words[0], 1, maxCollisions)
      case Some(r) => Found(words[0], r, Iterate(md5Hex, words[0], 1))
      case None => Scan(md5Hex, target, words[1..], maxCollisions)
  }

  lemma {:induction false} FirstRoundSpec(md5Hex: string -> string, target: string, word: string, from: nat, maxCollisions: int)
    ensures FirstRound(md5Hex, target, word, from, maxCollisions).Some? ==>
      var r := FirstRound(md5Hex, target, word, from, maxCollisions).value;
      && from <= r <= maxCollisions
      && Hit(md5Hex, target, word, r)
      && forall r' :: from <= r' < r ==> !Hit(md5Hex, target, word, r')
    ensures FirstRound(md5Hex, target, word, from, maxCollisions).None? ==>
      forall r' :: from <= r' <= maxCollisions ==> !Hit(md5Hex, target, word, r')
    decreases maxCollisions - from
  {
    if from <= maxCollisions && !Hit(md5Hex, target, word, from) {
      FirstRoundSpec(md5Hex, target, word, from + 1, maxCollisions);
    }
  }

  /** A reported hit is the first word, in sequence order, that hits for some
      count in 1..maxCollisions, with the smallest such count for that word,
      and its single-pass digest. */
  lemma {:induction false} ScanFound(md5Hex: string -> string, target: string, words: seq<string>, maxCollisions: int)
    requires Scan(md5Hex, target, words, maxCollisions).Found?
    ensures var m := Scan(md5Hex, target, words, maxCollisions);
      && 1 <= m.collisions <= maxCollisions
      && Hit(md5Hex, target, m.word, m.collisions)
      && (forall r :: 1 <= r < m.collisions ==> !Hit(md5Hex, target, m.word, r))
      && m.digest == Iterate(md5Hex, m.word, 1)
      && exists i :: 0 <= i < |words| && words[i] == m.word &&
           forall j, r :: 0 <= j < i && 1 <= r <= maxCollisions ==> !Hit(md5Hex, target, words[j], r)
    decreases |words|
  {
    FirstRoundSpec(md5Hex, target, words[0], 1, maxCollisions);
    if FirstRound(md5Hex, target, words[0], 1, maxCollisions).None? {
      var m := Scan(md5Hex, target, words, maxCollisions);
      ScanFound(md5Hex, target, words[1..], maxCollisions);
      var i :| 0 <= i < |words[1..]| && words[1..][i] == m.word &&
           forall j, r :: 0 <= j < i && 1 <= r <= maxCollisions ==> !Hit(md5Hex, target, words[1..][j], r);
      assert words[i + 1] == m.word;
      assert forall j, r :: 0 <= j < i + 1 && 1 <= r <= maxCollisions ==> !Hit(md5Hex, target, words[j], r) by {
        forall j, r | 0 <= j < i + 1 && 1 <= r <= maxCollisions
          ensures !Hit(md5Hex, target, words[j], r)
        {
          if j > 0 {
            assert words[j] == words[1..][j - 1];
          }
        }
      }
    } else {
      assert words[0] == Scan(md5Hex, target, words, maxCollisions).word;
    }
  }

  /** The scan is exhausted exactly when no word hits for any count in 1..maxCollisions. */
  lemma {:induction false} ScanExhausted(md5Hex: string -> string, target: string, words: seq<string>, maxCollisions: int)
    ensures Scan(md5Hex, target, words, maxCollisions) == Exhausted <==>
      forall j, r :: 0 <= j < |words| && 1 <= r <= maxCollisions ==> !Hit(md5Hex, target, words[j], r)
    decreases |words|
  {
    if words != [] {
      FirstRoundSpec(md5Hex, target, words[0], 1, maxCollisions);
      ScanExhausted(md5Hex, target, words[1..], maxCollisions);
      assert forall j :: 1 <= j < |words| ==> words[j] == words[1..][j - 1];
    }
  }

  /** With `maxCollisions < 1` the inner range is empty and nothing ever matches. */
  lemma NoCountsNoMatch(md5Hex: string -> string, target: string, words: seq<string>, maxCollisions: int)
    requires maxCollisions < 1
    ensures Scan(md5Hex, target, words, maxCollisions) == Exhausted
  {
    ScanExhausted(md5Hex, target, words, maxCollisions);
  }

  /** A word that hits guarantees a report (not necessarily of that word). */
  lemma HitIsReported(md5Hex: string -> string, target: string, words: seq<string>, maxCollisions: int, i: nat, r: nat)
    requires i < |words| && 1 <= r <= maxCollisions
    requires Hit(md5Hex, target, words[i], r)
    ensures Scan(md5Hex, target, words, maxCollisions).Found?
  {
    ScanExhausted(md5Hex, target, words, maxCollisions);
  }

  /** `find_word_from_combinations`: candidates outer, counts `range(1, max_collisions + 1)` inner,
      leaving both loops at the first hit. */
  method FindWordFromCombinations(md5Hex: string -> string, target: string, combinations: seq<string>, maxCollisions: int)
    returns (m: Match)
    ensures m == Scan(md5Hex, target, combinations, maxCollisions)
  {
    var i := 0;
    while i < |combinations|
      invariant 0 <= i <= |combinations|
      invariant Scan(md5Hex, target, combinations, maxCollisions) == Scan(md5Hex, target, combinations[i..], maxCollisions)
    {
      var word := combinations[i];
      var numCollisions := 1;
      while numCollisions <= maxCollisions
        invariant 1 <= numCollisions
        invariant FirstRound(md5Hex, target, word, 1, maxCollisions) == FirstRound(md5Hex, target, word, numCollisions, maxCollisions)
      {
        var hash := Md5Hash(md5Hex, word, numCollisions);
        if hash == target {
          var digest := Md5Hash(md5Hex, word, 1);
          return Found(word, numCollisions, digest);
        }
        numCollisions := numCollisions + 1;
      }
      assert combinations[i..][1..] == combinations[i + 1..];
      i := i + 1;
    }
    return Exhausted;
  }
}
