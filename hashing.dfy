/**
 * Iterated hashing (`md5_hash` in md5_decrypt_cpu.py).
 *
 * The digest itself (MD5 of the UTF-8 encoding, as a lower-case hex string)
 * is computed by a library the model cannot see, so every member takes it as
 * a parameter `md5Hex`. What is verified is the iteration structure.
 */
module Hashing {

  /** `md5Hex` applied `times` times to `word`, outermost application last;
      the loop of `md5_hash` reassigns its accumulator in exactly this order. */
  function Iterate(md5Hex: string -> string, word: string, times: nat): string
    decreases times
  {
    if times == 0 then word else Iterate(md5Hex, md5Hex(word), times - 1)
  }

  /** One more repetition is one more digest of the previous result. */
  lemma {:induction false} IterateStep(md5Hex: string -> string, word: string, times: nat)
    ensures Iterate(md5Hex, word, times + 1) == md5Hex(Iterate(md5Hex, word, times))
    decreases times
  {
    if times > 0 {
      IterateStep(md5Hex, md5Hex(word), times - 1);
    }
  }

  /** Repetitions compose: hashing `a` times and then `b` times is hashing `a + b` times. */
  lemma {:induction false} IterateAdd(md5Hex: string -> string, word: string, a: nat, b: nat)
    ensures Iterate(md5Hex, word, a + b) == Iterate(md5Hex, Iterate(md5Hex, word, a), b)
    decreases a
  {
    if a > 0 {
      IterateAdd(md5Hex, md5Hex(word), a - 1, b);
    }
  }

  /** `md5_hash(word, times)`: a loop over `range(times)`, which is empty for
      `times <= 0`, so a non-positive count returns the word itself. */
  method Md5Hash(md5Hex: string -> string, word: string, times: int) returns (hash: string)
    ensures times <= 0 ==> hash == word
    ensures times == 1 ==> hash == md5Hex(word)
    ensures times > 0 ==> hash == Iterate(md5Hex, word, times)
  {
    ghost var n: nat := if times < 0 then 0 else times;
    hash := word;
    var i := 0;
    while i < times
      invariant 0 <= i <= n
      invariant Iterate(md5Hex, word, n) == Iterate(md5Hex, hash, n - i)
    {
      hash := md5Hex(hash);
      i := i + 1;
    }
  }
}
