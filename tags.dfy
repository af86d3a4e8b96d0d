/**
 * Alphabet shorthand (`TAGS` and `replace_tags` in md5_decrypt_cpu.py).
 *
 * The table maps five symbolic tags to the character ranges of Python's
 * `string` module; `replace_tags` performs `str.replace` for each entry, in
 * the table's insertion order.
 */
module Tags {

  const Digits: string := "0123456789"
  const Punctuation: string := "!\"#$%&'()*+,-./:;<=>?@[\\]^_`{|}~"
  const AsciiLowercase: string := "abcdefghijklmnopqrstuvwxyz"
  const AsciiUppercase: string := "ABCDEFGHIJKLMNOPQRSTUVWXYZ"

  /** The `TAGS` dictionary, in insertion order (the order `items()` yields). */
  const TagTable: seq<(string, string)> := [
    ("<space>", " "),
    ("<digits>", Digits),
    ("<symbols>", Punctuation),
    ("<englishlower>", AsciiLowercase),
    ("<englishupper>", AsciiUppercase)
  ]

  /** `pat` occurs somewhere in `s` as a contiguous block. */
  predicate Occurs(pat: string, s: string)
    decreases |s|
  {
    pat <= s || (s != [] && Occurs(pat, s[1..]))
  }

  /** Python's `s.replace(pat, rep)` for a non-empty `pat`: scan left to
      right, replace each leftmost occurrence and resume after it. */
  function ReplaceAll(s: string, pat: string, rep: string): (r: string)
    requires pat != []
    ensures pat == rep ==> r == s
    ensures |rep| == |pat| ==> |r| == |s|
    decreases |s|
  {
    if s == [] then []
    else if pat <= s then
      assert s == pat + s[|pat|..];
      rep + ReplaceAll(s[|pat|..], pat, rep)
    else [s[0]] + ReplaceAll(s[1..], pat, rep)
  }

  /** Text in which `pat` does not occur is returned unchanged. */
  lemma {:induction false} ReplaceAllAbsent(s: string, pat: string, rep: string)
    requires pat != []
    requires !Occurs(pat, s)
    ensures ReplaceAll(s, pat, rep) == s
    decreases |s|
  {
    if s != [] {
      ReplaceAllAbsent(s[1..], pat, rep);
    }
  }

  /** Every tag starts with `<`: text without that character contains no
      occurrence of a pattern starting with it and is left as it is. */
  lemma {:induction false} ReplaceAllFirstCharAbsent(s: string, pat: string, rep: string)
    requires pat != []
    requires pat[0] !in s
    ensures !Occurs(pat, s)
    ensures ReplaceAll(s, pat, rep) == s
    decreases |s|
  {
    if s != [] {
      assert s[0] in s;
      assert forall c :: c in s[1..] ==> c in s;
      ReplaceAllFirstCharAbsent(s[1..], pat, rep);
    }
  }

  /** The entries of `table` applied to `s` one after the other, first entry first. */
  function ApplyTags(s: string, table: seq<(string, string)>): string
    requires forall k :: 0 <= k < |table| ==> table[k].0 != []
    decreases |table|
  {
    if table == [] then s
    else ReplaceAll(ApplyTags(s, table[..|table| - 1]), table[|table| - 1].0, table[|table| - 1].1)
  }

  /** `replace_tags(text)`: a loop over the table that reassigns `text`. */
  method ReplaceTags(text: string) returns (r: string)
    ensures r == ReplaceAll(ReplaceAll(ReplaceAll(ReplaceAll(ReplaceAll(text,
                   "<space>", " "), "<digits>", Digits), "<symbols>", Punctuation),
                   "<englishlower>", AsciiLowercase), "<englishupper>", AsciiUppercase)
    ensures (forall k :: 0 <= k < |TagTable| ==> !Occurs(TagTable[k].0, text)) ==> r == text
    ensures '<' !in text ==> r == text
  {
    r := text;
    for k := 0 to |TagTable|
      invariant r == ApplyTags(text, TagTable[..k])
    {
      assert TagTable[..k + 1][..k] == TagTable[..k];
      r := ReplaceAll(r, TagTable[k].0, TagTable[k].1);
    }
    assert TagTable[..|TagTable|] == TagTable;
    ghost var t1 := ReplaceAll(text, "<space>", " ");
    ghost var t2 := ReplaceAll(t1, "<digits>", Digits);
    ghost var t3 := ReplaceAll(t2, "<symbols>", Punctuation);
    ghost var t4 := ReplaceAll(t3, "<englishlower>", AsciiLowercase);
    assert TagTable[..1][..0] == [];
    assert ApplyTags(text, TagTable[..1]) == t1;
    assert TagTable[..2][..1] == TagTable[..1];
    assert ApplyTags(text, TagTable[..2]) == t2;
    assert TagTable[..3][..2] == TagTable[..2];
    assert ApplyTags(text, TagTable[..3]) == t3;
    assert TagTable[..4][..3] == TagTable[..3];
    assert ApplyTags(text, TagTable[..4]) == t4;
    assert TagTable[..5][..4] == TagTable[..4];
    if '<' !in text {
      forall k | 0 <= k < |TagTable|
        ensures !Occurs(TagTable[k].0, text)
      {
        assert TagTable[k].0[0] == '<';
        ReplaceAllFirstCharAbsent(text, TagTable[k].0, TagTable[k].1);
      }
    }
    if forall k :: 0 <= k < |TagTable| ==> !Occurs(TagTable[k].0, text) {
      ApplyTagsAbsent(text, TagTable);
    }
  }

  /** Text containing none of the tags of a table is left unchanged by it. */
  lemma {:induction false} ApplyTagsAbsent(s: string, table: seq<(string, string)>)
    requires forall k :: 0 <= k < |table| ==> table[k].0 != []
    requires forall k :: 0 <= k < |table| ==> !Occurs(table[k].0, s)
    ensures ApplyTags(s, table) == s
    decreases |table|
  {
    if table != [] {
      ApplyTagsAbsent(s, table[..|table| - 1]);
      ReplaceAllAbsent(s, table[|table| - 1].0, table[|table| - 1].1);
    }
  }
}
