/**
 * Order-preserving deduplication (`unique_chars_generator` in
 * phrase_to_unique_symb.py): keep the first occurrence of each character.
 */
module UniqueChars {

  /** The specification: position `i` of `s` is kept exactly when `s[i]` does
      not occur earlier in `s`. */
  function FirstOccurrences(s: string): string
    decreases |s|
  {
    if s == [] then []
    else
      var init, last := s[..|s| - 1], s[|s| - 1];
      FirstOccurrences(init) + (if last in init then [] else [last])
  }

  /** The positions of `s` that `FirstOccurrences` keeps. */
  function FirstPositions(s: string): seq<nat>
    decreases |s|
  {
    if s == [] then []
    else
      var init := s[..|s| - 1];
      FirstPositions(init) + (if s[|s| - 1] in init then [] else [|s| - 1])
  }

  /** The output has exactly the characters of the input. */
  lemma {:induction false} SameCharacters(s: string)
    ensures forall c :: c in FirstOccurrences(s) <==> c in s
    decreases |s|
  {
    if s != [] {
      var init, last := s[..|s| - 1], s[|s| - 1];
      SameCharacters(init);
      assert s == init + [last];
    }
  }

  /** The output contains no character twice. */
  lemma {:induction false} NoRepeats(s: string)
    ensures forall a, b :: 0 <= a < b < |FirstOccurrences(s)| ==> FirstOccurrences(s)[a] != FirstOccurrences(s)[b]
    decreases |s|
  {
    if s != [] {
      var init, last := s[..|s| - 1], s[|s| - 1];
      NoRepeats(init);
      SameCharacters(init);
    }
  }

  /** The output is no longer than the input. */
  lemma {:induction false} NoLonger(s: string)
    ensures |FirstOccurrences(s)| <= |s|
    decreases |s|
  {
    if s != [] {
      NoLonger(s[..|s| - 1]);
    }
  }

  /** The positions stay inside the input and strictly increase: the output
      is a subsequence of the input. */
  lemma {:induction false} PositionsIncrease(s: string)
    ensures forall k :: 0 <= k < |FirstPositions(s)| ==> FirstPositions(s)[k] < |s|
    ensures forall k, l :: 0 <= k < l < |FirstPositions(s)| ==> FirstPositions(s)[k] < FirstPositions(s)[l]
    decreases |s|
  {
    if s != [] {
      PositionsIncrease(s[..|s| - 1]);
    }
  }

  /** Output character `k` is the input character at position `k`, and that
      position is the first occurrence of its character. */
  lemma {:induction false} KeptAreFirst(s: string)
    ensures |FirstPositions(s)| == |FirstOccurrences(s)|
    ensures forall k :: 0 <= k < |FirstPositions(s)| ==>
      && FirstPositions(s)[k] < |s|
      && FirstOccurrences(s)[k] == s[FirstPositions(s)[k]]
      && s[FirstPositions(s)[k]] !in s[..FirstPositions(s)[k]]
    decreases |s|
  {
    if s != [] {
      var init := s[..|s| - 1];
      KeptAreFirst(init);
      PositionsIncrease(init);
      var p' := FirstPositions(init);
      forall k | 0 <= k < |p'|
        ensures s[p'[k]] == init[p'[k]] && s[..p'[k]] == init[..p'[k]]
      {
      }
    }
  }

  /** Every first occurrence of a character is kept. */
  lemma {:induction false} FirstIsKept(s: string, i: nat)
    requires i < |s| && s[i] !in s[..i]
    ensures i in FirstPositions(s)
    decreases |s|
  {
    var n := |s|;
    var init := s[..n - 1];
    if i < n - 1 {
      assert s[..i] == init[..i];
      FirstIsKept(init, i);
    } else {
      assert s[..i] == init;
    }
  }

  /** Appending one character to the input. */
  lemma Step(s: string, c: char)
    ensures FirstOccurrences(s + [c]) == FirstOccurrences(s) + (if c in s then [] else [c])
  {
    assert (s + [c])[..|s|] == s;
  }

  /** The first two characters of the example. */
  lemma HelloPrefix2()
    ensures FirstOccurrences("He") == "He"
  {
    assert FirstOccurrences("H") == "H" by {
      Step("", 'H');
      assert "" + ['H'] == "H";
      assert 'H' !in "";
    }
    assert FirstOccurrences("He") == "He" by {
      Step("H", 'e');
      assert "H" + ['e'] == "He";
      assert 'e' !in "H";
    }
  }

  /** The first four characters of the example. */
  lemma HelloPrefix4()
    ensures FirstOccurrences("Hell") == "Hel"
  {
    HelloPrefix2();
    assert FirstOccurrences("Hel") == "Hel" by {
      Step("He", 'l');
      assert "He" + ['l'] == "Hel";
      assert 'l' !in "He";
    }
    assert FirstOccurrences("Hell") == "Hel" by {
      Step("Hel", 'l');
      assert "Hel" + ['l'] == "Hell";
      assert "Hel"[2] == 'l';
      assert "Hel" + [] == "Hel";
    }
  }

  /** The first six characters of the example. */
  lemma HelloPrefix6()
    ensures FirstOccurrences("Hello ") == "Helo "
  {
    HelloPrefix4();
    assert FirstOccurrences("Hello") == "Helo" by {
      Step("Hell", 'o');
      assert "Hell" + ['o'] == "Hello";
      assert 'o' !in "Hell";
      assert "Hel" + ['o'] == "Helo";
    }
    assert FirstOccurrences("Hello ") == "Helo " by {
      Step("Hello", ' ');
      assert "Hello" + [' '] == "Hello ";
      assert ' ' !in "Hello";
      assert "Helo" + [' '] == "Helo ";
    }
  }

  /** The first eight characters of the example. */
  lemma HelloPrefix8()
    ensures FirstOccurrences("Hello Wo") == "Helo W"
  {
    HelloPrefix6();
    assert FirstOccurrences("Hello W") == "Helo W" by {
      Step("Hello ", 'W');
      assert "Hello " + ['W'] == "Hello W";
      assert 'W' !in "Hello ";
      assert "Helo " + ['W'] == "Helo W";
    }
    assert FirstOccurrences("Hello Wo") == "Helo W" by {
      Step("Hello W", 'o');
      assert "Hello W" + ['o'] == "Hello Wo";
      assert "Hello W"[4] == 'o';
      assert "Helo W" + [] == "Helo W";
    }
  }

  /** The first ten characters of the example. */
  lemma HelloPrefix10()
    ensures FirstOccurrences("Hello Worl") == "Helo Wr"
  {
    HelloPrefix8();
    assert FirstOccurrences("Hello Wor") == "Helo Wr" by {
      Step("Hello Wo", 'r');
      assert "Hello Wo" + ['r'] == "Hello Wor";
      assert 'r' !in "Hello Wo";
      assert "Helo W" + ['r'] == "Helo Wr";
    }
    assert FirstOccurrences("Hello Worl") == "Helo Wr" by {
      Step("Hello Wor", 'l');
      assert "Hello Wor" + ['l'] == "Hello Worl";
      assert "Hello Wor"[2] == 'l';
      assert "Helo Wr" + [] == "Helo Wr";
    }
  }

  /** 'Hello World!' gives 'Helo Wrd!'. */
  lemma HelloWorld()
    ensures FirstOccurrences("Hello World!") == "Helo Wrd!"
  {
    HelloPrefix10();
    assert FirstOccurrences("Hello World") == "Helo Wrd" by {
      Step("Hello Worl", 'd');
      assert "Hello Worl" + ['d'] == "Hello World";
      assert 'd' !in "Hello Worl";
      assert "Helo Wr" + ['d'] == "Helo Wrd";
    }
    assert FirstOccurrences("Hello World!") == "Helo Wrd!" by {
      Step("Hello World", '!');
      assert "Hello World" + ['!'] == "Hello World!";
      assert '!' !in "Hello World";
      assert "Helo Wrd" + ['!'] == "Helo Wrd!";
    }
  }

  /** `unique_chars_generator`: one pass over the phrase, appending each
      character not yet in `seen_chars` to `unique_chars` and recording it. */
  method UniqueCharsGenerator(phrase: string) returns (r: string)
    ensures r == FirstOccurrences(phrase)
    ensures forall a, b :: 0 <= a < b < |r| ==> r[a] != r[b]
    ensures forall c :: c in r <==> c in phrase
    ensures |r| <= |phrase|
  {
    var uniqueChars: seq<char> := [];
    var seenChars: set<char> := {};
    for i := 0 to |phrase|
      invariant seenChars == set c | c in uniqueChars
      invariant uniqueChars == FirstOccurrences(phrase[..i])
    {
      var ch := phrase[i];
      assert phrase[..i + 1][..i] == phrase[..i];
      SameCharacters(phrase[..i]);
      if ch !in seenChars {
        seenChars := seenChars + {ch};
        uniqueChars := uniqueChars + [ch];
      }
    }
    assert phrase[..|phrase|] == phrase;
    r := uniqueChars;
    SameCharacters(phrase);
    NoRepeats(phrase);
    NoLonger(phrase);
  }
}
