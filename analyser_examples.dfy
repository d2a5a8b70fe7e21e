/**
 * Worked examples of the analyser's properties, proved from the general
 * lemmas rather than by evaluating the definitions on whole strings.
 */
module AnalyserExamples {
  import opened JsString
  import opened Analyser

  // ---------------------------------------------------------------------------
  // is_palindrome
  // ---------------------------------------------------------------------------

  predicate AllLowerAlnum(w: string) {
    forall i | 0 <= i < |w| :: IsLowerAlnum(w[i])
  }

  /** Words joined by single spaces. */
  function JoinSpaced(ws: seq<string>): string
    requires ws != []
  {
    if |ws| == 1 then ws[0] else ws[0] + " " + JoinSpaced(ws[1..])
  }

  /** Words glued together. */
  function Concat(ws: seq<string>): string {
    if ws == [] then [] else ws[0] + Concat(ws[1..])
  }

  /** A space between two strings is dropped by normalisation. */
  lemma KeepAroundSpace(a: string, b: string)
    ensures KeepLowerAlnum(a + " " + b) == KeepLowerAlnum(a) + KeepLowerAlnum(b)
  {
    var sp := " ";
    KeepLowerAlnumAppend(a + sp, b);
    KeepLowerAlnumAppend(a, sp);
    assert KeepLowerAlnum(sp) == [] by {
      assert !IsLowerAlnum(sp[0]) && sp[1..] == [];
    }
    assert KeepLowerAlnum(a) + [] == KeepLowerAlnum(a);
  }

  /** Dropping the space after a word of letters and digits keeps the word and normalises the rest. */
  lemma WordThenSpace(a: string, b: string)
    requires AllLowerAlnum(a)
    ensures KeepLowerAlnum(a + " " + b) == a + KeepLowerAlnum(b)
  {
    KeepAroundSpace(a, b);
    KeepLowerAlnumAll(a);
  }

  /** Keeping the letters and digits of lower-case words joined by spaces glues the words together. */
  lemma {:induction false} KeepJoinSpaced(ws: seq<string>)
    requires ws != [] && forall j | 0 <= j < |ws| :: AllLowerAlnum(ws[j])
    ensures KeepLowerAlnum(JoinSpaced(ws)) == Concat(ws)
  {
    if |ws| == 1 {
      KeepLowerAlnumAll(ws[0]);
      assert Concat(ws) == ws[0] + Concat([]);
    } else {
      WordThenSpace(ws[0], JoinSpaced(ws[1..]));
      KeepJoinSpaced(ws[1..]);
    }
  }

  lemma LowerExample(s: string)
    requires s == "A man a plan a canal Panama"
    ensures ToLower(s) == "a man a plan" + " " + "a canal panama"
  {}

  lemma KeepFirstHalf(l: string)
    requires l == "a man a plan"
    ensures KeepLowerAlnum(l) == "amanaplan"
  {
    var ws := ["a", "man", "a", "plan"];
    assert JoinSpaced(ws) == l;
    assert Concat(ws) == "amanaplan";
    KeepJoinSpaced(ws);
  }

  lemma KeepSecondHalf(l: string)
    requires l == "a canal panama"
    ensures KeepLowerAlnum(l) == "acanalpanama"
  {
    var ws := ["a", "canal", "panama"];
    assert JoinSpaced(ws) == l;
    assert Concat(ws) == "acanalpanama";
    KeepJoinSpaced(ws);
  }

  lemma NormalizedExample(l: string, first: string, second: string)
    requires first == "a man a plan" && second == "a canal panama" && l == first + " " + second
    ensures KeepLowerAlnum(l) == "amanaplanacanalpanama"
  {
    KeepAroundSpace(first, second);
    KeepFirstHalf(first);
    KeepSecondHalf(second);
  }

  /** A worked palindrome example: spaces and capitals are ignored. */
  lemma PalindromeExample(s: string)
    requires s == "A man a plan a canal Panama"
    ensures IsPalindrome(s)
  {
    LowerExample(s);
    NormalizedExample(ToLower(s), "a man a plan", "a canal panama");
    PalindromeIffMirrored(s);
  }

  /** "hello" is not a palindrome. */
  lemma NotPalindromeExample(s: string)
    requires s == "hello"
    ensures !IsPalindrome(s)
  {
    NormalizedOfLowerAlnum(s);
    PalindromeIffMirrored(s);
    assert s[0] != s[4];
  }

  // ---------------------------------------------------------------------------
  // word_count
  // ---------------------------------------------------------------------------

  predicate IsWord(w: string) {
    w != [] && forall i | 0 <= i < |w| :: !IsWhitespace(w[i])
  }

  /** A word followed by whitespace starts exactly one word. */
  lemma WordThenGap(word: string, gap: string, rest: string, afterSpace: bool)
    requires IsWord(word) && gap != [] && AllWhitespace(gap)
    ensures WordStarts(word + gap + rest, afterSpace) == (if afterSpace then 1 else 0) + WordStarts(rest, true)
  {
    WordStartsAppend(word + gap, rest, afterSpace);
    WordStartsAppend(word, gap, afterSpace);
    WordStartsOfWhitespace(gap, IsWhitespace(word[|word| - 1]));
    WordStartsAppend(word[..1], word[1..], afterSpace);
    assert word[..1] + word[1..] == word;
    WordStartsInsideWord(word[1..]);
    assert (word + gap)[|word + gap| - 1] == gap[|gap| - 1];
  }

  /** Inside a word no new word starts. */
  lemma {:induction false} WordStartsInsideWord(w: string)
    requires forall i | 0 <= i < |w| :: !IsWhitespace(w[i])
    ensures WordStarts(w, false) == 0
  {
    if w != [] {
      WordStartsInsideWord(w[1..]);
    }
  }

  lemma ThreeWords(s: string, g0: string, a: string, g1: string, b: string, g2: string, c: string, g3: string)
    requires s == g0 + (a + g1 + (b + g2 + (c + g3 + [])))
    requires AllWhitespace(g0) && IsWord(a) && IsWord(b) && IsWord(c)
    requires g1 != [] && AllWhitespace(g1) && g2 != [] && AllWhitespace(g2) && g3 != [] && AllWhitespace(g3)
    ensures WordRuns(s) == 3
  {
    WordStartsAfterWhitespace(g0, a + g1 + (b + g2 + (c + g3 + [])));
    WordThenGap(a, g1, b + g2 + (c + g3 + []), true);
    WordThenGap(b, g2, c + g3 + [], true);
    WordThenGap(c, g3, [], true);
  }

  /** A worked word-count example: padding and repeated spaces are ignored. */
  lemma WordCountExample(s: string)
    requires s == "  one   two  three "
    ensures CountWords(s) == 3
  {
    ThreeWords(s, "  ", "one", "   ", "two", "  ", "three", " ");
    CountWordsIsRuns(s);
  }

  // ---------------------------------------------------------------------------
  // unique_characters and the whole record
  // ---------------------------------------------------------------------------

  /** Distinct characters are counted case-sensitively: "aA" has two. */
  lemma UniqueIsCaseSensitive(s: string)
    requires s == "aA"
    ensures CountUniqueChars(s) == 2
  {
    assert s[0] == 'a' && s[1] == 'A';
    assert CharSet(s) == {'a', 'A'};
  }

  /** The record of the empty string. */
  lemma EmptyStringProperties(hash: string)
    ensures Properties("", hash) == StringProperties(0, true, 0, 0, hash, map[])
  {
    PalindromeWithoutAlnum("");
    assert CharSet("") == {};
  }
}
