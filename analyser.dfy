/**
 * The string analyser: every property of the record a submitted string is
 * stored with, each with its own definition over the characters of the
 * string, and the proofs that those definitions mean what the service
 * promises of them.
 */
module Analyser {
  import opened JsString

  /** The properties record (`IStringProperties`). */
  datatype StringProperties = StringProperties(
    length: nat,
    isPalindrome: bool,
    uniqueCharacters: nat,
    wordCount: nat,
    sha256Hash: string,
    characterFrequencyMap: map<char, nat>)

  // ---------------------------------------------------------------------------
  // is_palindrome
  // ---------------------------------------------------------------------------

  predicate IsLowerAlnum(c: char) {
    'a' <= c <= 'z' || '0' <= c <= '9'
  }

  /** `replace(/[^a-z0-9]/g, "")`: the lower-case ASCII letters and digits of `s`, in order. */
  function KeepLowerAlnum(s: string): string {
    if s == [] then [] else (if IsLowerAlnum(s[0]) then [s[0]] else []) + KeepLowerAlnum(s[1..])
  }

  /** The string the palindrome check compares: lower-cased, then only `a-z0-9` kept. */
  function Normalized(s: string): string {
    KeepLowerAlnum(ToLower(s))
  }

  /** `split("").reverse().join("")`. */
  function Reverse(s: string): (r: string)
    ensures |r| == |s|
  {
    if s == [] then [] else [s[|s| - 1]] + Reverse(s[..|s| - 1])
  }

  /** `checkPalindrome`: the normalised string reads the same reversed. */
  predicate IsPalindrome(s: string) {
    Normalized(s) == Reverse(Normalized(s))
  }

  /** The character at index `i` of the reversal is the one `i` places from the end. */
  lemma {:induction false} ReverseAt(s: string, i: nat)
    requires i < |s|
    ensures Reverse(s)[i] == s[|s| - 1 - i]
  {
    if i > 0 {
      ReverseAt(s[..|s| - 1], i - 1);
    }
  }

  /** A string is a palindrome exactly when its normalised form mirrors itself index by index. */
  lemma PalindromeIffMirrored(s: string)
    ensures var n := Normalized(s);
      IsPalindrome(s) <==> forall i | 0 <= i < |n| :: n[i] == n[|n| - 1 - i]
  {
    var n := Normalized(s);
    forall i | 0 <= i < |n| ensures Reverse(n)[i] == n[|n| - 1 - i] {
      ReverseAt(n, i);
    }
  }

  lemma {:induction false} KeepLowerAlnumAppend(a: string, b: string)
    ensures KeepLowerAlnum(a + b) == KeepLowerAlnum(a) + KeepLowerAlnum(b)
  {
    if a != [] {
      assert (a + b)[1..] == a[1..] + b;
      KeepLowerAlnumAppend(a[1..], b);
    } else {
      assert a + b == b;
    }
  }

  /** Normalising a concatenation normalises each part. */
  lemma NormalizedAppend(a: string, b: string)
    ensures Normalized(a + b) == Normalized(a) + Normalized(b)
  {
    ToLowerAppend(a, b);
    KeepLowerAlnumAppend(ToLower(a), ToLower(b));
  }

  /** Changing the case of letters does not change whether a string is a palindrome. */
  lemma PalindromeIgnoresCase(s: string, t: string)
    requires |s| == |t| && forall i | 0 <= i < |s| :: LowerChar(s[i]) == LowerChar(t[i])
    ensures IsPalindrome(s) == IsPalindrome(t)
  {
    assert ToLower(s) == ToLower(t);
  }

  /** Inserting or removing a character that is not a letter or digit does not change whether a string is a palindrome. */
  lemma PalindromeIgnoresSeparator(a: string, c: char, b: string)
    requires !IsLowerAlnum(LowerChar(c))
    ensures IsPalindrome(a + [c] + b) == IsPalindrome(a + b)
  {
    NormalizedAppend(a + [c], b);
    NormalizedAppend(a, [c]);
    NormalizedAppend(a, b);
    assert ToLower([c]) == [LowerChar(c)];
    assert KeepLowerAlnum([LowerChar(c)]) == [] + KeepLowerAlnum([]);
    assert Normalized(a) + [] == Normalized(a);
  }

  lemma {:induction false} KeepLowerAlnumNone(s: string)
    requires forall i | 0 <= i < |s| :: !IsLowerAlnum(s[i])
    ensures KeepLowerAlnum(s) == []
  {
    if s != [] {
      KeepLowerAlnumNone(s[1..]);
    }
  }

  /** A string without letters or digits (the empty one included) is a palindrome. */
  lemma PalindromeWithoutAlnum(s: string)
    requires forall i | 0 <= i < |s| :: !IsLowerAlnum(LowerChar(s[i]))
    ensures IsPalindrome(s)
  {
    KeepLowerAlnumNone(ToLower(s));
  }

  lemma {:induction false} KeepLowerAlnumAll(s: string)
    requires forall i | 0 <= i < |s| :: IsLowerAlnum(s[i])
    ensures KeepLowerAlnum(s) == s
  {
    if s != [] {
      KeepLowerAlnumAll(s[1..]);
    }
  }

  /** A string of lower-case letters and digits is its own normal form. */
  lemma NormalizedOfLowerAlnum(s: string)
    requires forall i | 0 <= i < |s| :: IsLowerAlnum(s[i])
    ensures Normalized(s) == s
  {
    assert ToLower(s) == s;
    KeepLowerAlnumAll(s);
  }

  /** Removing the separator at index `k` does not change whether a string is a palindrome. */
  lemma PalindromeWithoutSeparatorAt(t: string, k: nat)
    requires k < |t| && !IsLowerAlnum(LowerChar(t[k]))
    ensures IsPalindrome(t) == IsPalindrome(t[..k] + t[k + 1..])
  {
    PalindromeIgnoresSeparator(t[..k], t[k], t[k + 1..]);
    assert t[..k] + [t[k]] + t[k + 1..] == t;
  }

  /** A string of lower-case letters and digits that mirrors itself is a palindrome. */
  lemma MirroredLowerAlnumIsPalindrome(w: string)
    requires forall i | 0 <= i < |w| :: IsLowerAlnum(w[i]) && w[i] == w[|w| - 1 - i]
    ensures IsPalindrome(w)
  {
    NormalizedOfLowerAlnum(w);
    PalindromeIffMirrored(w);
  }

  // ---------------------------------------------------------------------------
  // word_count
  // ---------------------------------------------------------------------------

  /** `countWords`: 0 for a blank string, otherwise the number of pieces of the trimmed string split on `\s+`. */
  function CountWords(s: string): nat {
    var t := Trim(s);
    if t == [] then 0 else |SplitOnWhitespace(t)|
  }

  /**
   * The reference count: the number of positions that start a word, that is
   * hold a non-whitespace character after whitespace or at the very start
   * (`afterSpace` says whether the text before `s` ended in whitespace).
   */
  function WordStarts(s: string, afterSpace: bool): nat {
    if s == [] then 0
    else (if afterSpace && !IsWhitespace(s[0]) then 1 else 0) + WordStarts(s[1..], IsWhitespace(s[0]))
  }

  /** The number of maximal runs of non-whitespace characters of `s`. */
  function WordRuns(s: string): nat {
    WordStarts(s, true)
  }

  predicate AllWhitespace(s: string) {
    forall i | 0 <= i < |s| :: IsWhitespace(s[i])
  }

  /** Word starts of a concatenation: the second part continues from the last character of the first. */
  lemma {:induction false} WordStartsAppend(a: string, b: string, afterSpace: bool)
    ensures WordStarts(a + b, afterSpace)
      == WordStarts(a, afterSpace) + WordStarts(b, if a == [] then afterSpace else IsWhitespace(a[|a| - 1]))
  {
    if a == [] {
      assert a + b == b;
    } else {
      assert (a + b)[1..] == a[1..] + b;
      WordStartsAppend(a[1..], b, IsWhitespace(a[0]));
    }
  }

  /** Whitespace starts no word. */
  lemma {:induction false} WordStartsOfWhitespace(w: string, afterSpace: bool)
    requires AllWhitespace(w)
    ensures WordStarts(w, afterSpace) == 0
  {
    if w != [] {
      WordStartsOfWhitespace(w[1..], true);
    }
  }

  /** After whitespace, further whitespace changes nothing: the next word starts a word either way. */
  lemma WordStartsAfterWhitespace(w: string, s: string)
    requires AllWhitespace(w)
    ensures WordStarts(w + s, true) == WordStarts(s, true)
  {
    WordStartsAppend(w, s, true);
    WordStartsOfWhitespace(w, true);
  }

  /**
   * Splitting a string that does not end in whitespace: the pieces are one per
   * word start, plus the piece already being collected.
   */
  lemma {:induction false} SplitFromCount(t: string, piece: string)
    requires t == [] || !IsWhitespace(t[|t| - 1])
    requires piece != [] || (t != [] && !IsWhitespace(t[0]))
    ensures |SplitFrom(t, piece)| == WordStarts(t, piece == []) + (if piece == [] then 0 else 1)
    decreases |t|
  {
    if t != [] {
      if IsWhitespace(t[0]) {
        var u := TrimStart(t[1..]);
        assert t[1..] == t[1..][..|t| - 1 - |u|] + u;
        assert u != [] && u[|u| - 1] == t[|t| - 1];
        SplitFromCount(u, []);
        WordStartsAfterWhitespace(t[1..][..|t| - 1 - |u|], u);
      } else {
        SplitFromCount(t[1..], piece + [t[0]]);
      }
    }
  }

  lemma TrimStartSplits(s: string) returns (lead: string)
    ensures s == lead + TrimStart(s) && AllWhitespace(lead)
  {
    var t := TrimStart(s);
    lead := s[..|s| - |t|];
    assert s == lead + t;
    forall i | 0 <= i < |lead| ensures IsWhitespace(lead[i]) {
      assert lead[i] == s[i];
    }
  }

  lemma TrimEndSplits(t: string) returns (trail: string)
    ensures t == TrimEnd(t) + trail && AllWhitespace(trail)
  {
    var r := TrimEnd(t);
    trail := t[|r|..];
    assert t == r + trail;
    forall i | 0 <= i < |trail| ensures IsWhitespace(trail[i]) {
      assert trail[i] == t[|r| + i];
    }
  }

  /** Trimming keeps a middle part and drops only whitespace around it. */
  lemma TrimSplits(s: string) returns (lead: string, trail: string)
    ensures s == lead + Trim(s) + trail
    ensures AllWhitespace(lead) && AllWhitespace(trail)
  {
    lead := TrimStartSplits(s);
    trail := TrimEndSplits(TrimStart(s));
  }

  /** Leading and trailing whitespace change no word count. */
  lemma WordRunsAround(lead: string, s: string, trail: string)
    requires AllWhitespace(lead) && AllWhitespace(trail)
    ensures WordRuns(lead + s + trail) == WordRuns(s)
  {
    WordStartsAfterWhitespace(lead, s + trail);
    assert lead + s + trail == lead + (s + trail);
    WordStartsAppend(s, trail, true);
    WordStartsOfWhitespace(trail, if s == [] then true else IsWhitespace(s[|s| - 1]));
  }

  /** `countWords` counts the maximal runs of non-whitespace characters. */
  lemma CountWordsIsRuns(s: string)
    ensures CountWords(s) == WordRuns(s)
  {
    var lead, trail := TrimSplits(s);
    var t := Trim(s);
    WordRunsAround(lead, t, trail);
    if t == [] {
      assert s == lead + trail;
      WordStartsAppend(lead, trail, true);
      WordStartsOfWhitespace(lead, true);
      WordStartsOfWhitespace(trail, if lead == [] then true else IsWhitespace(lead[|lead| - 1]));
    } else {
      assert !IsWhitespace(t[0]) && !IsWhitespace(t[|t| - 1]);
      SplitFromCount(t, []);
    }
  }

  /** The word count is 0 exactly when the string is empty or all whitespace. */
  lemma CountWordsZeroIff(s: string)
    ensures CountWords(s) == 0 <==> AllWhitespace(s)
  {
    TrimEmptyIff(s);
  }

  /** A run of whitespace separates two words like a single space does. */
  lemma CountWordsCollapsesWhitespace(a: string, w: string, b: string)
    requires w != [] && AllWhitespace(w)
    ensures CountWords(a + w + b) == CountWords(a + " " + b)
  {
    CountWordsIsRuns(a + w + b);
    CountWordsIsRuns(a + " " + b);
    var sp := " ";
    WordStartsAppend(a + w, b, true);
    WordStartsAppend(a, w, true);
    WordStartsOfWhitespace(w, if a == [] then true else IsWhitespace(a[|a| - 1]));
    WordStartsAppend(a + sp, b, true);
    WordStartsAppend(a, sp, true);
    WordStartsOfWhitespace(sp, if a == [] then true else IsWhitespace(a[|a| - 1]));
    assert (a + w)[|a + w| - 1] == w[|w| - 1];
    assert (a + sp)[|a + sp| - 1] == ' ';
  }

  /** Whitespace before or after the text changes no word count. */
  lemma CountWordsIgnoresPadding(lead: string, s: string, trail: string)
    requires AllWhitespace(lead) && AllWhitespace(trail)
    ensures CountWords(lead + s + trail) == CountWords(s)
  {
    CountWordsIsRuns(lead + s + trail);
    CountWordsIsRuns(s);
    WordRunsAround(lead, s, trail);
  }

  // ---------------------------------------------------------------------------
  // unique_characters
  // ---------------------------------------------------------------------------

  /** The characters occurring in `s` (`new Set(str)`). */
  function CharSet(s: string): set<char> {
    set i | 0 <= i < |s| :: s[i]
  }

  /** `countUniqueChars`: the size of the set of distinct characters. */
  function CountUniqueChars(s: string): nat {
    |CharSet(s)|
  }

  lemma CharSetSnoc(s: string, c: char)
    ensures CharSet(s + [c]) == CharSet(s) + {c}
  {
    var t := s + [c];
    assert forall i | 0 <= i < |s| :: t[i] == s[i];
    assert t[|s|] == c;
  }

  /** There are never more distinct characters than characters. */
  lemma {:induction false} CountUniqueAtMostLength(s: string)
    ensures CountUniqueChars(s) <= |s|
  {
    if s != [] {
      var init := s[..|s| - 1];
      assert s == init + [s[|s| - 1]];
      CharSetSnoc(init, s[|s| - 1]);
      CountUniqueAtMostLength(init);
    }
  }

  /** The count of distinct characters is 0 exactly for the empty string. */
  lemma CountUniqueZeroIff(s: string)
    ensures CountUniqueChars(s) == 0 <==> s == []
  {
    if s != [] {
      assert s[0] in CharSet(s);
    }
  }

  // ---------------------------------------------------------------------------
  // character_frequency_map
  // ---------------------------------------------------------------------------

  /** How many times `c` occurs in `s`. */
  function Occurrences(s: string, c: char): nat {
    multiset(s)[c]
  }

  /** The frequency map `getCharFrequency` promises: each occurring character to its count. */
  function FrequencyOf(s: string): map<char, nat> {
    map c | c in CharSet(s) :: Occurrences(s, c)
  }

  /** One step of the `reduce`: `acc[char] = (acc[char] || 0) + 1`. */
  function Bump(acc: map<char, nat>, c: char): (r: map<char, nat>)
    ensures r.Keys == acc.Keys + {c}
    ensures r[c] == (if c in acc then acc[c] else 0) + 1
    ensures forall d | d in acc && d != c :: r[d] == acc[d]
  {
    acc[c := (if c in acc then acc[c] else 0) + 1]
  }

  /** Counting one more character bumps its entry and leaves the others alone. */
  lemma FrequencyOfSnoc(s: string, c: char)
    ensures FrequencyOf(s + [c]) == Bump(FrequencyOf(s), c)
  {
    CharSetSnoc(s, c);
    assert multiset(s + [c]) == multiset(s) + multiset{c};
  }

  /** The frequency map has exactly the occurring characters as keys, each with a count of at least 1. */
  lemma FrequencyKeysAndCounts(s: string)
    ensures FrequencyOf(s).Keys == CharSet(s)
    ensures forall c | c in FrequencyOf(s) :: FrequencyOf(s)[c] >= 1
  {
    forall c | c in CharSet(s) ensures Occurrences(s, c) >= 1 {
      var i :| 0 <= i < |s| && s[i] == c;
      assert c in multiset(s);
    }
  }

  /** The sum of the values of a count map. */
  ghost function SumOfCounts(m: map<char, nat>): nat
    decreases |m|
  {
    if m == map[] then 0 else var k :| k in m; m[k] + SumOfCounts(m - {k})
  }

  /** Any key can be taken out first when summing. */
  lemma {:induction false} SumOfCountsRemove(m: map<char, nat>, k: char)
    requires k in m
    ensures SumOfCounts(m) == m[k] + SumOfCounts(m - {k})
    decreases |m|
  {
    var j :| j in m && SumOfCounts(m) == m[j] + SumOfCounts(m - {j});
    if j != k {
      assert |m - {j}| == |m| - 1 && |m - {k}| == |m| - 1;
      SumOfCountsRemove(m - {j}, k);
      SumOfCountsRemove(m - {k}, j);
      assert m - {j} - {k} == m - {k} - {j};
    }
  }

  /** One bump adds one to the sum. */
  lemma SumOfCountsBump(m: map<char, nat>, c: char)
    ensures SumOfCounts(Bump(m, c)) == SumOfCounts(m) + 1
  {
    var b := Bump(m, c);
    SumOfCountsRemove(b, c);
    if c in m {
      SumOfCountsRemove(m, c);
      assert b - {c} == m - {c};
    } else {
      assert b - {c} == m;
    }
  }

  /** The counts of the frequency map add up to the length of the string. */
  lemma {:induction false} FrequencySumIsLength(s: string)
    ensures SumOfCounts(FrequencyOf(s)) == |s|
  {
    if s == [] {
      assert FrequencyOf(s) == map[];
    } else {
      var init := s[..|s| - 1];
      assert s == init + [s[|s| - 1]];
      FrequencyOfSnoc(init, s[|s| - 1]);
      SumOfCountsBump(FrequencyOf(init), s[|s| - 1]);
      FrequencySumIsLength(init);
    }
  }

  /** For strings of single code units, the distinct characters are the keys of the frequency map. */
  lemma CountUniqueIsFrequencyKeys(s: string)
    ensures CountUniqueChars(s) == |FrequencyOf(s)|
  {
    FrequencyKeysAndCounts(s);
    assert |FrequencyOf(s)| == |FrequencyOf(s).Keys|;
  }

  /** `getCharFrequency`: one pass over the characters, bumping the count of each. */
  method GetCharFrequency(s: string) returns (freq: map<char, nat>)
    ensures freq == FrequencyOf(s)
    ensures freq.Keys == CharSet(s)
    ensures forall c | c in freq :: freq[c] == Occurrences(s, c) >= 1
  {
    freq := map[];
    for i := 0 to |s|
      invariant freq == FrequencyOf(s[..i])
    {
      assert s[..i + 1] == s[..i] + [s[i]];
      FrequencyOfSnoc(s[..i], s[i]);
      freq := Bump(freq, s[i]);
    }
    assert s[..|s|] == s;
    FrequencyKeysAndCounts(s);
  }

  // ---------------------------------------------------------------------------
  // analyzeString
  // ---------------------------------------------------------------------------

  /** The record `analyzeString` builds for `value`, given the digest `hash` of `value`. */
  function Properties(value: string, hash: string): StringProperties {
    StringProperties(|value|, IsPalindrome(value), CountUniqueChars(value), CountWords(value), hash, FrequencyOf(value))
  }

  lemma {:induction false} WordStartsAtMostLength(s: string, afterSpace: bool)
    ensures WordStarts(s, afterSpace) <= |s|
  {
    if s != [] {
      WordStartsAtMostLength(s[1..], IsWhitespace(s[0]));
    }
  }

  /** There are never more words than characters. */
  lemma CountWordsAtMostLength(s: string)
    ensures CountWords(s) <= |s|
  {
    CountWordsIsRuns(s);
    WordStartsAtMostLength(s, true);
  }

  /** The fields of the record agree with each other. */
  lemma PropertiesConsistent(value: string, hash: string)
    ensures var p := Properties(value, hash);
      && p.uniqueCharacters == |p.characterFrequencyMap| <= p.length
      && p.wordCount <= p.length
      && SumOfCounts(p.characterFrequencyMap) == p.length
      && (p.length == 0 <==> p.uniqueCharacters == 0)
  {
    CountUniqueIsFrequencyKeys(value);
    CountUniqueAtMostLength(value);
    CountUniqueZeroIff(value);
    CountWordsAtMostLength(value);
    FrequencySumIsLength(value);
  }

  /**
   * `analyzeString`: every field computed from `value` alone (the digest by
   * the given `sha256`), so equal inputs give equal records.
   */
  method AnalyzeString(value: string, sha256: string -> string) returns (p: StringProperties)
    ensures p == Properties(value, sha256(value))
    ensures p.uniqueCharacters == |p.characterFrequencyMap| <= p.length
    ensures SumOfCounts(p.characterFrequencyMap) == p.length
  {
    var freq := GetCharFrequency(value);
    p := StringProperties(|value|, IsPalindrome(value), CountUniqueChars(value), CountWords(value), sha256(value), freq);
    PropertiesConsistent(value, sha256(value));
  }
}
