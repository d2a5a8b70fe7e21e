/**
 * What a compiled filter means: the query object both compilers hand to the
 * store, read as a predicate on stored records. Every present field is one
 * conjunct; an absent field constrains nothing.
 */
module Filters {
  import opened Results
  import opened JsString
  import opened Analyser

  /** A stored record (`IStringAnalysis`) as far as a filter looks at it. */
  datatype StoredString = StoredString(value: string, properties: StringProperties)

  /** `{ $gte: min, $lte: max }` on `properties.length`; either bound may be missing. */
  datatype LengthRange = LengthRange(gte: Option<int>, lte: Option<int>)

  /**
   * The query object: `properties.is_palindrome`, `properties.word_count`,
   * `properties.length` and `value` (a case-insensitive pattern).
   */
  datatype Filter = Filter(
    isPalindrome: Option<bool>,
    wordCount: Option<int>,
    length: Option<LengthRange>,
    valueContains: Option<string>)

  /** The empty query object `{}`. */
  const NoFilter := Filter(None, None, None, None)

  /** `{ $regex: fragment, $options: "i" }` for a fragment without pattern metacharacters, folding ASCII case only. */
  predicate ContainsIgnoringCase(text: string, fragment: string) {
    Includes(ToLower(text), ToLower(fragment))
  }

  /** Both bounds are inclusive. */
  predicate InRange(n: int, r: LengthRange) {
    (r.gte.None? || r.gte.value <= n) && (r.lte.None? || n <= r.lte.value)
  }

  /** The store selects `rec` for `f`: every present field holds of it. */
  predicate Matches(f: Filter, rec: StoredString) {
    && (f.isPalindrome.None? || rec.properties.isPalindrome == f.isPalindrome.value)
    && (f.wordCount.None? || rec.properties.wordCount == f.wordCount.value)
    && (f.length.None? || InRange(rec.properties.length, f.length.value))
    && (f.valueContains.None? || ContainsIgnoringCase(rec.value, f.valueContains.value))
  }

  /** The empty query object selects every record. */
  lemma NoFilterMatchesAll(rec: StoredString)
    ensures Matches(NoFilter, rec)
  {
  }

  /** The `i` option: neither the case of the value nor that of the fragment matters. */
  lemma ContainsIgnoresCase(text: string, fragment: string)
    ensures ContainsIgnoringCase(ToLower(text), fragment) <==> ContainsIgnoringCase(text, fragment)
    ensures ContainsIgnoringCase(text, ToLower(fragment)) <==> ContainsIgnoringCase(text, fragment)
  {
    ToLowerIdempotent(text);
    ToLowerIdempotent(fragment);
  }

  /** An empty fragment matches every value. */
  lemma EmptyFragmentMatchesAll(text: string)
    ensures ContainsIgnoringCase(text, "")
  {
    IncludesPrefix(ToLower(text), ToLower(""));
  }
}
