/**
 * The two filter compilers of the string-analyser controller, lifted out of
 * their HTTP handlers: each turns the parsed query string into the query
 * object handed to the store, or into the error the handler answers with.
 */
module Controller {
  import opened Results
  import opened JsString
  import opened Filters

  // ---------------------------------------------------------------------------
  // The parsed query string
  // ---------------------------------------------------------------------------

  /**
   * A value of `req.query`: a single string, the strings of a repeated key,
   * or a nested object (`?a[b]=1`).
   */
  datatype QueryValue = Text(text: string) | List(items: seq<string>) | Object

  /**
   * `req.query`, its keys in `Object.keys` order: the order received,
   * except that array-index keys come first, in ascending order.
   */
  type Query = seq<(string, QueryValue)>

  /** The error answers of the two handlers. */
  datatype QueryError =
    | UnknownParameters(names: seq<string>)  // 400, every key outside the whitelist
    | InvalidBoolean                         // 400, is_palindrome not "true"/"false"
    | InvalidInteger(name: string)           // 400, parseInt gave NaN
    | NotAString                             // 400, contains_character not a string
    | MissingQuery                           // 400, query absent, empty or not a string
    | ConflictingFilters                     // 422, min_length above max_length

  /** The five parameters `getAllStrings` accepts. */
  datatype Param = IsPalindrome | MinLength | MaxLength | WordCount | ContainsCharacter

  /** The parameter's key in the query string. */
  function Name(p: Param): string {
    match p
    case IsPalindrome => "is_palindrome"
    case MinLength => "min_length"
    case MaxLength => "max_length"
    case WordCount => "word_count"
    case ContainsCharacter => "contains_character"
  }

  /** The whitelist, in the order the handler lists it. */
  const AllowedParams: seq<string> :=
    [Name(IsPalindrome), Name(MinLength), Name(MaxLength), Name(WordCount), Name(ContainsCharacter)]

  /** The order in which the structured compiler validates the values. */
  const ValidationOrder: seq<Param> := [IsPalindrome, WordCount, MinLength, MaxLength, ContainsCharacter]

  /** The received keys outside the whitelist, in the order of `Query`. */
  function UnknownKeys(q: Query): (r: seq<string>)
    ensures |r| <= |q|
    ensures forall k | k in r :: k !in AllowedParams && exists i | 0 <= i < |q| :: q[i].0 == k
    ensures forall i | 0 <= i < |q| && q[i].0 !in AllowedParams :: q[i].0 in r
  {
    if q == [] then []
    else (if q[0].0 in AllowedParams then [] else [q[0].0]) + UnknownKeys(q[1..])
  }

  /**
   * Unknown keys are reported in the order of `Query`, that is, in
   * `Object.keys` order: the order received, except that array-index keys
   * come first, in ascending order.
   */
  lemma {:induction false} UnknownKeysAppend(a: Query, b: Query)
    ensures UnknownKeys(a + b) == UnknownKeys(a) + UnknownKeys(b)
  {
    if a == [] {
      assert a + b == b;
    } else {
      assert (a + b)[0] == a[0] && (a + b)[1..] == a[1..] + b;
      UnknownKeysAppend(a[1..], b);
    }
  }

  /** `req.query[name]`: the value of the first entry with that key. */
  function Lookup(q: Query, name: string): (r: Option<QueryValue>)
    ensures r.None? <==> forall i | 0 <= i < |q| :: q[i].0 != name
    ensures r.Some? ==> exists i | 0 <= i < |q| :: q[i] == (name, r.value)
  {
    if q == [] then None
    else if q[0].0 == name then Some(q[0].1)
    else Lookup(q[1..], name)
  }

  /** `String(v)`, which is what `parseInt` reads. */
  function JsToString(v: QueryValue): string {
    match v
    case Text(t) => t
    case List(items) => JoinWithCommas(items)
    case Object => "[object Object]"
  }

  /** `parseInt(v as string)`; `None` is NaN. */
  function AsInteger(v: QueryValue): Option<int> {
    ParseInt(JsToString(v))
  }

  // ---------------------------------------------------------------------------
  // The structured compiler, specified parameter by parameter
  // ---------------------------------------------------------------------------

  /** The value check applied to a present parameter. */
  predicate Accepted(p: Param, v: QueryValue) {
    match p
    case IsPalindrome => v == Text("true") || v == Text("false")
    case ContainsCharacter => v.Text?
    case _ => AsInteger(v).Some?
  }

  /** The error answered when a present parameter fails its check. */
  function Rejection(p: Param): QueryError {
    match p
    case IsPalindrome => InvalidBoolean
    case ContainsCharacter => NotAString
    case _ => InvalidInteger(Name(p))
  }

  /** An absent parameter is valid. */
  predicate ValidAt(q: Query, p: Param) {
    Lookup(q, Name(p)).None? || Accepted(p, Lookup(q, Name(p)).value)
  }

  predicate AllValid(q: Query) {
    forall p: Param :: ValidAt(q, p)
  }

  lemma AllValidByCases(q: Query)
    requires ValidAt(q, IsPalindrome) && ValidAt(q, WordCount) && ValidAt(q, MinLength)
    requires ValidAt(q, MaxLength) && ValidAt(q, ContainsCharacter)
    ensures AllValid(q)
  {
    forall p: Param ensures ValidAt(q, p) {
      match p
      case IsPalindrome =>
      case WordCount =>
      case MinLength =>
      case MaxLength =>
      case ContainsCharacter =>
    }
  }

  /** The position of a parameter in the validation order. */
  function Rank(p: Param): (i: nat)
    ensures i < |ValidationOrder| && ValidationOrder[i] == p
  {
    match p
    case IsPalindrome => 0
    case WordCount => 1
    case MinLength => 2
    case MaxLength => 3
    case ContainsCharacter => 4
  }

  /**
   * The parameter whose check fails first in validation order: it is
   * invalid, every parameter validated before it is valid, and there is none
   * exactly when every parameter is valid.
   */
  function FirstFailure(q: Query): (r: Option<Param>)
    ensures r.None? <==> AllValid(q)
    ensures r.Some? ==> !ValidAt(q, r.value) && forall p: Param | Rank(p) < Rank(r.value) :: ValidAt(q, p)
  {
    if !ValidAt(q, IsPalindrome) then Some(IsPalindrome)
    else if !ValidAt(q, WordCount) then Some(WordCount)
    else if !ValidAt(q, MinLength) then Some(MinLength)
    else if !ValidAt(q, MaxLength) then Some(MaxLength)
    else if !ValidAt(q, ContainsCharacter) then Some(ContainsCharacter)
    else
      AllValidByCases(q);
      None
  }

  /** What a present parameter asks of a record. */
  predicate Demands(p: Param, v: QueryValue, rec: StoredString) {
    var props := rec.properties;
    match p
    case IsPalindrome => props.isPalindrome == (v == Text("true"))
    case WordCount => AsInteger(v) == Some(props.wordCount)
    case MinLength => AsInteger(v).Some? && AsInteger(v).value <= props.length
    case MaxLength => AsInteger(v).Some? && props.length <= AsInteger(v).value
    case ContainsCharacter => v.Text? && ContainsIgnoringCase(rec.value, v.text)
  }

  /** An absent parameter demands nothing. */
  predicate Meets(q: Query, p: Param, rec: StoredString) {
    Lookup(q, Name(p)).None? || Demands(p, Lookup(q, Name(p)).value, rec)
  }

  /** `rec` meets every parameter of `q`. */
  predicate Selects(q: Query, rec: StoredString) {
    forall p: Param :: Meets(q, p, rec)
  }

  lemma SelectsIff(q: Query, rec: StoredString)
    ensures Selects(q, rec) <==>
      && Meets(q, IsPalindrome, rec) && Meets(q, WordCount, rec) && Meets(q, MinLength, rec)
      && Meets(q, MaxLength, rec) && Meets(q, ContainsCharacter, rec)
  {
    if Meets(q, IsPalindrome, rec) && Meets(q, WordCount, rec) && Meets(q, MinLength, rec)
      && Meets(q, MaxLength, rec) && Meets(q, ContainsCharacter, rec)
    {
      forall p: Param ensures Meets(q, p, rec) {
        match p
        case IsPalindrome =>
        case WordCount =>
        case MinLength =>
        case MaxLength =>
        case ContainsCharacter =>
      }
    }
  }

  /** The integer a present parameter gives. */
  function Bound(v: Option<QueryValue>): Option<int> {
    match v
    case None => None
    case Some(x) => AsInteger(x)
  }

  /** The query object the parameters of `q` ask for, field by field. */
  function CompiledFilter(q: Query): Filter {
    var min := Lookup(q, Name(MinLength));
    var max := Lookup(q, Name(MaxLength));
    Filter(
      match Lookup(q, Name(IsPalindrome)) case None => None case Some(v) => Some(v == Text("true")),
      Bound(Lookup(q, Name(WordCount))),
      if min.None? && max.None? then None else Some(LengthRange(Bound(min), Bound(max))),
      match Lookup(q, Name(ContainsCharacter)) case Some(Text(t)) => Some(t) case _ => None)
  }

  /**
   * The answer to a parameter set: every unknown key if there is one, else
   * the rejection of the first invalid value in validation order, else the
   * compiled query object.
   */
  function StructuredResult(q: Query): Result<Filter, QueryError> {
    if UnknownKeys(q) != [] then Failure(UnknownParameters(UnknownKeys(q)))
    else match FirstFailure(q)
      case Some(p) => Failure(Rejection(p))
      case None => Success(CompiledFilter(q))
  }

  /** Each field of a compiled filter holds of a record exactly when the parameters behind it do. */
  lemma CompiledMeaningAt(q: Query, rec: StoredString)
    requires ValidAt(q, WordCount) && ValidAt(q, MinLength) && ValidAt(q, MaxLength) && ValidAt(q, ContainsCharacter)
    ensures Matches(CompiledFilter(q), rec) <==>
      && Meets(q, IsPalindrome, rec) && Meets(q, WordCount, rec) && Meets(q, MinLength, rec)
      && Meets(q, MaxLength, rec) && Meets(q, ContainsCharacter, rec)
  {
    CompiledFlagMeaning(q, rec);
    CompiledWordCountMeaning(q, rec);
    CompiledLengthMeaning(q, rec);
    CompiledTextMeaning(q, rec);
  }

  /** The palindrome field holds of a record exactly when `is_palindrome` does. */
  lemma CompiledFlagMeaning(q: Query, rec: StoredString)
    ensures var f := CompiledFilter(q);
      (f.isPalindrome.None? || rec.properties.isPalindrome == f.isPalindrome.value) <==> Meets(q, IsPalindrome, rec)
  {
  }

  /** The word-count field holds of a record exactly when `word_count` does. */
  lemma CompiledWordCountMeaning(q: Query, rec: StoredString)
    requires ValidAt(q, WordCount)
    ensures var f := CompiledFilter(q);
      (f.wordCount.None? || rec.properties.wordCount == f.wordCount.value) <==> Meets(q, WordCount, rec)
  {
  }

  /** The containment field holds of a record exactly when `contains_character` does. */
  lemma CompiledTextMeaning(q: Query, rec: StoredString)
    requires ValidAt(q, ContainsCharacter)
    ensures var f := CompiledFilter(q);
      (f.valueContains.None? || ContainsIgnoringCase(rec.value, f.valueContains.value))
      <==> Meets(q, ContainsCharacter, rec)
  {
  }

  /** The length range holds of a record exactly when both bounds behind it do. */
  lemma CompiledLengthMeaning(q: Query, rec: StoredString)
    requires ValidAt(q, MinLength) && ValidAt(q, MaxLength)
    ensures var f := CompiledFilter(q);
      (f.length.None? || InRange(rec.properties.length, f.length.value))
      <==> Meets(q, MinLength, rec) && Meets(q, MaxLength, rec)
  {
  }

  /**
   * The whitelist is checked before any value, and every unknown key is
   * reported; a valid parameter set compiles to a query object that selects
   * exactly the records meeting every parameter, and absent parameters leave
   * their field out.
   */
  lemma StructuredResultMeaning(q: Query)
    ensures UnknownKeys(q) != [] ==> StructuredResult(q) == Failure(UnknownParameters(UnknownKeys(q)))
    ensures UnknownKeys(q) == [] ==> (StructuredResult(q).Success? <==> AllValid(q))
    ensures StructuredResult(q).Success? ==>
      var f := StructuredResult(q).value;
      && (forall rec :: Matches(f, rec) <==> Selects(q, rec))
      && (f.isPalindrome.None? <==> Lookup(q, Name(IsPalindrome)).None?)
      && (f.wordCount.None? <==> Lookup(q, Name(WordCount)).None?)
      && (f.length.None? <==> Lookup(q, Name(MinLength)).None? && Lookup(q, Name(MaxLength)).None?)
      && (f.valueContains.None? <==> Lookup(q, Name(ContainsCharacter)).None?)
  {
    if StructuredResult(q).Success? {
      assert ValidAt(q, WordCount) && ValidAt(q, MinLength) && ValidAt(q, MaxLength) && ValidAt(q, ContainsCharacter);
      CompiledSelectsExactly(q);
      CompiledFieldsPresent(q);
    }
  }

  /** A compiled filter of valid parameters selects exactly the records meeting every parameter. */
  lemma CompiledSelectsExactly(q: Query)
    requires ValidAt(q, WordCount) && ValidAt(q, MinLength) && ValidAt(q, MaxLength) && ValidAt(q, ContainsCharacter)
    ensures forall rec :: Matches(CompiledFilter(q), rec) <==> Selects(q, rec)
  {
    forall rec
      ensures Matches(CompiledFilter(q), rec) <==> Selects(q, rec)
    {
      CompiledMeaningAt(q, rec);
      SelectsIff(q, rec);
    }
  }

  /** A field of the compiled filter of valid parameters is left out exactly when its parameters are absent. */
  lemma CompiledFieldsPresent(q: Query)
    requires ValidAt(q, WordCount) && ValidAt(q, ContainsCharacter)
    ensures CompiledFilter(q).isPalindrome.None? <==> Lookup(q, Name(IsPalindrome)).None?
    ensures CompiledFilter(q).wordCount.None? <==> Lookup(q, Name(WordCount)).None?
    ensures CompiledFilter(q).length.None? <==> Lookup(q, Name(MinLength)).None? && Lookup(q, Name(MaxLength)).None?
    ensures CompiledFilter(q).valueContains.None? <==> Lookup(q, Name(ContainsCharacter)).None?
  {
    var v := Lookup(q, Name(ContainsCharacter));
    assert v.Some? ==> v.value.Text?;
  }

  /** The `is_palindrome` check: present, it must be exactly "true" or "false". */
  method ReadBoolean(q: Query) returns (r: Result<Option<bool>, QueryError>)
    ensures r.Failure? <==> !ValidAt(q, IsPalindrome)
    ensures r.Failure? ==> r.error == InvalidBoolean
    ensures r.Success? ==> r.value == CompiledFilter(q).isPalindrome
  {
    var isPalindrome := Lookup(q, Name(IsPalindrome));
    if isPalindrome.None? {
      return Success(None);
    }
    if isPalindrome.value != Text("true") && isPalindrome.value != Text("false") {
      return Failure(InvalidBoolean);
    }
    return Success(Some(isPalindrome.value == Text("true")));
  }

  /** The integer checks: present, the value must not parse to NaN. */
  method ReadInteger(q: Query, p: Param) returns (r: Result<Option<int>, QueryError>)
    requires p == WordCount || p == MinLength || p == MaxLength
    ensures r.Failure? <==> !ValidAt(q, p)
    ensures r.Failure? ==> r.error == InvalidInteger(Name(p))
    ensures r.Success? ==> r.value == Bound(Lookup(q, Name(p)))
  {
    var v := Lookup(q, Name(p));
    if v.None? {
      return Success(None);
    }
    var n := ParseInt(JsToString(v.value));
    if n.None? {
      return Failure(InvalidInteger(Name(p)));
    }
    return Success(n);
  }

  /** The `contains_character` check: present, it must be a single string. */
  method ReadText(q: Query) returns (r: Result<Option<string>, QueryError>)
    ensures r.Failure? <==> !ValidAt(q, ContainsCharacter)
    ensures r.Failure? ==> r.error == NotAString
    ensures r.Success? ==> r.value == CompiledFilter(q).valueContains
  {
    var containsCharacter := Lookup(q, Name(ContainsCharacter));
    if containsCharacter.None? {
      return Success(None);
    }
    if !containsCharacter.value.Text? {
      return Failure(NotAString);
    }
    return Success(Some(containsCharacter.value.text));
  }

  /**
   * `getAllStrings` up to the store query: the whitelist first, then the
   * values in validation order, building `filters` and `lengthFilter` field
   * by field.
   */
  method CompileStructured(q: Query) returns (r: Result<Filter, QueryError>)
    ensures r == StructuredResult(q)
  {
    var unknown := UnknownKeys(q);
    if unknown != [] {
      return Failure(UnknownParameters(unknown));
    }

    var filter := NoFilter;
    var isPalindrome := ReadBoolean(q);
    if isPalindrome.Failure? {
      return Failure(isPalindrome.error);
    }
    filter := filter.(isPalindrome := isPalindrome.value);

    var wordCount := ReadInteger(q, WordCount);
    if wordCount.Failure? {
      return Failure(wordCount.error);
    }
    filter := filter.(wordCount := wordCount.value);

    var lengthFilter := LengthRange(None, None);
    var min := ReadInteger(q, MinLength);
    if min.Failure? {
      return Failure(min.error);
    }
    lengthFilter := lengthFilter.(gte := min.value);
    var max := ReadInteger(q, MaxLength);
    if max.Failure? {
      return Failure(max.error);
    }
    lengthFilter := lengthFilter.(lte := max.value);
    if lengthFilter != LengthRange(None, None) {
      filter := filter.(length := Some(lengthFilter));
    }

    var containsCharacter := ReadText(q);
    if containsCharacter.Failure? {
      return Failure(containsCharacter.error);
    }
    filter := filter.(valueContains := containsCharacter.value);
    return Success(filter);
  }

  // ---------------------------------------------------------------------------
  // The natural-language compiler
  // ---------------------------------------------------------------------------

  /** `parsed_filters`, as reported back to the client. */
  datatype ParsedFilters = ParsedFilters(
    isPalindrome: Option<bool>,
    wordCount: Option<int>,
    minLength: Option<int>,
    maxLength: Option<int>,
    containsCharacter: Option<string>)

  /** What a successful natural-language query yields: the parsed filters and the query object. */
  datatype Interpretation = Interpretation(parsed: ParsedFilters, filter: Filter)

  /** The query object that a set of parsed filters stands for. */
  function FilterOf(p: ParsedFilters): Filter {
    Filter(
      p.isPalindrome,
      p.wordCount,
      if p.minLength.None? && p.maxLength.None? then None else Some(LengthRange(p.minLength, p.maxLength)),
      p.containsCharacter)
  }

  /**
   * `/longer than (\d+) characters/` matches at the start of `t`. The greedy
   * `\d+` takes the longest run of digits; a shorter run is never followed by
   * the space the pattern needs next, so backtracking finds nothing else.
   */
  predicate LongerThanAt(t: string) {
    && StartsWith(t, "longer than ")
    && var digits := DigitPrefix(t[12..], 10);
       digits != [] && StartsWith(t[12 + |digits|..], " characters")
  }

  /** The text the pattern matches, with the digits it captures. */
  lemma LongerThanAtOf(t: string, digits: string, rest: string)
    requires digits != [] && forall i | 0 <= i < |digits| :: IsDecimalDigit(digits[i])
    requires t == "longer than " + digits + " characters" + rest
    ensures LongerThanAt(t) && DigitPrefix(t[12..], 10) == digits
  {
    assert t[12..] == digits + (" characters" + rest);
    DigitPrefixOfDigits(digits, " characters" + rest, 10);
    assert t[12 + |digits|..] == " characters" + rest;
  }

  /** A match spells out the phrase around the digits it captures. */
  lemma LongerThanAtSpells(t: string)
    requires LongerThanAt(t)
    ensures StartsWith(t, "longer than " + DigitPrefix(t[12..], 10) + " characters")
  {
    var digits := DigitPrefix(t[12..], 10);
    var n := 12 + |digits|;
    assert t[..12] == "longer than ";
    assert t[12..n] == digits by {
      assert t[12..][..|digits|] == digits;
    }
    assert t[n..n + 11] == " characters" by {
      assert t[n..][..11] == " characters";
    }
    assert t[..n + 11] == t[..12] + t[12..n] + t[n..n + 11];
  }

  /** `lowerQuery.match(/longer than (\d+) characters/)[1]`: the digits of the leftmost match. */
  function LengthAsked(s: string): (r: Option<string>)
    ensures r.Some? ==> r.value != [] && forall k | 0 <= k < |r.value| :: IsDecimalDigit(r.value[k])
  {
    FirstMatchIsLeftmost(s, LongerThanAt);
    match FirstMatch(s, LongerThanAt)
    case None => None
    case Some(i) => Some(DigitPrefix(s[i..][12..], 10))
  }

  /**
   * The digits come from the leftmost place where the phrase occurs, and
   * there is no match exactly when the phrase occurs nowhere.
   */
  lemma LengthAskedMeaning(s: string)
    ensures LengthAsked(s).None? <==> forall i | 0 <= i <= |s| :: !LongerThanAt(s[i..])
    ensures LengthAsked(s).Some? ==>
      exists i | 0 <= i <= |s| ::
        && StartsWith(s[i..], "longer than " + LengthAsked(s).value + " characters")
        && forall j | 0 <= j < i :: !LongerThanAt(s[j..])
  {
    var m := FirstMatch(s, LongerThanAt);
    FirstMatchIsLeftmost(s, LongerThanAt);
    if m.Some? {
      LongerThanAtSpells(s[m.value..]);
    }
  }

  /** `parseInt` of the captured digits, plus one: "longer than N" means at least N + 1. */
  function MinLengthAsked(lower: string): Option<int> {
    match LengthAsked(lower)
    case None => None
    case Some(digits) =>
      ParseIntOfDigits(digits);
      Some(ParseInt(digits).value + 1)
  }

  /** The lower bound is one more than the number the digits spell. */
  lemma MinLengthIsSuccessor(lower: string)
    ensures LengthAsked(lower).None? ==> MinLengthAsked(lower).None?
    ensures LengthAsked(lower).Some? ==> MinLengthAsked(lower) == Some(ValueOf(LengthAsked(lower).value, 10) + 1)
  {
    if LengthAsked(lower).Some? {
      ParseIntOfDigits(LengthAsked(lower).value);
    }
  }

  /**
   * `/containing the letter "([a-z])"/i` matches at the start of `t`. It is
   * only ever applied to a lower-cased query, which holds no `A`-`Z`, so the
   * `i` flag changes nothing there.
   */
  predicate LetterAt(t: string) {
    && |t| >= 25
    && StartsWith(t, "containing the letter \"")
    && 'a' <= t[23] <= 'z'
    && t[24] == '"'
  }

  /** The letter the leftmost match captures. */
  function LetterAsked(s: string): (r: Option<char>)
    ensures r.Some? ==> 'a' <= r.value <= 'z'
  {
    FirstMatchIsLeftmost(s, LetterAt);
    match FirstMatch(s, LetterAt)
    case None => None
    case Some(i) => Some(s[i + 23])
  }

  /**
   * The captured letter is the one quoted in the leftmost occurrence of the
   * phrase, and no match means no such phrase.
   */
  lemma LetterAskedMeaning(s: string)
    ensures LetterAsked(s).None? <==> forall i | 0 <= i <= |s| :: !LetterAt(s[i..])
    ensures LetterAsked(s).Some? ==>
      exists i | 0 <= i <= |s| ::
        && LetterAt(s[i..]) && s[i..][23] == LetterAsked(s).value
        && forall j | 0 <= j < i :: !LetterAt(s[j..])
    ensures LetterAsked(s).Some? ==> Includes(s, "containing the letter \"" + [LetterAsked(s).value] + "\"")
  {
    var m := FirstMatch(s, LetterAt);
    FirstMatchIsLeftmost(s, LetterAt);
    if m.Some? {
      var i := m.value;
      assert s[i..][23] == s[i + 23];
      var phrase := "containing the letter \"" + [s[i + 23]] + "\"";
      assert s[i..i + 25] == phrase;
      IncludesIff(s, phrase);
      assert OccursAt(s, phrase, i);
    }
  }

  /** The containment trigger that wins, in priority order: the quoted letter, "first vowel", "letter z". */
  function ContainmentAsked(lower: string): Option<string> {
    match LetterAsked(lower)
    case Some(c) => Some([c])
    case None =>
      if Includes(lower, "first vowel") then Some("a")
      else if Includes(lower, "letter z") then Some("z")
      else None
  }

  /** At most one containment constraint is derived, and it is always a single lower-case letter. */
  lemma ContainmentIsOneLetter(lower: string)
    ensures ContainmentAsked(lower).Some? ==>
      |ContainmentAsked(lower).value| == 1 && 'a' <= ContainmentAsked(lower).value[0] <= 'z'
    ensures ContainmentAsked(lower).None? <==>
      LetterAsked(lower).None? && !Includes(lower, "first vowel") && !Includes(lower, "letter z")
  {
  }

  /** JavaScript truthiness of a number that may be undefined: 0 is false. */
  predicate Truthy(n: Option<int>) {
    n.Some? && n.value != 0
  }

  /** The final check, as written: both bounds truthy and the lower above the upper. */
  predicate Conflicting(p: ParsedFilters) {
    Truthy(p.minLength) && Truthy(p.maxLength) && p.minLength.value > p.maxLength.value
  }

  /** No trigger sets an upper bound, so the conflict check never fires. */
  lemma NeverConflicting(p: ParsedFilters)
    requires p.maxLength.None?
    ensures !Conflicting(p)
  {
  }

  /** The handler's guard `!query || typeof query !== "string"`. */
  predicate IsQueryText(query: Option<QueryValue>) {
    query.Some? && query.value.Text? && query.value.text != []
  }

  /**
   * `filterByNaturalLanguage` up to the store query: each trigger on the
   * lower-cased query adds one constraint to both `parsed_filters` and the
   * query object, then the conflict check runs.
   */
  method CompileNaturalLanguage(query: Option<QueryValue>) returns (r: Result<Interpretation, QueryError>)
    ensures r.Failure? <==> !IsQueryText(query)
    ensures r.Failure? ==> r.error == MissingQuery
    ensures r.Success? ==>
      var lower := ToLower(query.value.text);
      var p := r.value.parsed;
      && p.isPalindrome == (if Includes(lower, "palindromic") then Some(true) else None)
      && p.wordCount == (if Includes(lower, "single word") then Some(1) else None)
      && (LengthAsked(lower).None? ==> p.minLength.None?)
      && (LengthAsked(lower).Some? ==> p.minLength == Some(ValueOf(LengthAsked(lower).value, 10) + 1))
      && p.maxLength.None?
      && p.containsCharacter == ContainmentAsked(lower)
    ensures r.Success? ==> r.value.filter == FilterOf(r.value.parsed)
    ensures IsQueryText(query) ==>
      var lower := ToLower(query.value.text);
      !Includes(lower, "palindromic") && !Includes(lower, "single word")
      && LengthAsked(lower).None? && ContainmentAsked(lower).None? ==>
        r == Success(Interpretation(ParsedFilters(None, None, None, None, None), NoFilter))
  {
    if !IsQueryText(query) {
      return Failure(MissingQuery);
    }
    var lowerQuery := ToLower(query.value.text);
    var parsed := ParsedFilters(None, None, None, None, None);
    var filter := NoFilter;

    if Includes(lowerQuery, "palindromic") {
      parsed := parsed.(isPalindrome := Some(true));
      filter := filter.(isPalindrome := Some(true));
    }

    if Includes(lowerQuery, "single word") {
      parsed := parsed.(wordCount := Some(1));
      filter := filter.(wordCount := Some(1));
    }

    var min := MinLengthAsked(lowerQuery);
    if min.Some? {
      parsed := parsed.(minLength := min);
      filter := filter.(length := Some(LengthRange(min, None)));
    }
    MinLengthIsSuccessor(lowerQuery);

    var letter := ContainmentAsked(lowerQuery);
    if letter.Some? {
      parsed := parsed.(containsCharacter := letter);
      filter := filter.(valueContains := letter);
    }

    NeverConflicting(parsed);
    r := if Conflicting(parsed) then Failure(ConflictingFilters) else Success(Interpretation(parsed, filter));
  }
}
