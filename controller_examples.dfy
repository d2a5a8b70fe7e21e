/**
 * Worked examples of the two filter compilers on concrete query strings.
 */
module ControllerExamples {
  import opened Results
  import opened JsString
  import opened Filters
  import opened Controller

  // ---------------------------------------------------------------------------
  // getAllStrings
  // ---------------------------------------------------------------------------

  /** Different parameters have different names. */
  lemma NamesDistinct(p: Param, p': Param)
    requires p != p'
    ensures Name(p) != Name(p')
  {
    match p
    case IsPalindrome => assert Name(p)[1] == 's';
    case MinLength => assert Name(p)[1] == 'i';
    case MaxLength => assert Name(p)[1] == 'a';
    case WordCount => assert Name(p)[0] == 'w';
    case ContainsCharacter => assert Name(p)[0] == 'c';
  }
  /** Unknown keys are all reported, in `Object.keys` order, before any value is looked at. */
  lemma UnknownKeysExample(q: Query)
    requires q == [("foo", Text("1")), (Name(IsPalindrome), Text("maybe")), ("bar", Text("x"))]
    ensures StructuredResult(q) == Failure(UnknownParameters(["foo", "bar"]))
  {
    assert "foo" !in AllowedParams && "bar" !in AllowedParams;
    assert q[1].0 in AllowedParams;
    assert q[2..][1..] == [];
    assert UnknownKeys(q[2..]) == ["bar"];
    assert UnknownKeys(q[1..]) == UnknownKeys(q[2..]);
    assert UnknownKeys(q) == ["foo"] + UnknownKeys(q[1..]);
    assert UnknownKeys(q) == ["foo", "bar"];
  }

  /** `is_palindrome` accepts only "true" and "false". */
  lemma InvalidBooleanExample(q: Query)
    requires q == [(Name(IsPalindrome), Text("maybe"))]
    ensures StructuredResult(q) == Failure(InvalidBoolean)
  {
    assert !ValidAt(q, IsPalindrome);
  }

  /** `word_count` is validated before `contains_character`, whatever order they arrive in. */
  lemma ValidationOrderExample(q: Query)
    requires q == [(Name(ContainsCharacter), Object), (Name(WordCount), Text("x"))]
    ensures StructuredResult(q) == Failure(InvalidInteger(Name(WordCount)))
  {
    assert q[0].0 in AllowedParams && q[1].0 in AllowedParams;
    assert UnknownKeys(q) == [];
    NamesDistinct(IsPalindrome, ContainsCharacter);
    NamesDistinct(IsPalindrome, WordCount);
    NamesDistinct(WordCount, ContainsCharacter);
    WordCountFailsFirst(q);
  }

  lemma WordCountFailsFirst(q: Query)
    requires Lookup(q, Name(IsPalindrome)).None? && Lookup(q, Name(WordCount)) == Some(Text("x"))
    ensures FirstFailure(q) == Some(WordCount)
  {
    ParseIntOfNonNumeric("x");
    assert !ValidAt(q, WordCount);
    assert ValidAt(q, IsPalindrome);
  }

  /** With no parameters every record is selected. */
  lemma EmptyQueryExample()
    ensures StructuredResult([]) == Success(NoFilter)
  {
  }

  /** Which parameters a length-range query gives. */
  lemma RangeLookups(q: Query, min: string, max: string)
    requires q == [(Name(MinLength), Text(min)), (Name(MaxLength), Text(max))]
    ensures Lookup(q, Name(MinLength)) == Some(Text(min))
    ensures Lookup(q, Name(MaxLength)) == Some(Text(max))
    ensures Lookup(q, Name(IsPalindrome)).None? && Lookup(q, Name(WordCount)).None?
    ensures Lookup(q, Name(ContainsCharacter)).None?
  {
    NamesDistinct(MinLength, MaxLength);
    NamesDistinct(IsPalindrome, MinLength);
    NamesDistinct(IsPalindrome, MaxLength);
    NamesDistinct(WordCount, MinLength);
    NamesDistinct(WordCount, MaxLength);
    NamesDistinct(ContainsCharacter, MinLength);
    NamesDistinct(ContainsCharacter, MaxLength);
  }

  /** A length-range query of plain digits passes the whitelist and every value check. */
  lemma RangeAccepted(q: Query, min: string, max: string)
    requires q == [(Name(MinLength), Text(min)), (Name(MaxLength), Text(max))]
    requires min != [] && forall i | 0 <= i < |min| :: IsDecimalDigit(min[i])
    requires max != [] && forall i | 0 <= i < |max| :: IsDecimalDigit(max[i])
    ensures UnknownKeys(q) == [] && FirstFailure(q).None?
  {
    RangeLookups(q, min, max);
    assert q[0].0 in AllowedParams && q[1].0 in AllowedParams;
    RangeValid(q, min, max);
  }

  lemma RangeValid(q: Query, min: string, max: string)
    requires Lookup(q, Name(MinLength)) == Some(Text(min)) && Lookup(q, Name(MaxLength)) == Some(Text(max))
    requires Lookup(q, Name(IsPalindrome)).None? && Lookup(q, Name(WordCount)).None?
    requires Lookup(q, Name(ContainsCharacter)).None?
    requires min != [] && forall i | 0 <= i < |min| :: IsDecimalDigit(min[i])
    requires max != [] && forall i | 0 <= i < |max| :: IsDecimalDigit(max[i])
    ensures FirstFailure(q).None?
  {
    ParseIntOfDigits(min);
    ParseIntOfDigits(max);
    AllValidByCases(q);
  }

  /** A minimum and a maximum length given as plain digits compile to one range. */
  lemma LengthBoundsCompile(q: Query, min: string, max: string)
    requires q == [(Name(MinLength), Text(min)), (Name(MaxLength), Text(max))]
    requires min != [] && forall i | 0 <= i < |min| :: IsDecimalDigit(min[i])
    requires max != [] && forall i | 0 <= i < |max| :: IsDecimalDigit(max[i])
    ensures StructuredResult(q) ==
      Success(Filter(None, None, Some(LengthRange(Some(ValueOf(min, 10)), Some(ValueOf(max, 10)))), None))
  {
    RangeLookups(q, min, max);
    ParseIntOfDigits(min);
    ParseIntOfDigits(max);
    RangeAccepted(q, min, max);
  }

  /** min_length=5 and max_length=10 select exactly the records of length 5 to 10. */
  lemma LengthRangeExample(q: Query)
    requires q == [(Name(MinLength), Text("5")), (Name(MaxLength), Text("10"))]
    ensures StructuredResult(q).Success?
    ensures forall rec :: Matches(StructuredResult(q).value, rec) <==> 5 <= rec.properties.length <= 10
  {
    LengthBoundsCompile(q, "5", "10");
    assert ValueOf("5", 10) == 5 && ValueOf("10", 10) == 10;
  }

  /** A lower bound above the upper bound is accepted, and then selects nothing. */
  lemma InvertedRangeExample(q: Query)
    requires q == [(Name(MinLength), Text("10")), (Name(MaxLength), Text("5"))]
    ensures StructuredResult(q).Success?
    ensures forall rec :: !Matches(StructuredResult(q).value, rec)
  {
    LengthBoundsCompile(q, "10", "5");
    assert ValueOf("5", 10) == 5 && ValueOf("10", 10) == 10;
  }

  /** `parseInt` stops at the first non-digit, so word_count=3abc asks for three words. */
  lemma TrailingTextExample(q: Query)
    requires q == [(Name(WordCount), Text("3abc"))]
    ensures StructuredResult(q).Success? && StructuredResult(q).value.wordCount == Some(3)
  {
    ParseIntOfDecimal(3, "abc");
    assert Decimal(3) + "abc" == "3abc";
    NamesDistinct(IsPalindrome, WordCount);
    NamesDistinct(MinLength, WordCount);
    NamesDistinct(MaxLength, WordCount);
    NamesDistinct(ContainsCharacter, WordCount);
    assert q[0].0 in AllowedParams;
    AllValidByCases(q);
  }

  // ---------------------------------------------------------------------------
  // filterByNaturalLanguage, on "palindromic strings longer than 4 characters"
  // ---------------------------------------------------------------------------

  /** The example query is already lower case. */
  lemma ExampleIsLowerCase(a: string, b: string)
    requires a == "palindromic strings " && b == "longer than 4 characters"
    ensures ToLower(a + b) == a + b
  {
    ToLowerAppend(a, b);
    ToLowerOfLower(a);
    ToLowerOfLower(b);
  }

  lemma ExampleIsPalindromic(a: string, b: string)
    requires a == "palindromic strings "
    ensures Includes(a + b, "palindromic")
  {
    assert (a + b)[..11] == a[..11] == "palindromic";
    IncludesPrefix(a + b, "palindromic");
  }

  lemma ExampleLacksKeywords(a: string, b: string)
    requires a == "palindromic strings " && b == "longer than 4 characters"
    ensures !Includes(a + b, "single word") && !Includes(a + b, "first vowel") && !Includes(a + b, "letter z")
  {
    ExampleLacks(a, b, "single word", 7);
    ExampleLacks(a, b, "first vowel", 0);
    ExampleLacks(a, b, "letter z", 7);
  }

  lemma ExampleLacks(a: string, b: string, keyword: string, k: nat)
    requires a == "palindromic strings " && b == "longer than 4 characters"
    requires k < |keyword| && keyword[k] in "wfz"
    ensures !Includes(a + b, keyword)
  {
    assert keyword[k] !in a && keyword[k] !in b;
    NotIncludedWithoutChar(a + b, keyword, k);
  }

  /** Every match of the length pattern starts with "lo". */
  lemma LongerThanStartsLo(t: string)
    requires |t| >= 2
    ensures LongerThanAt(t) ==> t[0] == 'l' && t[1] == 'o'
  {
    if LongerThanAt(t) {
      assert t[..12] == "longer than ";
    }
  }

  lemma ExampleNoEarlierLength(a: string, b: string)
    requires a == "palindromic strings " && b == "longer than 4 characters"
    ensures forall j | 0 <= j < |a| :: !LongerThanAt((a + b)[j..])
  {
    var s := a + b;
    forall j | 0 <= j < |a| ensures !LongerThanAt(s[j..]) {
      assert s[j..][0] == a[j] && s[j..][1] == s[j + 1];
      assert !(a[j] == 'l' && s[j + 1] == 'o');
      LongerThanStartsLo(s[j..]);
    }
  }

  lemma ExampleLength(a: string, b: string)
    requires a == "palindromic strings " && b == "longer than 4 characters"
    ensures MinLengthAsked(a + b) == Some(5)
  {
    var s := a + b;
    assert s[|a|..] == b == "longer than " + "4" + " characters" + [];
    LongerThanAtOf(s[|a|..], "4", []);
    ExampleNoEarlierLength(a, b);
    FirstMatchIsLeftmost(s, LongerThanAt);
    MinLengthIsSuccessor(s);
  }

  lemma ExampleNoLetter(a: string, b: string)
    requires a == "palindromic strings " && b == "longer than 4 characters"
    ensures ContainmentAsked(a + b).None?
  {
    var s := a + b;
    assert '"' !in a && '"' !in b;
    forall i | 0 <= i <= |s| ensures !LetterAt(s[i..]) {
      if i + 24 < |s| {
        assert s[i..][24] == s[i + 24] && s[i + 24] in s;
      }
    }
    LetterAskedMeaning(s);
    ExampleLacksKeywords(a, b);
  }

  /** The two triggers combine independently, and nothing else is read into the query. */
  method NaturalLanguageExample() returns (r: Result<Interpretation, QueryError>)
    ensures r.Success?
    ensures r.value.parsed == ParsedFilters(Some(true), None, Some(5), None, None)
    ensures r.value.filter == Filter(Some(true), None, Some(LengthRange(Some(5), None)), None)
  {
    var a, b := "palindromic strings ", "longer than 4 characters";
    ExampleIsLowerCase(a, b);
    ExampleIsPalindromic(a, b);
    ExampleLacksKeywords(a, b);
    ExampleLength(a, b);
    MinLengthIsSuccessor(a + b);
    ExampleNoLetter(a, b);
    r := CompileNaturalLanguage(Some(Text(a + b)));
  }

  /** An empty query, or one given twice, is rejected. */
  method MissingQueryExample() returns (r: Result<Interpretation, QueryError>, r2: Result<Interpretation, QueryError>)
    ensures r == Failure(MissingQuery) && r2 == Failure(MissingQuery)
  {
    r := CompileNaturalLanguage(Some(Text("")));
    r2 := CompileNaturalLanguage(Some(List(["single word", "palindromic"])));
  }
}
