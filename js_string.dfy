/**
 * The JavaScript string built-ins the analyser and the controller rely on:
 * `\s` and `trim`, `toLowerCase`, `split(/\s+/)`, `includes`, the leftmost
 * search of `match`, `parseInt`, and the string form of a query value.
 * A Dafny `char` stands for one UTF-16 code unit outside the surrogate
 * range; strings holding surrogates, paired or lone, are outside the model.
 */
module JsString {
  import opened Results

  // ---------------------------------------------------------------------------
  // Characters
  // ---------------------------------------------------------------------------

  /** The ECMAScript WhiteSpace and LineTerminator code points: what `\s` matches and what `trim` strips. */
  predicate IsWhitespace(c: char) {
    if c <= ' ' then '\t' <= c <= '\r' || c == ' '
    else if c < '\U{00A0}' then false
    else
      || c == '\U{00A0}' || c == '\U{1680}'
      || ('\U{2000}' <= c <= '\U{200A}')
      || c == '\U{2028}' || c == '\U{2029}' || c == '\U{202F}' || c == '\U{205F}'
      || c == '\U{3000}' || c == '\U{FEFF}'
  }

  predicate IsUpperAscii(c: char) {
    'A' <= c <= 'Z'
  }

  /** `toLowerCase` on one character, for the ASCII letters. */
  function LowerChar(c: char): char {
    if IsUpperAscii(c) then (c as int + 32) as char else c
  }

  /** `s.toLowerCase()`: every character lowered, nothing added or removed. */
  function ToLower(s: string): string {
    seq(|s|, i requires 0 <= i < |s| => LowerChar(s[i]))
  }

  lemma ToLowerAppend(a: string, b: string)
    ensures ToLower(a + b) == ToLower(a) + ToLower(b)
  {
  }

  /** Text without capital letters is its own lower-case form. */
  lemma ToLowerOfLower(s: string)
    requires forall i | 0 <= i < |s| :: !IsUpperAscii(s[i])
    ensures ToLower(s) == s
  {
  }

  /** Lowering twice is lowering once. */
  lemma ToLowerIdempotent(s: string)
    ensures ToLower(ToLower(s)) == ToLower(s)
  {
  }

  // ---------------------------------------------------------------------------
  // trim and split(/\s+/)
  // ---------------------------------------------------------------------------

  /** Drops the leading whitespace of `s`. */
  function TrimStart(s: string): (r: string)
    ensures |r| <= |s| && r == s[|s| - |r|..]
    ensures r == [] || !IsWhitespace(r[0])
    ensures forall i | 0 <= i < |s| - |r| :: IsWhitespace(s[i])
  {
    if s != [] && IsWhitespace(s[0]) then TrimStart(s[1..]) else s
  }

  /** Drops the trailing whitespace of `s`. */
  function TrimEnd(s: string): (r: string)
    ensures |r| <= |s| && r == s[..|r|]
    ensures r == [] || !IsWhitespace(r[|r| - 1])
    ensures forall i | |r| <= i < |s| :: IsWhitespace(s[i])
  {
    if s != [] && IsWhitespace(s[|s| - 1]) then TrimEnd(s[..|s| - 1]) else s
  }

  /** `s.trim()`. */
  function Trim(s: string): string {
    TrimEnd(TrimStart(s))
  }

  /** `trim` gives the empty string exactly when every character is whitespace. */
  lemma TrimEmptyIff(s: string)
    ensures Trim(s) == [] <==> forall i | 0 <= i < |s| :: IsWhitespace(s[i])
  {
  }

  /**
   * `s.split(/\s+/)`, with `piece` the text of the piece being collected:
   * every maximal run of whitespace ends one piece and starts the next, so
   * leading or trailing whitespace yields an empty first or last piece, and
   * the empty string yields one empty piece.
   */
  function SplitFrom(s: string, piece: string): (r: seq<string>)
    ensures |r| >= 1
    decreases |s|
  {
    if s == [] then [piece]
    else if IsWhitespace(s[0]) then [piece] + SplitFrom(TrimStart(s[1..]), [])
    else SplitFrom(s[1..], piece + [s[0]])
  }

  function SplitOnWhitespace(s: string): seq<string> {
    SplitFrom(s, [])
  }

  // ---------------------------------------------------------------------------
  // includes and the leftmost search of a regular expression
  // ---------------------------------------------------------------------------

  predicate StartsWith(s: string, prefix: string) {
    |prefix| <= |s| && s[..|prefix|] == prefix
  }

  /**
   * The first index at which the suffix of `s` satisfies `here`: the position
   * at which a search that tries every start index in turn, as `includes`
   * and `match` do, first succeeds.
   */
  function FirstMatch(s: string, here: string -> bool): Option<nat> {
    if here(s) then Some(0)
    else if s == [] then None
    else
      match FirstMatch(s[1..], here)
      case None => None
      case Some(k) => Some(k + 1)
  }

  /** The search finds the leftmost start index that succeeds, and finds none only when none does. */
  lemma {:induction false} FirstMatchIsLeftmost(s: string, here: string -> bool)
    ensures FirstMatch(s, here).Some? ==>
      var i := FirstMatch(s, here).value;
      i <= |s| && here(s[i..]) && forall j | 0 <= j < i :: !here(s[j..])
    ensures FirstMatch(s, here).None? ==> forall j | 0 <= j <= |s| :: !here(s[j..])
  {
    if !here(s) && s != [] {
      FirstMatchIsLeftmost(s[1..], here);
      assert s[0..] == s;
      assert forall j | 1 <= j <= |s| :: s[j..] == s[1..][j - 1..];
    }
  }

  /** `s.includes(needle)`. */
  predicate Includes(s: string, needle: string) {
    FirstMatch(s, t => StartsWith(t, needle)).Some?
  }

  /** `needle` occurs in `s` starting at index `i`. */
  predicate OccursAt(s: string, needle: string, i: int) {
    0 <= i <= |s| - |needle| && s[i..i + |needle|] == needle
  }

  /** `includes` holds exactly when `needle` occurs at some index of `s`. */
  lemma IncludesIff(s: string, needle: string)
    ensures Includes(s, needle) <==> exists i :: OccursAt(s, needle, i)
  {
    var m := FirstMatch(s, t => StartsWith(t, needle));
    FirstMatchIsLeftmost(s, t => StartsWith(t, needle));
    if m.Some? {
      var i := m.value;
      assert s[i..][..|needle|] == s[i..i + |needle|];
      assert OccursAt(s, needle, i);
    } else {
      forall i | 0 <= i <= |s| - |needle| ensures !OccursAt(s, needle, i) {
        assert !StartsWith(s[i..], needle);
        assert s[i..][..|needle|] == s[i..i + |needle|];
      }
    }
  }

  /** A needle with a character that `s` lacks is not included in `s`. */
  lemma NotIncludedWithoutChar(s: string, needle: string, k: nat)
    requires k < |needle| && needle[k] !in s
    ensures !Includes(s, needle)
  {
    IncludesIff(s, needle);
    forall i | 0 <= i <= |s| - |needle| ensures !OccursAt(s, needle, i) {
    }
  }

  /** A prefix of `s` is included in `s`. */
  lemma IncludesPrefix(s: string, needle: string)
    requires StartsWith(s, needle)
    ensures Includes(s, needle)
  {
  }

  // ---------------------------------------------------------------------------
  // parseInt
  // ---------------------------------------------------------------------------

  predicate IsDecimalDigit(c: char) {
    '0' <= c <= '9'
  }

  /** A digit of base 10 or 16, in either case for the letters. */
  predicate IsRadixDigit(c: char, radix: nat) {
    IsDecimalDigit(c) || (radix == 16 && ('a' <= c <= 'f' || 'A' <= c <= 'F'))
  }

  function DigitValue(c: char): nat {
    if IsDecimalDigit(c) then c as int - '0' as int
    else if 'a' <= c <= 'f' then c as int - 'a' as int + 10
    else if 'A' <= c <= 'F' then c as int - 'A' as int + 10
    else 0
  }

  /** The longest prefix of `s` made of digits of `radix`. */
  function DigitPrefix(s: string, radix: nat): (r: string)
    ensures StartsWith(s, r)
    ensures forall i | 0 <= i < |r| :: IsRadixDigit(r[i], radix)
    ensures |r| == |s| || !IsRadixDigit(s[|r|], radix)
  {
    if s != [] && IsRadixDigit(s[0], radix) then [s[0]] + DigitPrefix(s[1..], radix) else []
  }

  /** The number the digits `d` denote in base `radix`, most significant first. */
  function ValueOf(d: string, radix: nat): nat {
    if d == [] then 0 else ValueOf(d[..|d| - 1], radix) * radix + DigitValue(d[|d| - 1])
  }

  predicate HasHexPrefix(s: string) {
    |s| >= 2 && s[0] == '0' && (s[1] == 'x' || s[1] == 'X')
  }

  /** The digits after the sign: base 16 after a `0x`/`0X` prefix, base 10 otherwise. */
  function ParseMagnitude(s: string): Option<nat> {
    var radix := if HasHexPrefix(s) then 16 else 10;
    var digits := DigitPrefix(if HasHexPrefix(s) then s[2..] else s, radix);
    if digits == [] then None else Some(ValueOf(digits, radix))
  }

  function Negated(m: Option<nat>): Option<int> {
    match m
    case None => None
    case Some(v) => var magnitude: int := v; Some(-magnitude)
  }

  /**
   * `parseInt(s)` with no radix argument: skip leading whitespace, take an
   * optional sign, then read the magnitude; no digit at all is NaN (`None`),
   * and whatever follows the digits is ignored.
   */
  function ParseInt(s: string): Option<int> {
    var t := TrimStart(s);
    if t != [] && t[0] == '-' then
      Negated(ParseMagnitude(t[1..]))
    else if t != [] && t[0] == '+' then ParseMagnitude(t[1..])
    else ParseMagnitude(t)
  }

  /** Decimal numerals, most significant digit first, without leading zeros. */
  function DecimalDigits(n: nat): (r: string)
    ensures |r| > 0
    ensures forall i | 0 <= i < |r| :: IsDecimalDigit(r[i])
    ensures r[0] == '0' ==> n == 0 && r == "0"
  {
    var last := ('0' as int + n % 10) as char;
    if n < 10 then [last] else DecimalDigits(n / 10) + [last]
  }

  /** The decimal numeral of `n`, with `-` in front when it is negative. */
  function Decimal(n: int): string {
    if n < 0 then "-" + DecimalDigits(-n) else DecimalDigits(n)
  }

  lemma {:induction false} ValueOfDecimalDigits(n: nat)
    ensures ValueOf(DecimalDigits(n), 10) == n
  {
    var d := DecimalDigits(n);
    if n >= 10 {
      ValueOfDecimalDigits(n / 10);
      assert d[..|d| - 1] == DecimalDigits(n / 10);
    }
  }

  /** The digit prefix of a run of digits followed by a non-digit is that run. */
  lemma {:induction false} DigitPrefixOfDigits(d: string, rest: string, radix: nat)
    requires forall i | 0 <= i < |d| :: IsRadixDigit(d[i], radix)
    requires rest == [] || !IsRadixDigit(rest[0], radix)
    ensures DigitPrefix(d + rest, radix) == d
  {
    if d != [] {
      assert (d + rest)[1..] == d[1..] + rest;
      DigitPrefixOfDigits(d[1..], rest, radix);
    }
  }

  lemma ParseMagnitudeOfDecimal(n: nat, rest: string)
    requires rest == [] || (!IsDecimalDigit(rest[0]) && (n == 0 ==> rest[0] != 'x' && rest[0] != 'X'))
    ensures ParseMagnitude(DecimalDigits(n) + rest) == Some(n)
  {
    var digits := DecimalDigits(n);
    ValueOfDecimalDigits(n);
    DigitPrefixOfDigits(digits, rest, 10);
    assert !HasHexPrefix(digits + rest) by {
      if |digits + rest| >= 2 && digits[0] == '0' {
        assert (digits + rest)[1] == rest[0];
      }
    }
  }

  lemma ParseIntOfUnsigned(s: string)
    requires s != [] && IsDecimalDigit(s[0])
    ensures ParseInt(s) == ParseMagnitude(s)
  {
    assert TrimStart(s) == s;
  }

  lemma ParseIntOfNegative(s: string, u: string)
    requires s == "-" + u
    ensures ParseInt(s) == Negated(ParseMagnitude(u))
  {
    assert TrimStart(s) == s;
    assert s[1..] == u;
  }

  /**
   * `parseInt` reads back the decimal numeral of any integer, also when other
   * text follows it ("12abc" and "12x" give 12), provided that text does not
   * continue the numeral or turn "0" into a hexadecimal prefix.
   */
  lemma ParseIntOfDecimal(n: int, rest: string)
    requires rest == [] || (!IsDecimalDigit(rest[0]) && (n == 0 ==> rest[0] != 'x' && rest[0] != 'X'))
    ensures ParseInt(Decimal(n) + rest) == Some(n)
  {
    if n < 0 {
      ParseIntOfNegativeDecimal(n, rest);
    } else {
      ParseIntOfPlainDecimal(n, rest);
    }
  }

  lemma ParseIntOfNegativeDecimal(n: int, rest: string)
    requires n < 0
    requires rest == [] || !IsDecimalDigit(rest[0])
    ensures ParseInt(Decimal(n) + rest) == Some(n)
  {
    var m: nat := -n;
    var digits := DecimalDigits(m) + rest;
    DecimalOfNegative(n, rest);
    ParseMagnitudeOfDecimal(m, rest);
    ParseIntOfNegative(Decimal(n) + rest, digits);
    assert Negated(Some(m)) == Some(n);
  }

  lemma DecimalOfNegative(n: int, rest: string)
    requires n < 0
    ensures Decimal(n) + rest == "-" + (DecimalDigits(-n) + rest)
  {}

  lemma ParseIntOfPlainDecimal(n: nat, rest: string)
    requires rest == [] || (!IsDecimalDigit(rest[0]) && (n == 0 ==> rest[0] != 'x' && rest[0] != 'X'))
    ensures ParseInt(DecimalDigits(n) + rest) == Some(n)
  {
    var s := DecimalDigits(n) + rest;
    ParseMagnitudeOfDecimal(n, rest);
    assert s[0] == DecimalDigits(n)[0];
    ParseIntOfUnsigned(s);
  }

  lemma ParseMagnitudeOfDigits(d: string)
    requires |d| > 0 && forall i | 0 <= i < |d| :: IsDecimalDigit(d[i])
    ensures ParseMagnitude(d) == Some(ValueOf(d, 10))
  {
    DigitPrefixOfDigits(d, [], 10);
    assert d + [] == d;
    assert !HasHexPrefix(d) by {
      if |d| >= 2 { assert IsDecimalDigit(d[1]); }
    }
  }

  /** `parseInt` of a non-empty run of decimal digits is the number they denote. */
  lemma ParseIntOfDigits(d: string)
    requires |d| > 0 && forall i | 0 <= i < |d| :: IsDecimalDigit(d[i])
    ensures ParseInt(d) == Some(ValueOf(d, 10))
  {
    ParseMagnitudeOfDigits(d);
    ParseIntOfUnsigned(d);
  }

  /** Text that starts with neither whitespace, a sign nor a digit is NaN. */
  lemma ParseIntOfNonNumeric(s: string)
    requires s != [] && !IsWhitespace(s[0]) && !IsDecimalDigit(s[0]) && s[0] != '-' && s[0] != '+'
    ensures ParseInt(s).None?
  {
    assert TrimStart(s) == s;
    assert !HasHexPrefix(s);
  }

  /** Leading whitespace is what `trim` and `parseInt` skip first. */
  lemma {:induction false} TrimStartSkipsWhitespace(w: string, s: string)
    requires forall i | 0 <= i < |w| :: IsWhitespace(w[i])
    ensures TrimStart(w + s) == TrimStart(s)
  {
    if w != [] {
      assert (w + s)[1..] == w[1..] + s;
      TrimStartSkipsWhitespace(w[1..], s);
    } else {
      assert w + s == s;
    }
  }

  /** `parseInt` skips leading whitespace. */
  lemma ParseIntSkipsWhitespace(w: string, s: string)
    requires forall i | 0 <= i < |w| :: IsWhitespace(w[i])
    ensures ParseInt(w + s) == ParseInt(s)
  {
    TrimStartSkipsWhitespace(w, s);
  }

  // ---------------------------------------------------------------------------
  // String conversion of an array
  // ---------------------------------------------------------------------------

  /** `items.join(",")`, which is also `String(items)`. */
  function JoinWithCommas(items: seq<string>): string {
    if items == [] then []
    else if |items| == 1 then items[0]
    else items[0] + "," + JoinWithCommas(items[1..])
  }
}
