/** IntegerLiteralToken (Compiler/lexer/token/integer_token.swift): base selection from the
    `0x`/`0b`/`0o` prefix, the digit-by-digit conversion into a UInt64 with its overflow and
    invalid-digit errors, and the token constructor. */
module IntegerToken {
  import opened Exceptions
  import opened Outcomes
  import opened Text
  import opened Tokens

  /** The full lookup alphabet; base b uses its first b characters. */
  const Digits: string := "0123456789ABCDEF"

  /** The two-character prefix that selects a base other than 10, and "" for base 10. */
  function PrefixOf(base: nat): string {
    if base == 16 then "0x" else if base == 2 then "0b" else if base == 8 then "0o" else ""
  }

  lemma PrefixOfTwo(s: string, p: string)
    requires |p| == 2
    ensures HasPrefix(s, p) <==> |s| >= 2 && s[..2] == p
  {
    HasPrefixMeaning(s, p);
  }

  /** getBaseOf: the base a lexeme's first two characters select. */
  function GetBaseOf(lexeme: string): (base: nat)
    ensures base == 2 || base == 8 || base == 10 || base == 16
    ensures base != 10 <==> |lexeme| >= 2 && lexeme[..2] in {"0x", "0b", "0o"}
    ensures base != 10 ==> lexeme[..2] == PrefixOf(base)
  {
    PrefixOfTwo(lexeme, "0x");
    PrefixOfTwo(lexeme, "0b");
    PrefixOfTwo(lexeme, "0o");
    if HasPrefix(lexeme, "0x") then 16
    else if HasPrefix(lexeme, "0b") then 2
    else if HasPrefix(lexeme, "0o") then 8
    else 10
  }

  /** Array.firstIndex(of:): the first position of c in l, if any. */
  function FirstIndex(l: string, c: char): (r: Option<nat>)
    ensures r.Some? ==> r.value < |l|
  {
    if |l| == 0 then Nothing
    else if l[0] == c then Some(0)
    else
      match FirstIndex(l[1..], c)
      case Nothing => Nothing
      case Some(k) => Some(k + 1)
  }

  /** firstIndex finds the first occurrence, and finds none only when there is none. */
  lemma {:induction false} FirstIndexMeaning(l: string, c: char)
    ensures FirstIndex(l, c).Some? ==>
              l[FirstIndex(l, c).value] == c && forall j :: 0 <= j < FirstIndex(l, c).value ==> l[j] != c
    ensures FirstIndex(l, c).Nothing? ==> forall j :: 0 <= j < |l| ==> l[j] != c
  {
    if |l| > 0 && l[0] != c {
      FirstIndexMeaning(l[1..], c);
      assert forall j :: 1 <= j < |l| ==> l[j] == l[1..][j - 1];
    }
  }

  /** The value of character c as a digit of the base, looked up in the first base characters
      of the alphabet; Nothing when c is not such a digit. */
  function Digit(c: char, base: nat): Option<nat>
    requires base <= 16
  {
    FirstIndex(Digits[..base], c)
  }

  /** The character of digit d: `0`-`9`, then upper-case `A`-`F`. */
  function DigitChar(d: nat): char
    requires d < 16
  {
    if d < 10 then ('0' as int + d) as char else ('A' as int + d - 10) as char
  }

  lemma DigitCharValue(d: nat)
    requires d < 16
    ensures DigitValue(DigitChar(d)) == d && ToUpper(DigitChar(d)) == DigitChar(d)
  {
  }

  lemma DigitsSpelled(d: nat)
    requires d < 16
    ensures Digits[d] == DigitChar(d)
  {
    if d == 0 {} else if d == 1 {} else if d == 2 {} else if d == 3 {}
    else if d == 4 {} else if d == 5 {} else if d == 6 {} else if d == 7 {}
    else if d == 8 {} else if d == 9 {} else if d == 10 {} else if d == 11 {}
    else if d == 12 {} else if d == 13 {} else if d == 14 {} else {}
  }

  /** The lookup is a bijection between the digits below the base and their characters. */
  lemma DigitMeaning(c: char, base: nat, d: nat)
    requires 2 <= base <= 16
    ensures Digit(c, base) == Some(d) <==> d < base && c == DigitChar(d)
  {
    FirstIndexMeaning(Digits[..base], c);
    if d < base && c == DigitChar(d) {
      DigitsSpelled(d);
      var r := Digit(c, base);
      assert r.Some?;
      DigitsSpelled(r.value);
    }
    if Digit(c, base) == Some(d) {
      DigitsSpelled(d);
    }
  }

  /** The value of a character read as a digit of base 16 (`0`-`9`, `A`-`F`), or -1. This is
      the reference against which the lookup in the alphabet is checked. */
  function DigitValue(c: char): int {
    if '0' <= c <= '9' then c as int - '0' as int
    else if 'A' <= c <= 'F' then c as int - 'A' as int + 10
    else -1
  }

  /** Looking a character up among the first base characters of the alphabet finds its digit
      value exactly when that value is below the base. */
  lemma DigitLookup(c: char, base: nat)
    requires 2 <= base <= 16
    ensures Digit(c, base) == if 0 <= DigitValue(c) < base then Some(DigitValue(c) as nat) else Nothing
  {
    if 0 <= DigitValue(c) < base {
      DigitMeaning(c, base, DigitValue(c) as nat);
    } else if Digit(c, base).Some? {
      DigitMeaning(c, base, Digit(c, base).value);
    }
  }

  /** Every character other than `_` is a digit of the base. */
  predicate ValidDigits(s: string, base: nat) {
    forall i :: 0 <= i < |s| ==> s[i] == '_' || 0 <= DigitValue(s[i]) < base
  }

  /** The positional value in the base of the digits of s, underscores ignored. */
  function Value(s: string, base: nat): nat
    requires ValidDigits(s, base)
  {
    if |s| == 0 then 0
    else
      var init := s[..|s| - 1];
      assert ValidDigits(init, base) by {
        forall i | 0 <= i < |init| ensures init[i] == s[i] { }
      }
      if s[|s| - 1] == '_' then Value(init, base)
      else Value(init, base) * base + DigitValue(s[|s| - 1])
  }

  /** The conversion loop from position i of the upper-cased literal u, holding value, where
      start is the column offset of u's first character. At each character: skip `_`; fail if
      the multiplication by the base overflows; fail with the column offset if the character is
      not a digit; fail if adding the digit overflows. */
  function ConvertFrom(u: string, i: nat, base: nat, value: nat, start: nat): Result<UInt64>
    requires 2 <= base <= 16 && i <= |u| && value <= UINT64_MAX
    decreases |u| - i
  {
    if i == |u| then Ok(value)
    else if u[i] == '_' then ConvertFrom(u, i + 1, base, value, start)
    else if value * base > UINT64_MAX then Err(LexError(IntegerLiteralExceedsBounds, 0))
    else
      match Digit(u[i], base)
      case Nothing => Err(LexError(InvalidIntegerLiteral, start + i))
      case Some(d) =>
        if value * base + d > UINT64_MAX then Err(LexError(IntegerLiteralExceedsBounds, 0))
        else ConvertFrom(u, i + 1, base, value * base + d, start)
  }

  /** One turn of the conversion loop, case by case. */
  lemma ConvertStep(u: string, i: nat, base: nat, value: nat, start: nat)
    requires 2 <= base <= 16 && i < |u| && value <= UINT64_MAX
    ensures u[i] == '_' ==> ConvertFrom(u, i, base, value, start) == ConvertFrom(u, i + 1, base, value, start)
    ensures u[i] != '_' && value * base > UINT64_MAX ==>
      ConvertFrom(u, i, base, value, start) == Err(LexError(IntegerLiteralExceedsBounds, 0))
    ensures u[i] != '_' && value * base <= UINT64_MAX && Digit(u[i], base).Nothing? ==>
      ConvertFrom(u, i, base, value, start) == Err(LexError(InvalidIntegerLiteral, start + i))
    ensures u[i] != '_' && value * base <= UINT64_MAX && Digit(u[i], base).Some? ==>
      var sum := value * base + Digit(u[i], base).value;
      ConvertFrom(u, i, base, value, start) ==
        if sum > UINT64_MAX then Err(LexError(IntegerLiteralExceedsBounds, 0))
        else ConvertFrom(u, i + 1, base, sum, start)
  {
  }

  /** The specification of convertToInt: the leading-zero check, then the empty-literal check,
      then the conversion of the upper-cased literal from column 0 (decimal) or 2 (prefixed). */
  function Conversion(literal: string, base: nat): Result<UInt64>
    requires 2 <= base <= 16
  {
    if base == 10 && HasPrefix(literal, "0") && |literal| > 1 then
      Err(LexError(InvalidLeadingZeroOnIntegerLiteral, 0))
    else if |literal| == 0 then
      Err(LexError(IntegerPrefixWithoutLiteral, 2))
    else
      ConvertFrom(Uppercased(literal), 0, base, 0, if base == 10 then 0 else 2)
  }

  /** convertToInt: a loop over the upper-cased literal that accumulates the value and advances
      the column offset once per character, underscores included. */
  method ConvertToInt(literal: string, base: nat) returns (r: Result<UInt64>)
    requires 2 <= base <= 16
    ensures r == Conversion(literal, base)
  {
    if base == 10 && HasPrefix(literal, "0") && |literal| > 1 {
      return Err(LexError(InvalidLeadingZeroOnIntegerLiteral, 0));
    }
    if |literal| == 0 {
      return Err(LexError(IntegerPrefixWithoutLiteral, 2));
    }
    var start := if base == 10 then 0 else 2;
    r := ConvertDigits(Uppercased(literal), base, start);
  }

  /** The loop of convertToInt over the upper-cased literal u, whose first character sits at
      column start. */
  method ConvertDigits(u: string, base: nat, start: nat) returns (r: Result<UInt64>)
    requires 2 <= base <= 16
    ensures r == ConvertFrom(u, 0, base, 0, start)
  {
    var lookup := Digits[..base];
    var value: UInt64 := 0;
    var columnOffset := start;
    var i := 0;
    while i < |u|
      invariant 0 <= i <= |u|
      invariant columnOffset == start + i
      invariant ConvertFrom(u, i, base, value, start) == ConvertFrom(u, 0, base, 0, start)
    {
      var c := u[i];
      ConvertStep(u, i, base, value, start);
      if c != '_' {
        var product := value * base;
        if product > UINT64_MAX {
          return Err(LexError(IntegerLiteralExceedsBounds, 0));
        }
        var lookupIndex := FirstIndex(lookup, c);
        assert lookupIndex == Digit(c, base);
        if lookupIndex.Some? {
          var sum := product + lookupIndex.value;
          if sum > UINT64_MAX {
            return Err(LexError(IntegerLiteralExceedsBounds, 0));
          }
          value := sum;
        } else {
          return Err(LexError(InvalidIntegerLiteral, columnOffset));
        }
      }
      columnOffset := columnOffset + 1;
      i := i + 1;
    }
    return Ok(value);
  }

  /** calculateUnderlyingValue: decimal lexemes are converted whole, prefixed ones without
      their two prefix characters. A value comes out exactly when that body is not empty, has
      no leading zero (decimal only), holds only digits of the base and `_`, and its positional
      value fits a UInt64; the value is that positional value. */
  function CalculateUnderlyingValue(lexeme: string): (r: Result<UInt64>)
    ensures var base := GetBaseOf(lexeme);
      var body := if base == 10 then lexeme else lexeme[2..];
      r.Ok? <==>
        && |body| > 0
        && !(base == 10 && |body| > 1 && body[0] == '0')
        && ValidDigits(Uppercased(body), base)
        && Value(Uppercased(body), base) <= UINT64_MAX
    ensures var base := GetBaseOf(lexeme);
      var body := if base == 10 then lexeme else lexeme[2..];
      r.Ok? ==> ValidDigits(Uppercased(body), base) && r.value == Value(Uppercased(body), base)
  {
    var base := GetBaseOf(lexeme);
    if base == 10 then
      ConversionMeaning(lexeme, 10);
      Conversion(lexeme, 10)
    else
      ConversionMeaning(lexeme[2..], base);
      Conversion(lexeme[2..], base)
  }

  /** IntegerLiteralToken.init: the lexeme is stored verbatim, prefix and underscores included. */
  function IntegerLiteralTokenOf(lexeme: string): (r: Result<Token>)
    ensures r.Ok? <==> CalculateUnderlyingValue(lexeme).Ok?
    ensures r.Ok? ==> r.value == IntegerLiteralToken(lexeme, CalculateUnderlyingValue(lexeme).value)
    ensures r.Err? ==> r.error == CalculateUnderlyingValue(lexeme).error
  {
    var v :- CalculateUnderlyingValue(lexeme);
    Ok(IntegerLiteralToken(lexeme, v))
  }

  // ---------------------------------------------------------------------------------------
  // What the conversion computes

  lemma ValidPrefix(s: string, base: nat, k: nat)
    requires k <= |s| && ValidDigits(s, base)
    ensures ValidDigits(s[..k], base)
  {
    assert forall i :: 0 <= i < k ==> s[..k][i] == s[i];
  }

  /** Appending characters never lowers the positional value. */
  lemma {:induction false} ValueMonotone(s: string, base: nat, k: nat)
    requires 1 <= base <= 16 && k <= |s| && ValidDigits(s, base)
    ensures ValidDigits(s[..k], base) && Value(s[..k], base) <= Value(s, base)
    decreases |s|
  {
    ValidPrefix(s, base, k);
    if k == |s| {
      assert s[..k] == s;
    } else {
      var init := s[..|s| - 1];
      ValidPrefix(s, base, |s| - 1);
      ValueMonotone(init, base, k);
      assert init[..k] == s[..k];
      ValueStep(s, base);
    }
  }

  /** Dropping the last character never raises the positional value. */
  lemma ValueStep(s: string, base: nat)
    requires 1 <= base <= 16 && |s| > 0 && ValidDigits(s, base)
    ensures ValidDigits(s[..|s| - 1], base) && Value(s[..|s| - 1], base) <= Value(s, base)
  {
    ValidPrefix(s, base, |s| - 1);
    var init := s[..|s| - 1];
    if s[|s| - 1] != '_' {
      MulAtLeast(Value(init, base), base);
    }
  }

  lemma MulAtLeast(x: nat, b: nat)
    requires b >= 1
    ensures x * b >= x
  {
  }

  /** Extending a prefix of a valid digit string by one character adds that character as the
      lowest digit (or nothing, for `_`), and stays below the value of any longer prefix. */
  lemma PrefixValueStep(u: string, base: nat, i: nat, k: nat)
    requires 1 <= base <= 16 && i < k <= |u| && ValidDigits(u[..k], base)
    ensures ValidDigits(u[..i], base) && ValidDigits(u[..i + 1], base)
    ensures Value(u[..i + 1], base) ==
            if u[i] == '_' then Value(u[..i], base) else Value(u[..i], base) * base + DigitValue(u[i])
    ensures Value(u[..i + 1], base) <= Value(u[..k], base)
  {
    var p := u[..k];
    assert p[..i + 1] == u[..i + 1];
    ValueMonotone(p, base, i + 1);
    ValidPrefix(u[..i + 1], base, i);
    var t := u[..i + 1];
    assert t[..|t| - 1] == u[..i];
  }

  /** From position i onwards, with the value of the characters before i in hand, the loop
      reaches the positional value of the whole string, or reports overflow exactly when that
      value exceeds UInt64.max. */
  lemma {:induction false} ConvertFromValid(u: string, i: nat, base: nat, start: nat)
    requires 2 <= base <= 16 && i <= |u| && ValidDigits(u, base)
    requires ValidDigits(u[..i], base) && Value(u[..i], base) <= UINT64_MAX
    ensures ConvertFrom(u, i, base, Value(u[..i], base), start) ==
            if Value(u, base) <= UINT64_MAX then Ok(Value(u, base))
            else Err(LexError(IntegerLiteralExceedsBounds, 0))
    decreases |u| - i
  {
    assert u[..|u|] == u;
    if i < |u| {
      PrefixValueStep(u, base, i, |u|);
      DigitLookup(u[i], base);
      if u[i] == '_' || Value(u[..i + 1], base) <= UINT64_MAX {
        ConvertFromValid(u, i + 1, base, start);
      }
    }
  }

  /** When every character is a digit or `_`, the conversion yields the positional value,
      failing with integerLiteralExceedsBounds exactly when it exceeds UInt64.max. */
  lemma ConvertFromAllDigits(u: string, base: nat, start: nat)
    requires 2 <= base <= 16 && ValidDigits(u, base)
    ensures ConvertFrom(u, 0, base, 0, start) ==
            if Value(u, base) <= UINT64_MAX then Ok(Value(u, base))
            else Err(LexError(IntegerLiteralExceedsBounds, 0))
  {
    ValidPrefix(u, base, 0);
    assert u[..0] == [];
    ConvertFromValid(u, 0, base, start);
  }

  /** At the first character k that is neither `_` nor a digit, the loop fails: with
      integerLiteralExceedsBounds when the value so far times the base overflows (that check
      comes first), and otherwise with invalidIntegerLiteral at column start + k. */
  lemma {:induction false} ConvertFromInvalid(u: string, i: nat, base: nat, start: nat, k: nat)
    requires 2 <= base <= 16 && i <= k < |u|
    requires ValidDigits(u[..k], base) && u[k] != '_' && !(0 <= DigitValue(u[k]) < base)
    requires ValidDigits(u[..i], base) && Value(u[..i], base) <= UINT64_MAX
    ensures ConvertFrom(u, i, base, Value(u[..i], base), start) ==
            if Value(u[..k], base) * base > UINT64_MAX
            then Err(LexError(IntegerLiteralExceedsBounds, 0))
            else Err(LexError(InvalidIntegerLiteral, start + k))
    decreases k - i
  {
    DigitLookup(u[i], base);
    if i < k {
      PrefixValueStep(u, base, i, k);
      if u[i] == '_' || Value(u[..i + 1], base) <= UINT64_MAX {
        ConvertFromInvalid(u, i + 1, base, start, k);
      } else {
        MulAtLeast(Value(u[..k], base), base);
      }
    }
  }

  /** Upper-casing leaves `_` where it was. */
  lemma UnderscoreUppercased(s: string, k: nat)
    requires k < |s|
    ensures Uppercased(s)[k] == '_' <==> s[k] == '_'
  {
  }

  /** The first invalid character of the literal decides the error: exceeds-bounds if the value
      before it times the base overflows, else invalidIntegerLiteral at its column. */
  lemma ConversionInvalidDigit(literal: string, base: nat, k: nat)
    requires 2 <= base <= 16 && k < |literal|
    requires !(base == 10 && HasPrefix(literal, "0") && |literal| > 1)
    requires ValidDigits(Uppercased(literal)[..k], base)
    requires literal[k] != '_' && !(0 <= DigitValue(Uppercased(literal)[k]) < base)
    ensures Conversion(literal, base) ==
            if Value(Uppercased(literal)[..k], base) * base > UINT64_MAX
            then Err(LexError(IntegerLiteralExceedsBounds, 0))
            else Err(LexError(InvalidIntegerLiteral, (if base == 10 then 0 else 2) + k))
  {
    var u := Uppercased(literal);
    assert u[..0] == [];
    ValueMonotone(u[..k], base, 0);
    assert u[..k][..0] == [];
    ConvertFromInvalid(u, 0, base, if base == 10 then 0 else 2, k);
  }

  /** Upper-casing makes digits case-insensitive: literals that agree up to case convert alike. */
  lemma ConversionCaseInsensitive(a: string, b: string, base: nat)
    requires 2 <= base <= 16 && Uppercased(a) == Uppercased(b)
    ensures Conversion(a, base) == Conversion(b, base)
  {
    assert |a| == |b|;
    HasPrefixMeaning(a, "0");
    HasPrefixMeaning(b, "0");
    if |a| > 0 {
      assert Uppercased(a)[0] == Uppercased(b)[0];
      assert ToUpper(a[0]) == '0' <==> a[0] == '0';
      assert ToUpper(b[0]) == '0' <==> b[0] == '0';
    }
  }

  /** The checks come in order: a decimal literal longer than one character that starts with
      `0` fails with invalidLeadingZero whatever follows; an empty literal fails with
      integerPrefixWithoutLiteral at column 2. */
  lemma ConversionGuards(literal: string, base: nat)
    requires 2 <= base <= 16
    ensures base == 10 && |literal| > 1 && literal[0] == '0' ==>
            Conversion(literal, base) == Err(LexError(InvalidLeadingZeroOnIntegerLiteral, 0))
    ensures |literal| == 0 ==>
            Conversion(literal, base) == Err(LexError(IntegerPrefixWithoutLiteral, 2))
  {
    HasPrefixMeaning(literal, "0");
    if |literal| > 1 && literal[0] == '0' {
      assert literal[..1] == "0";
    }
  }

  /** A literal of digits and underscores converts to its positional value, or fails with
      exceeds-bounds exactly when that value does not fit a UInt64. */
  lemma ConversionAllDigits(literal: string, base: nat)
    requires 2 <= base <= 16 && |literal| > 0
    requires !(base == 10 && |literal| > 1 && literal[0] == '0')
    requires ValidDigits(Uppercased(literal), base)
    ensures Conversion(literal, base) ==
            if Value(Uppercased(literal), base) <= UINT64_MAX then Ok(Value(Uppercased(literal), base))
            else Err(LexError(IntegerLiteralExceedsBounds, 0))
  {
    HasPrefixMeaning(literal, "0");
    if |literal| > 1 && HasPrefix(literal, "0") {
      assert literal[..1] == "0";
    }
    ConvertFromAllDigits(Uppercased(literal), base, if base == 10 then 0 else 2);
  }

  /** From position i onwards, with the value of the characters before i in hand, a loop that
      runs to the end has met only digits of the base and `_`. */
  lemma {:induction false} ConvertFromOk(u: string, i: nat, base: nat, start: nat)
    requires 2 <= base <= 16 && i <= |u|
    requires ValidDigits(u[..i], base) && Value(u[..i], base) <= UINT64_MAX
    requires ConvertFrom(u, i, base, Value(u[..i], base), start).Ok?
    ensures ValidDigits(u, base)
    decreases |u| - i
  {
    if i == |u| {
      assert u[..i] == u;
    } else {
      var p := u[..i + 1];
      ConvertStep(u, i, base, Value(u[..i], base), start);
      DigitLookup(u[i], base);
      assert p[..|p| - 1] == u[..i];
      assert ValidDigits(p, base) by {
        forall j | 0 <= j < |p| ensures p[j] == '_' || 0 <= DigitValue(p[j]) < base {
          if j < i {
            assert p[j] == u[..i][j];
          }
        }
      }
      ConvertFromOk(u, i + 1, base, start);
    }
  }

  /** The conversion succeeds exactly when the literal is not empty, has no leading zero
      (decimal only), holds only digits of the base and `_` in either case, and its positional
      value fits a UInt64; the value is then that positional value. */
  lemma ConversionMeaning(literal: string, base: nat)
    requires 2 <= base <= 16
    ensures Conversion(literal, base).Ok? <==>
      && |literal| > 0
      && !(base == 10 && |literal| > 1 && literal[0] == '0')
      && ValidDigits(Uppercased(literal), base)
      && Value(Uppercased(literal), base) <= UINT64_MAX
    ensures Conversion(literal, base).Ok? ==>
      ValidDigits(Uppercased(literal), base) && Conversion(literal, base).value == Value(Uppercased(literal), base)
  {
    ConversionGuards(literal, base);
    var u := Uppercased(literal);
    if Conversion(literal, base).Ok? {
      assert u[..0] == [];
      ConvertFromOk(u, 0, base, if base == 10 then 0 else 2);
    }
    if |literal| > 0 && !(base == 10 && |literal| > 1 && literal[0] == '0') && ValidDigits(u, base) {
      ConversionAllDigits(literal, base);
    }
  }

  // ---------------------------------------------------------------------------------------
  // The token constructor on whole lexemes

  /** A prefix with nothing after it fails with integerPrefixWithoutLiteral at column 2. */
  lemma PrefixWithoutLiteral(base: nat)
    requires base == 2 || base == 8 || base == 16
    ensures IntegerLiteralTokenOf(PrefixOf(base)) == Err(LexError(IntegerPrefixWithoutLiteral, 2))
  {
    assert PrefixOf(base)[..2] == PrefixOf(base);
    assert PrefixOf(base)[2..] == [];
  }

  /** A decimal lexeme longer than one character that starts with `0` fails with
      invalidLeadingZero; the lexeme "0" alone is the value 0. */
  lemma LeadingZero(lexeme: string)
    requires |lexeme| > 1 && lexeme[0] == '0' && lexeme[1] != 'x' && lexeme[1] != 'b' && lexeme[1] != 'o'
    ensures IntegerLiteralTokenOf(lexeme) == Err(LexError(InvalidLeadingZeroOnIntegerLiteral, 0))
    ensures IntegerLiteralTokenOf("0") == Ok(IntegerLiteralToken("0", 0))
  {
    assert lexeme[..2][1] == lexeme[1];
    ConversionGuards(lexeme, 10);
    var z := "0";
    assert GetBaseOf(z) == 10;
    assert Uppercased(z) == z;
    assert ValidDigits(z, 10);
    assert z[..|z| - 1] == [];
    ConversionAllDigits(z, 10);
  }

  /** The lexeme of a prefixed literal whose body has an invalid character at index k of the
      lexeme (underscores counted) fails with invalidIntegerLiteral at column k, unless the
      digits before it already overflow. */
  lemma PrefixedInvalidDigit(lexeme: string, k: nat)
    requires 2 <= k < |lexeme| && GetBaseOf(lexeme) != 10
    requires ValidDigits(Uppercased(lexeme[2..])[..k - 2], GetBaseOf(lexeme))
    requires lexeme[k] != '_' && !(0 <= DigitValue(ToUpper(lexeme[k])) < GetBaseOf(lexeme))
    requires Value(Uppercased(lexeme[2..])[..k - 2], GetBaseOf(lexeme)) * GetBaseOf(lexeme) <= UINT64_MAX
    ensures IntegerLiteralTokenOf(lexeme) == Err(LexError(InvalidIntegerLiteral, k))
  {
    var body := lexeme[2..];
    assert body[k - 2] == lexeme[k];
    ConversionInvalidDigit(body, GetBaseOf(lexeme), k - 2);
  }

  // ---------------------------------------------------------------------------------------
  // Round trip: printing a value in a base and converting it back

  /** The digits of v in the base, most significant first, with no underscores. */
  function Encode(v: nat, base: nat): (s: string)
    requires 2 <= base <= 16
    ensures |s| > 0
    decreases v
  {
    if v < base then [DigitChar(v)] else Encode(v / base, base) + [DigitChar(v % base)]
  }

  /** Every character of an encoding is an upper-case digit below the base, and the encoding of
      a non-zero value does not start with `0`. */
  lemma {:induction false} EncodeDigits(v: nat, base: nat)
    requires 2 <= base <= 16
    ensures forall i :: 0 <= i < |Encode(v, base)| ==>
              0 <= DigitValue(Encode(v, base)[i]) < base && ToUpper(Encode(v, base)[i]) == Encode(v, base)[i]
    ensures Encode(v, base)[0] == '0' ==> v == 0
    decreases v
  {
    if v < base {
      DigitCharValue(v);
    } else {
      EncodeDigits(v / base, base);
      DigitCharValue(v % base);
      var s := Encode(v, base);
      var h := Encode(v / base, base);
      assert s == h + [DigitChar(v % base)];
      assert forall i :: 0 <= i < |h| ==> s[i] == h[i];
      assert s[0] == h[0];
    }
  }

  /** Digits are already upper case. */
  lemma EncodeUppercased(v: nat, base: nat)
    requires 2 <= base <= 16
    ensures Uppercased(Encode(v, base)) == Encode(v, base)
  {
    EncodeDigits(v, base);
  }

  /** An encoding is a valid digit string whose positional value is v. */
  lemma {:induction false} EncodeValue(v: nat, base: nat)
    requires 2 <= base <= 16
    ensures ValidDigits(Encode(v, base), base) && Value(Encode(v, base), base) == v
    decreases v
  {
    EncodeDigits(v, base);
    var s := Encode(v, base);
    if v < base {
      DigitCharValue(v);
      assert s[..|s| - 1] == [];
    } else {
      var q, r := v / base, v % base;
      DivStep(v, base);
      EncodeValue(q, base);
      var h := Encode(q, base);
      DigitCharValue(r);
      assert s == h + [DigitChar(r)];
      assert s[..|s| - 1] == h;
      assert Value(s, base) == Value(h, base) * base + r;
    }
  }

  lemma DivStep(v: nat, base: nat)
    requires 2 <= base <= v
    ensures v / base < v && (v / base) * base + v % base == v && v % base < base
  {
  }

  /** A lexeme whose second character is a decimal digit has no base prefix. */
  lemma DecimalDigitsBase(e: string)
    requires |e| >= 2 ==> 0 <= DigitValue(e[1]) < 10
    ensures GetBaseOf(e) == 10
  {
    if |e| >= 2 {
      assert e[..2][1] == e[1];
    }
  }

  lemma DecimalRoundTrip(v: UInt64)
    ensures CalculateUnderlyingValue(Encode(v, 10)) == Ok(v)
  {
    var e := Encode(v, 10);
    EncodeValue(v, 10);
    EncodeUppercased(v, 10);
    EncodeDigits(v, 10);
    DecimalDigitsBase(e);
    assert v == 0 ==> |e| == 1;
    ConversionAllDigits(e, 10);
  }

  lemma PrefixedRoundTrip(v: UInt64, base: nat)
    requires base == 2 || base == 8 || base == 16
    ensures CalculateUnderlyingValue(PrefixOf(base) + Encode(v, base)) == Ok(v)
  {
    var e := Encode(v, base);
    var lexeme := PrefixOf(base) + e;
    EncodeValue(v, base);
    EncodeUppercased(v, base);
    assert lexeme[..2] == PrefixOf(base);
    assert lexeme[2..] == e;
    ConversionAllDigits(e, base);
  }

  /** Converting the prefix of a base followed by the digits of v in that base gives back v,
      for every UInt64 and every one of the four bases, and the token keeps that lexeme. */
  lemma RoundTrip(v: UInt64, base: nat)
    requires base == 2 || base == 8 || base == 10 || base == 16
    ensures CalculateUnderlyingValue(PrefixOf(base) + Encode(v, base)) == Ok(v)
    ensures IntegerLiteralTokenOf(PrefixOf(base) + Encode(v, base)) ==
            Ok(IntegerLiteralToken(PrefixOf(base) + Encode(v, base), v))
  {
    if base == 10 {
      assert PrefixOf(base) + Encode(v, base) == Encode(v, 10);
      DecimalRoundTrip(v);
    } else {
      PrefixedRoundTrip(v, base);
    }
  }
}
