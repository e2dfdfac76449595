/** The handler of the StringLiteral state (Compiler/lexer/states/string_state.swift). The lexeme
    holds what has been read after the opening quote, backslashes included. */
module StringState {
  import opened Exceptions
  import opened Outcomes
  import opened Tokens
  import opened StringCharacter

  /** isStringInEscapedMode: whether the last character of str is a backslash that opens an
      escape, computed by the same flag resolveEscapeCodes keeps. */
  method IsStringInEscapedMode(str: string) returns (escaped: bool)
    ensures escaped == EscapedAfter(str)
  {
    escaped := false;
    var i := 0;
    while i < |str|
      invariant 0 <= i <= |str|
      invariant escaped == EscapedAfter(str[..i])
    {
      assert str[..i + 1][..i] == str[..i];
      if escaped {
        escaped := false;
      } else if str[i] == '\\' {
        escaped := true;
      }
      i := i + 1;
    }
    assert str[..i] == str;
  }

  /** The number of backslashes at the end of s. */
  function TrailingBackslashes(s: string): nat
    decreases |s|
  {
    if |s| == 0 || s[|s| - 1] != '\\' then 0 else TrailingBackslashes(s[..|s| - 1]) + 1
  }

  /** A string is in escaped mode exactly when it ends with an odd number of backslashes. */
  lemma {:induction false} EscapedModeIffOddRun(s: string)
    ensures EscapedAfter(s) <==> TrailingBackslashes(s) % 2 == 1
    decreases |s|
  {
    if |s| > 0 && s[|s| - 1] == '\\' {
      EscapedModeIffOddRun(s[..|s| - 1]);
    }
  }

  /** lexCharacterInString: a quote that is not escaped finishes the string with the resolution
      of the lexeme (and hands back the lexeme with the quote appended); any other character,
      an escaped quote included, is appended. */
  function LexCharacterInString(c: char, lexeme: string): (r: Result<StepResult>)
    ensures c == '"' && !EscapedAfter(lexeme) ==>
      && (r.Ok? <==> Resolution(lexeme).Ok?)
      && (r.Ok? ==> r.value == StepResult(None, Some(StringLiteralToken(Resolution(lexeme).value)), lexeme + [c]))
      && (r.Err? ==> r.error == Resolution(lexeme).error)
    ensures !(c == '"' && !EscapedAfter(lexeme)) ==> r == Ok(StepResult(StringLiteral, Nothing, lexeme + [c]))
  {
    if c == '"' && !EscapedAfter(lexeme) then
      var token :- StringLiteralTokenOf(lexeme);
      Ok(StepResult(None, Some(token), lexeme + [c]))
    else
      Ok(StepResult(StringLiteral, Nothing, lexeme + [c]))
  }

  /** A string finishes only when its last backslash is closed, so it never fails with the
      unclosed-escape error: an error is an invalid escape letter inside the lexeme. */
  lemma FinishedStringNeverUnclosed(c: char, lexeme: string)
    requires LexCharacterInString(c, lexeme).Err?
    ensures LexCharacterInString(c, lexeme).error.kind == InvalidEscapeCharacter
    ensures LexCharacterInString(c, lexeme).error.columnOffset < |lexeme|
  {
    ResolutionFails(lexeme);
  }

  /** A quote after an odd run of backslashes is part of the string. */
  lemma EscapedQuoteKept(lexeme: string)
    requires TrailingBackslashes(lexeme) % 2 == 1
    ensures LexCharacterInString('"', lexeme) == Ok(StepResult(StringLiteral, Nothing, lexeme + "\""))
  {
    EscapedModeIffOddRun(lexeme);
  }

  /** A character is written as itself, when it is neither a quote nor a backslash, or as a
      backslash pair. */
  lemma EscapeOfShape(c: char)
    ensures || (EscapeOf(c) == [c] && c != '"' && c != '\\')
            || (|EscapeOf(c)| == 2 && EscapeOf(c)[0] == '\\')
  {
  }

  /** Every quote in t follows a backslash that opens an escape, so none of them finishes a
      string literal whose body is t. */
  predicate QuotesEscaped(t: string)
    decreases |t|
  {
    |t| == 0 || (QuotesEscaped(t[..|t| - 1]) && (t[|t| - 1] == '"' ==> EscapedAfter(t[..|t| - 1])))
  }

  /** A text without quotes has none to escape. */
  lemma {:induction false} NoQuotesEscaped(t: string)
    requires '"' !in t
    ensures QuotesEscaped(t)
    decreases |t|
  {
    if |t| > 0 {
      assert t[|t| - 1] in t;
      assert forall k :: 0 <= k < |t| - 1 ==> t[..|t| - 1][k] == t[k];
      NoQuotesEscaped(t[..|t| - 1]);
    }
  }

  /** Appending the escape of one character to a text that ends outside an escape keeps its
      quotes escaped and again ends outside an escape. */
  lemma EscapeOfStep(e: string, c: char)
    requires !EscapedAfter(e) && QuotesEscaped(e)
    ensures !EscapedAfter(e + EscapeOf(c))
    ensures QuotesEscaped(e + EscapeOf(c))
  {
    var x := EscapeOf(c);
    EscapeOfShape(c);
    assert (e + x)[..|e|] == e;
    if |x| == 2 {
      assert (e + x)[..|e| + 1] == e + [x[0]];
      assert (e + [x[0]])[..|e|] == e;
    }
  }

  /** In a text written by Escape every quote is escaped, so it never finishes the string, and
      the text ends outside an escape, so a quote after it does. */
  lemma {:induction false} EscapedQuotes(s: string)
    ensures !EscapedAfter(Escape(s)) && QuotesEscaped(Escape(s))
    decreases |s|
  {
    if |s| > 0 {
      EscapedQuotes(s[..|s| - 1]);
      EscapeOfStep(Escape(s[..|s| - 1]), s[|s| - 1]);
    }
  }
}
