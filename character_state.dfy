/** The handler of the CharacterLiteral state (Compiler/lexer/states/character_state.swift). The
    lexeme holds what has been read after the opening quote, backslashes included. */
module CharacterState {
  import opened Text
  import opened Exceptions
  import opened Outcomes
  import opened Tokens
  import opened StringCharacter

  /** The closing quote, after one character or after a backslash pair. */
  predicate Closes(c: char, lexeme: string) {
    c == '\'' && (|lexeme| == 1 || (|lexeme| == 2 && HasPrefix(lexeme, "\\")))
  }

  /** lexCharacterInCharacter: the first character, or the one after an initial backslash, is
      kept; a quote after one character, or after a backslash pair, finishes the literal; any
      other character fails with invalidCharacterLiteral one column past the lexeme. The
      conversion to a single Character never stops the program here: the lexemes it is given
      resolve to exactly one character or fail with invalidEscapeCharacter. */
  function LexCharacterInCharacter(c: char, lexeme: string): (r: Outcome<StepResult>)
    ensures !r.Trapped?
    ensures |lexeme| == 0 || lexeme == "\\" ==> r == Done(StepResult(CharacterLiteral, Nothing, lexeme + [c]))
    ensures lexeme != "\\" && Closes(c, lexeme) ==>
      && (r.Done? <==> Resolution(lexeme).Ok?)
      && (r.Done? ==> r.value == StepResult(None, Some(CharacterLiteralToken(Resolution(lexeme).value[0])), ""))
      && (r.Thrown? ==> r.error == Resolution(lexeme).error)
    ensures |lexeme| > 0 && lexeme != "\\" && !Closes(c, lexeme) ==>
      r == Thrown(LexError(InvalidCharacterLiteral, |lexeme| + 1))
    ensures r.Done? && r.value.state == CharacterLiteral ==>
      r.value.lexeme == lexeme + [c] && |r.value.lexeme| <= 2 && r.value.token == Nothing
    ensures r.Thrown? ==>
      || r.error == LexError(InvalidCharacterLiteral, |lexeme| + 1)
      || (r.error == LexError(InvalidEscapeCharacter, 1) && |lexeme| == 2 && lexeme[0] == '\\'
          && EscapedChar(lexeme[1]).Nothing?)
  {
    if |lexeme| == 0 || (|lexeme| == 1 && lexeme == "\\") then
      Done(StepResult(CharacterLiteral, Nothing, lexeme + [c]))
    else if Closes(c, lexeme) then
      FinishedResolves(lexeme);
      var token :- CharacterLiteralTokenOf(lexeme);
      Done(StepResult(None, Some(token), ""))
    else
      Thrown(LexError(InvalidCharacterLiteral, |lexeme| + 1))
  }

  /** A lexeme the handler finishes on resolves to one character: itself when it is one
      character, the escaped character when it is a valid backslash pair; an invalid pair fails
      at its letter. */
  lemma FinishedResolves(lexeme: string)
    requires (|lexeme| == 1 && lexeme != "\\") || (|lexeme| == 2 && HasPrefix(lexeme, "\\"))
    ensures |lexeme| == 1 ==> Resolution(lexeme) == Ok(lexeme)
    ensures |lexeme| == 2 && EscapedChar(lexeme[1]).Some? ==> Resolution(lexeme) == Ok([EscapedChar(lexeme[1]).value])
    ensures |lexeme| == 2 && EscapedChar(lexeme[1]).Nothing? ==> Resolution(lexeme) == Err(LexError(InvalidEscapeCharacter, 1))
  {
    if |lexeme| == 1 {
      assert lexeme == [lexeme[0]];
      SingleResolution(lexeme[0]);
    } else {
      HasPrefixMeaning(lexeme, "\\");
      assert lexeme == ['\\', lexeme[1]];
      PairResolution(lexeme[1]);
    }
  }

  /** The literals `'a'` and `'\n'`: the closing quote finishes them with their character. */
  lemma FinishedCharacters(c: char, e: char)
    requires c != '\\' && EscapedChar(e).Some?
    ensures LexCharacterInCharacter('\'', [c]) == Done(StepResult(None, Some(CharacterLiteralToken(c)), ""))
    ensures LexCharacterInCharacter('\'', ['\\', e]) ==
      Done(StepResult(None, Some(CharacterLiteralToken(EscapedChar(e).value)), ""))
  {
    FinishedResolves([c]);
    assert HasPrefix(['\\', e], "\\") by {
      HasPrefixMeaning(['\\', e], "\\");
    }
    FinishedResolves(['\\', e]);
  }

  /** A character after a started literal that is not its closing quote, such as the `b` of
      `'ab'`, fails at the column after the lexeme. */
  lemma TooLong(c: char, lexeme: string)
    requires |lexeme| >= 1 && lexeme != "\\"
    requires c != '\'' || !(|lexeme| == 1 || (|lexeme| == 2 && HasPrefix(lexeme, "\\")))
    ensures LexCharacterInCharacter(c, lexeme) == Thrown(LexError(InvalidCharacterLiteral, |lexeme| + 1))
  {
  }
}
