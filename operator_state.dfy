/** The handler of the Operator state (Compiler/lexer/states/operator.swift). */
module OperatorState {
  import opened Text
  import opened Exceptions
  import opened Outcomes
  import opened Tokens
  import opened OperatorToken

  /** The error both guards would throw; neither can (see below). */
  const InvalidOperator := LexError(InvalidOperatorException, 0)

  /** lexCharacterInOperator. Its two guards ask isStringValidStartOfToken, which holds of every
      string, so it never throws and its second branch is never taken. What remains: when the
      lexeme with the character appended starts exactly one key, that string is the token
      (force-unwrapped, so it traps unless it is a key) and the character is consumed;
      otherwise the character is appended and the state stays Operator. */
  function LexCharacterInOperator(c: char, lexeme: string): (r: Outcome<StepResult>)
    ensures !r.Thrown?
    ensures IsStringATerminalToken(lexeme + [c]) ==>
      && (r.Done? <==> lexeme + [c] in Keys())
      && (r.Done? ==> r.value == StepResult(None, Some(OperatorToken(TokenLookup(lexeme + [c]), lexeme + [c])), ""))
    ensures !IsStringATerminalToken(lexeme + [c]) ==> r == Done(StepResult(Operator, Nothing, lexeme + [c]))
  {
    if !IsStringValidStartOfToken(lexeme) then
      Thrown(InvalidOperator)
    else
      var newLexeme := lexeme + [c];
      if IsStringATerminalToken(newLexeme) then
        var token :- OperatorTokenOfString(newLexeme);
        Done(StepResult(None, Some(token), ""))
      else if !IsStringValidStartOfToken(newLexeme) then
        if !IsStringAValidToken(lexeme) then
          Thrown(InvalidOperator)
        else
          match OperatorTokenOfString(lexeme)
          case Done(token) => Done(StepResult(None, Some(token), ""))
          case Thrown(e) => Thrown(e)
          case Trapped => Trapped
      else
        Done(StepResult(Operator, Nothing, newLexeme))
  }

  /** A lexeme that starts with a character other than a letter, as every lexeme the None
      handler passes to this state does, never makes the handler trap. */
  lemma OperatorNeverTraps(c: char, lexeme: string)
    requires |lexeme| > 0 && !IsLetter(lexeme[0])
    ensures LexCharacterInOperator(c, lexeme).Done?
  {
    var newLexeme := lexeme + [c];
    if IsStringATerminalToken(newLexeme) {
      TerminalOperatorIsKey(newLexeme);
    }
  }

  /** A lexeme that starts no key swallows the next character: the state stays Operator and the
      longer lexeme starts no key either. */
  lemma DeadLexemeSwallows(c: char, lexeme: string)
    requires KeysWithPrefix(lexeme) == {}
    ensures LexCharacterInOperator(c, lexeme) == Done(StepResult(Operator, Nothing, lexeme + [c]))
    ensures KeysWithPrefix(lexeme + [c]) == {}
  {
    forall k | k in Keys() && HasPrefix(k, lexeme + [c]) ensures HasPrefix(k, lexeme) {
      HasPrefixMeaning(k, lexeme + [c]);
      HasPrefixMeaning(k, lexeme);
      assert (lexeme + [c])[..|lexeme|] == lexeme;
    }
    assert forall k :: k in KeysWithPrefix(lexeme + [c]) ==> k in KeysWithPrefix(lexeme);
  }

  /** A one-character operator that no key extends, such as `(`, is never emitted: the next
      character, whatever it is, leaves a lexeme that starts no key. */
  lemma BracketNeverEmitted(c: char)
    ensures KeysWithPrefix("(" + [c]) == {}
    ensures LexCharacterInOperator(c, "(") == Done(StepResult(Operator, Nothing, "(" + [c]))
  {
    HasPrefixMeaning("(" + [c], Spelling(LeftBracket));
    NothingExtendsLeaf(LeftBracket, "(" + [c]);
  }

  /** `<`, `<`, `=`: the second `<` is appended, since both `<<` and `<<=` start with `<<`, and
      the `=` completes `<<=`, which is emitted at once. */
  lemma ShiftLeftEqualsLexed()
    ensures LexCharacterInOperator('<', "<") == Done(StepResult(Operator, Nothing, "<<"))
    ensures LexCharacterInOperator('=', "<<") == Done(StepResult(None, Some(OperatorToken(ShiftLeftEquals, "<<=")), ""))
  {
    assert "<" + "<" == "<<" && "<<" + "=" == "<<=";
    SharedPrefixNotTerminal("<<", ShiftLeft, ShiftLeftEquals);
    LeafKeyIsTerminal(ShiftLeftEquals);
    TokenLookupBijective(ShiftLeftEquals, "<<=");
  }
}
