/** The handler of the Identifier state (Compiler/lexer/states/identifier.swift). */
module IdentifierState {
  import opened Text
  import opened Outcomes
  import opened Tokens
  import opened OperatorToken
  import opened NoneState

  /** lexCharacterInIdentifier: letters, digits and `_` extend the identifier. Any other
      character finishes it, as a keyword when exactly one key starts with the lexeme
      (force-unwrapped, so it traps unless the lexeme is that key) and as an identifier
      otherwise, and is lexed again in state None, whose result carries the finished token. */
  function LexCharacterInIdentifier(c: char, lexeme: string): (r: Outcome<StepResult>)
    ensures !r.Thrown?
    ensures IsLetter(c) || IsNumber(c) || c == '_' ==> r == Done(StepResult(Identifier, Nothing, lexeme + [c]))
    ensures !(IsLetter(c) || IsNumber(c) || c == '_') ==>
      && (r.Trapped? <==> IsStringATerminalToken(lexeme) && lexeme !in Keys())
      && (r.Done? ==> r.value.state == LexCharacterInNone(c, "").state && r.value.lexeme == LexCharacterInNone(c, "").lexeme)
      && (r.Done? && IsStringATerminalToken(lexeme) ==>
            lexeme in Keys() && r.value.token == Some(OperatorToken(TokenLookup(lexeme), lexeme)))
      && (r.Done? && !IsStringATerminalToken(lexeme) ==> r.value.token == Some(IdentifierToken(lexeme)))
  {
    if IsLetter(c) || IsNumber(c) || c == '_' then
      Done(StepResult(Identifier, Nothing, lexeme + [c]))
    else
      var token :- if IsStringATerminalToken(lexeme) then OperatorTokenOfString(lexeme) else Done(IdentifierToken(lexeme));
      var retried := LexCharacterInNone(c, "");
      assert retried.token == Nothing;
      Done(StepResult(retried.state, Some(token), retried.lexeme))
  }

  /** Every keyword, ended by a character that cannot continue it, becomes the operator token
      of its own tag. */
  lemma KeywordBecomesOperatorToken(t: OperatorTokenType, c: char)
    requires IsKeyword(t) && !(IsLetter(c) || IsNumber(c) || c == '_')
    ensures LexCharacterInIdentifier(c, Spelling(t)).Done?
    ensures LexCharacterInIdentifier(c, Spelling(t)).value.token == Some(OperatorToken(t, Spelling(t)))
  {
    var s := Spelling(t);
    LeafKeyIsTerminal(t);
    SpellingIsKey(t);
    TokenLookupBijective(t, s);
    var r := LexCharacterInIdentifier(c, s);
    assert !r.Trapped?;
  }

  /** `v` and `d` each start exactly one keyword without being one, so they trap. */
  lemma PartialKeywordTraps(c: char)
    requires !(IsLetter(c) || IsNumber(c) || c == '_')
    ensures LexCharacterInIdentifier(c, "v") == Trapped
    ensures LexCharacterInIdentifier(c, "d") == Trapped
  {
    PartialKeywordV();
    PartialKeywordD();
  }

  /** `fal` starts two keywords, so it is an identifier. */
  lemma SharedKeywordStartIsIdentifier(c: char)
    requires !(IsLetter(c) || IsNumber(c) || c == '_')
    ensures LexCharacterInIdentifier(c, "fal").Done?
    ensures LexCharacterInIdentifier(c, "fal").value.token == Some(IdentifierToken("fal"))
  {
    SharedKeywordStartNotTerminal();
  }
}
