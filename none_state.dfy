/** The handler of the None state (Compiler/lexer/states/none.swift): the first character of a
    token chooses the state that lexes the rest of it. */
module NoneState {
  import opened Text
  import opened Outcomes
  import opened Tokens

  /** lexCharacterInNone: never finishes a token, and ignores the lexeme it is given. Digits
      start an integer, quotes a string or character literal (without the quote), letters and
      `_` an identifier, whitespace is skipped and every other character starts an operator. */
  function LexCharacterInNone(c: char, lexeme: string): (r: StepResult)
    ensures r.token == Nothing
    ensures r.state == IntegerLiteral <==> IsNumber(c)
    ensures r.state == StringLiteral <==> c == '"'
    ensures r.state == CharacterLiteral <==> c == '\''
    ensures r.state == Identifier <==> IsLetter(c) || c == '_'
    ensures r.state == None <==> IsWhitespace(c)
    ensures r.state == Operator <==>
      !IsNumber(c) && c != '"' && c != '\'' && !IsLetter(c) && c != '_' && !IsWhitespace(c)
    ensures r.lexeme == (if r.state in {IntegerLiteral, Identifier, Operator} then [c] else "")
  {
    if IsNumber(c) then
      StepResult(IntegerLiteral, Nothing, [c])
    else if c == '"' then
      StepResult(StringLiteral, Nothing, "")
    else if c == '\'' then
      StepResult(CharacterLiteral, Nothing, "")
    else if IsLetter(c) || c == '_' then
      StepResult(Identifier, Nothing, [c])
    else if IsWhitespace(c) then
      StepResult(None, Nothing, "")
    else
      StepResult(Operator, Nothing, [c])
  }

  /** The result depends on the character alone. */
  lemma NoneIgnoresLexeme(c: char, a: string, b: string)
    ensures LexCharacterInNone(c, a) == LexCharacterInNone(c, b)
  {
  }
}
