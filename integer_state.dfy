/** The handler of the IntegerLiteral state (Compiler/lexer/states/integer.swift). */
module IntegerState {
  import opened Text
  import opened Exceptions
  import opened Outcomes
  import opened Tokens
  import opened IntegerToken
  import opened NoneState

  /** After a lone `0`, the letter names a base prefix: it must be one of `x`, `o` and `b`. */
  function PrefixError(c: char, lexeme: string): Option<LexError> {
    if lexeme == "0" && IsLetter(c) then
      if c == 'X' || c == 'O' || c == 'B' then Some(LexError(UppercaseIntegerPrefix, 0))
      else if c != 'x' && c != 'o' && c != 'b' then Some(LexError(InvalidIntegerPrefix, 0))
      else Nothing
    else Nothing
  }

  /** lexCharacterInInteger: the prefix checks on a lone `0`; then digits, letters and `_`
      extend the literal; any other character finishes it and is lexed again in state None,
      whose result carries the finished token. */
  function LexCharacterInInteger(c: char, lexeme: string): (r: Result<StepResult>)
    ensures PrefixError(c, lexeme).Some? ==> r == Err(PrefixError(c, lexeme).value)
    ensures PrefixError(c, lexeme).Nothing? && (IsNumber(c) || IsLetter(c) || c == '_') ==>
      r == Ok(StepResult(IntegerLiteral, Nothing, lexeme + [c]))
    ensures PrefixError(c, lexeme).Nothing? && !(IsNumber(c) || IsLetter(c) || c == '_') ==>
      && (r.Ok? <==> IntegerLiteralTokenOf(lexeme).Ok?)
      && (r.Err? ==> r.error == IntegerLiteralTokenOf(lexeme).error)
      && (r.Ok? ==> r.value.token == Some(IntegerLiteralToken(lexeme, CalculateUnderlyingValue(lexeme).value)))
      && (r.Ok? ==> r.value.state == LexCharacterInNone(c, "").state && r.value.lexeme == LexCharacterInNone(c, "").lexeme)
  {
    if PrefixError(c, lexeme).Some? then
      Err(PrefixError(c, lexeme).value)
    else if IsNumber(c) || IsLetter(c) || c == '_' then
      Ok(StepResult(IntegerLiteral, Nothing, lexeme + [c]))
    else
      var token :- IntegerLiteralTokenOf(lexeme);
      var retried := LexCharacterInNone(c, "");
      assert retried.token == Nothing;
      Ok(StepResult(retried.state, Some(token), retried.lexeme))
  }

  /** The prefix checks reject `0X`, `0O` and `0B` as upper-case prefixes and any other letter
      after a lone `0` but `x`, `o` and `b` as an invalid prefix; they look at nothing but a lone
      `0`, so `0_x` passes here and is rejected as a leading zero when the token is built. */
  lemma PrefixChecks(c: char, lexeme: string)
    ensures (PrefixError(c, lexeme).Some? && PrefixError(c, lexeme).value.kind == UppercaseIntegerPrefix)
      <==> lexeme == "0" && (c == 'X' || c == 'O' || c == 'B')
    ensures (PrefixError(c, lexeme).Some? && PrefixError(c, lexeme).value.kind == InvalidIntegerPrefix)
      <==> lexeme == "0" && IsLetter(c) && c !in "XOBxob"
    ensures lexeme != "0" ==> PrefixError(c, lexeme).Nothing?
  {
  }

  /** `0_x123` gets past the handler one character at a time and fails as a leading zero. */
  lemma UnderscoreBeforePrefix()
    ensures LexCharacterInInteger('_', "0") == Ok(StepResult(IntegerLiteral, Nothing, "0_"))
    ensures LexCharacterInInteger('x', "0_") == Ok(StepResult(IntegerLiteral, Nothing, "0_x"))
    ensures LexCharacterInInteger(' ', "0_x123") == Err(LexError(InvalidLeadingZeroOnIntegerLiteral, 0))
  {
    assert "0" + "_" == "0_" && "0_" + "x" == "0_x";
    assert PrefixError(' ', "0_x123").Nothing?;
    LeadingZero("0_x123");
  }
}
