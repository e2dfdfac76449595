/** The values the lexer produces (the token structs and lexer.swift):
    the operator and keyword tags, the five kinds of token and the per-character result of a
    state handler. */
module Tokens {
  import opened Outcomes

  /** The tags of OperatorTokenType: 56 operators and punctuators, then 14 keywords. */
  datatype OperatorTokenType =
    | Plus
    | Minus
    | Multiply
    | Divide
    | Modulo
    | BitwiseAnd
    | BitwiseOr
    | BitwiseXor
    | ShiftLeft
    | ShiftRight
    | PlusEquals
    | MinusEquals
    | MultiplyEquals
    | DivideEquals
    | ModuloEquals
    | BitwiseAndEquals
    | BitwiseOrEquals
    | BitwiseXorEquals
    | ShiftLeftEquals
    | ShiftRightEquals
    | OverflowPlus
    | OverflowMinus
    | OverflowMultiply
    | OverflowPlusEquals
    | OverflowMinusEquals
    | OverflowMultiplyEquals
    | ExclamationMark
    | QuestionMark
    | DoubleQuestionMark
    | Semicolon
    | LogicalAnd
    | LogicalOr
    | Tilde
    | Dot
    | Ellipsis
    | InclusiveRange
    | ExclusiveRange
    | Increment
    | Decrement
    | Equals
    | DoubleEquals
    | NotEquals
    | Colon
    | Comma
    | Less
    | Greater
    | LessOrEqual
    | GreaterOrEqual
    | LeftBracket
    | RightBracket
    | LeftSquareBracket
    | RightSquareBracket
    | LeftCurlyBracket
    | RightCurlyBracket
    | LeftArrow
    | RightArrow
    | Var
    | Let
    | If
    | Func
    | Switch
    | Case
    | True
    | False
    | Nil
    | Default
    | Fallthrough
    | Struct
    | Class
    | Else

  predicate IsKeyword(t: OperatorTokenType) {
    t.Var? || t.Let? || t.If? || t.Func? || t.Switch? || t.Case? || t.True? || t.False? ||
    t.Nil? || t.Default? || t.Fallthrough? || t.Struct? || t.Class? || t.Else?
  }

  const UINT64_MAX: nat := 0xFFFF_FFFF_FFFF_FFFF

  /** Swift's UInt64. */
  type UInt64 = x: int | 0 <= x <= UINT64_MAX

  /** The Token protocol's five conforming structs, as one closed type. */
  datatype Token =
    | IdentifierToken(lexeme: string)
    | IntegerLiteralToken(lexeme: string, underlyingValue: UInt64)
    | StringLiteralToken(str: string)
    | CharacterLiteralToken(character: char)
    | OperatorToken(tokenType: OperatorTokenType, lexeme: string)

  /** LexerState: the state the scanner is in between two characters. */
  datatype LexerState = None | IntegerLiteral | StringLiteral | CharacterLiteral | Operator | Identifier

  /** LexerCharacterResult: the next state, the token finished by this character if any,
      and the next lexeme. */
  datatype StepResult = StepResult(state: LexerState, token: Option<Token>, lexeme: string)
}
