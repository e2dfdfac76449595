/** The operator and keyword table of Compiler/lexer/token/operator_token.swift: the dictionary
    tokenLookup, its reverse, the two OperatorToken initialisers and the three prefix and
    membership queries the state handlers ask of it. */
module OperatorToken {
  import opened Text
  import opened Outcomes
  import opened Tokens

  /** The rows of the dictionary literal tokenLookup: the key each tag is stored under. Each
      tag is the value of exactly one row, so the rows are written here tag by tag. */
  function Spelling(t: OperatorTokenType): string {
    match t
    case Plus => "+"
    case Minus => "-"
    case Multiply => "*"
    case Divide => "/"
    case Modulo => "%"
    case BitwiseAnd => "&"
    case BitwiseOr => "|"
    case BitwiseXor => "^"
    case ShiftLeft => "<<"
    case ShiftRight => ">>"
    case PlusEquals => "+="
    case MinusEquals => "-="
    case MultiplyEquals => "*="
    case DivideEquals => "/="
    case ModuloEquals => "%="
    case BitwiseAndEquals => "&="
    case BitwiseOrEquals => "|="
    case BitwiseXorEquals => "^="
    case ShiftLeftEquals => "<<="
    case ShiftRightEquals => ">>="
    case OverflowPlus => "&+"
    case OverflowMinus => "&-"
    case OverflowMultiply => "&*"
    case OverflowPlusEquals => "&+="
    case OverflowMinusEquals => "&-="
    case OverflowMultiplyEquals => "&*="
    case ExclamationMark => "!"
    case QuestionMark => "?"
    case DoubleQuestionMark => "??"
    case Semicolon => ";"
    case LogicalAnd => "&&"
    case LogicalOr => "||"
    case Tilde => "~"
    case Dot => "."
    case Ellipsis => "..."
    case InclusiveRange => "..="
    case ExclusiveRange => "..<"
    case Increment => "++"
    case Decrement => "--"
    case Equals => "="
    case DoubleEquals => "=="
    case NotEquals => "!="
    case Colon => ":"
    case Comma => ","
    case Less => "<"
    case Greater => ">"
    case LessOrEqual => "<="
    case GreaterOrEqual => ">="
    case LeftBracket => "("
    case RightBracket => ")"
    case LeftSquareBracket => "["
    case RightSquareBracket => "]"
    case LeftCurlyBracket => "{"
    case RightCurlyBracket => "}"
    case LeftArrow => "<-"
    case RightArrow => "->"
    case Var => "var"
    case Let => "let"
    case If => "if"
    case Func => "func"
    case Switch => "switch"
    case Case => "case"
    case True => "true"
    case False => "false"
    case Nil => "nil"
    case Default => "default"
    case Fallthrough => "fallthrough"
    case Struct => "struct"
    case Class => "class"
    case Else => "else"
  }

  const AllTags: set<OperatorTokenType> := {
      Plus, Minus, Multiply, Divide, Modulo, BitwiseAnd, BitwiseOr, BitwiseXor, ShiftLeft,
      ShiftRight, PlusEquals, MinusEquals, MultiplyEquals, DivideEquals, ModuloEquals,
      BitwiseAndEquals, BitwiseOrEquals, BitwiseXorEquals, ShiftLeftEquals, ShiftRightEquals,
      OverflowPlus, OverflowMinus, OverflowMultiply, OverflowPlusEquals, OverflowMinusEquals,
      OverflowMultiplyEquals, ExclamationMark, QuestionMark, DoubleQuestionMark, Semicolon,
      LogicalAnd, LogicalOr, Tilde, Dot, Ellipsis, InclusiveRange, ExclusiveRange, Increment,
      Decrement, Equals, DoubleEquals, NotEquals, Colon, Comma, Less, Greater, LessOrEqual,
      GreaterOrEqual, LeftBracket, RightBracket, LeftSquareBracket, RightSquareBracket,
      LeftCurlyBracket, RightCurlyBracket, LeftArrow, RightArrow, Var, Let, If, Func, Switch,
      Case, True, False, Nil, Default, Fallthrough, Struct, Class, Else
  }

  lemma AllTagsComplete(t: OperatorTokenType)
    ensures t in AllTags
  {
  }

  /** tokenLookup.keys */
  function Keys(): set<string> {
    set t | t in AllTags :: Spelling(t)
  }

  lemma SpellingIsKey(t: OperatorTokenType)
    ensures Spelling(t) in Keys()
  {
    AllTagsComplete(t);
  }

  /** The dictionary tokenLookup consulted character by character: a decision tree over the
      keys, one level per character, ending in the tag of the row whose key has been read. */
  function Recognize(s: string): Option<OperatorTokenType> {
    (if |s| == 0 then Nothing
    else match s[0]
      case '+' => (if |s| == 1 then Some(Plus)
        else match s[1]
          case '=' => if |s| == 2 then Some(PlusEquals) else Nothing
          case '+' => if |s| == 2 then Some(Increment) else Nothing
          case _ => Nothing)
      case '-' => (if |s| == 1 then Some(Minus)
        else match s[1]
          case '=' => if |s| == 2 then Some(MinusEquals) else Nothing
          case '-' => if |s| == 2 then Some(Decrement) else Nothing
          case '>' => if |s| == 2 then Some(RightArrow) else Nothing
          case _ => Nothing)
      case '*' => (if |s| == 1 then Some(Multiply)
        else match s[1]
          case '=' => if |s| == 2 then Some(MultiplyEquals) else Nothing
          case _ => Nothing)
      case '/' => (if |s| == 1 then Some(Divide)
        else match s[1]
          case '=' => if |s| == 2 then Some(DivideEquals) else Nothing
          case _ => Nothing)
      case '%' => (if |s| == 1 then Some(Modulo)
        else match s[1]
          case '=' => if |s| == 2 then Some(ModuloEquals) else Nothing
          case _ => Nothing)
      case '&' => (if |s| == 1 then Some(BitwiseAnd)
        else match s[1]
          case '=' => if |s| == 2 then Some(BitwiseAndEquals) else Nothing
          case '+' => (if |s| == 2 then Some(OverflowPlus)
            else match s[2]
              case '=' => if |s| == 3 then Some(OverflowPlusEquals) else Nothing
              case _ => Nothing)
          case '-' => (if |s| == 2 then Some(OverflowMinus)
            else match s[2]
              case '=' => if |s| == 3 then Some(OverflowMinusEquals) else Nothing
              case _ => Nothing)
          case '*' => (if |s| == 2 then Some(OverflowMultiply)
            else match s[2]
              case '=' => if |s| == 3 then Some(OverflowMultiplyEquals) else Nothing
              case _ => Nothing)
          case '&' => if |s| == 2 then Some(LogicalAnd) else Nothing
          case _ => Nothing)
      case '|' => (if |s| == 1 then Some(BitwiseOr)
        else match s[1]
          case '=' => if |s| == 2 then Some(BitwiseOrEquals) else Nothing
          case '|' => if |s| == 2 then Some(LogicalOr) else Nothing
          case _ => Nothing)
      case '^' => (if |s| == 1 then Some(BitwiseXor)
        else match s[1]
          case '=' => if |s| == 2 then Some(BitwiseXorEquals) else Nothing
          case _ => Nothing)
      case '<' => (if |s| == 1 then Some(Less)
        else match s[1]
          case '<' => (if |s| == 2 then Some(ShiftLeft)
            else match s[2]
              case '=' => if |s| == 3 then Some(ShiftLeftEquals) else Nothing
              case _ => Nothing)
          case '=' => if |s| == 2 then Some(LessOrEqual) else Nothing
          case '-' => if |s| == 2 then Some(LeftArrow) else Nothing
          case _ => Nothing)
      case '>' => (if |s| == 1 then Some(Greater)
        else match s[1]
          case '>' => (if |s| == 2 then Some(ShiftRight)
            else match s[2]
              case '=' => if |s| == 3 then Some(ShiftRightEquals) else Nothing
              case _ => Nothing)
          case '=' => if |s| == 2 then Some(GreaterOrEqual) else Nothing
          case _ => Nothing)
      case '!' => (if |s| == 1 then Some(ExclamationMark)
        else match s[1]
          case '=' => if |s| == 2 then Some(NotEquals) else Nothing
          case _ => Nothing)
      case '?' => (if |s| == 1 then Some(QuestionMark)
        else match s[1]
          case '?' => if |s| == 2 then Some(DoubleQuestionMark) else Nothing
          case _ => Nothing)
      case ';' => if |s| == 1 then Some(Semicolon) else Nothing
      case '~' => if |s| == 1 then Some(Tilde) else Nothing
      case '.' => (if |s| == 1 then Some(Dot)
        else match s[1]
          case '.' => (if |s| == 2 then Nothing
            else match s[2]
              case '.' => if |s| == 3 then Some(Ellipsis) else Nothing
              case '=' => if |s| == 3 then Some(InclusiveRange) else Nothing
              case '<' => if |s| == 3 then Some(ExclusiveRange) else Nothing
              case _ => Nothing)
          case _ => Nothing)
      case '=' => (if |s| == 1 then Some(Equals)
        else match s[1]
          case '=' => if |s| == 2 then Some(DoubleEquals) else Nothing
          case _ => Nothing)
      case ':' => if |s| == 1 then Some(Colon) else Nothing
      case ',' => if |s| == 1 then Some(Comma) else Nothing
      case '(' => if |s| == 1 then Some(LeftBracket) else Nothing
      case ')' => if |s| == 1 then Some(RightBracket) else Nothing
      case '[' => if |s| == 1 then Some(LeftSquareBracket) else Nothing
      case ']' => if |s| == 1 then Some(RightSquareBracket) else Nothing
      case '{' => if |s| == 1 then Some(LeftCurlyBracket) else Nothing
      case '}' => if |s| == 1 then Some(RightCurlyBracket) else Nothing
      case 'v' => (if |s| == 1 then Nothing
        else match s[1]
          case 'a' => (if |s| == 2 then Nothing
            else match s[2]
              case 'r' => if |s| == 3 then Some(Var) else Nothing
              case _ => Nothing)
          case _ => Nothing)
      case 'l' => (if |s| == 1 then Nothing
        else match s[1]
          case 'e' => (if |s| == 2 then Nothing
            else match s[2]
              case 't' => if |s| == 3 then Some(Let) else Nothing
              case _ => Nothing)
          case _ => Nothing)
      case 'i' => (if |s| == 1 then Nothing
        else match s[1]
          case 'f' => if |s| == 2 then Some(If) else Nothing
          case _ => Nothing)
      case 'f' => (if |s| == 1 then Nothing
        else match s[1]
          case 'u' => (if |s| == 2 then Nothing
            else match s[2]
              case 'n' => (if |s| == 3 then Nothing
                else match s[3]
                  case 'c' => if |s| == 4 then Some(Func) else Nothing
                  case _ => Nothing)
              case _ => Nothing)
          case 'a' => (if |s| == 2 then Nothing
            else match s[2]
              case 'l' => (if |s| == 3 then Nothing
                else match s[3]
                  case 's' => (if |s| == 4 then Nothing
                    else match s[4]
                      case 'e' => if |s| == 5 then Some(False) else Nothing
                      case _ => Nothing)
                  case 'l' => (if |s| == 4 then Nothing
                    else match s[4]
                      case 't' => (if |s| == 5 then Nothing
                        else match s[5]
                          case 'h' => (if |s| == 6 then Nothing
                            else match s[6]
                              case 'r' => (if |s| == 7 then Nothing
                                else match s[7]
                                  case 'o' => (if |s| == 8 then Nothing
                                    else match s[8]
                                      case 'u' => (if |s| == 9 then Nothing
                                        else match s[9]
                                          case 'g' => (if |s| == 10 then Nothing
                                            else match s[10]
                                              case 'h' => if |s| == 11 then Some(Fallthrough) else Nothing
                                              case _ => Nothing)
                                          case _ => Nothing)
                                      case _ => Nothing)
                                  case _ => Nothing)
                              case _ => Nothing)
                          case _ => Nothing)
                      case _ => Nothing)
                  case _ => Nothing)
              case _ => Nothing)
          case _ => Nothing)
      case 's' => (if |s| == 1 then Nothing
        else match s[1]
          case 'w' => (if |s| == 2 then Nothing
            else match s[2]
              case 'i' => (if |s| == 3 then Nothing
                else match s[3]
                  case 't' => (if |s| == 4 then Nothing
                    else match s[4]
                      case 'c' => (if |s| == 5 then Nothing
                        else match s[5]
                          case 'h' => if |s| == 6 then Some(Switch) else Nothing
                          case _ => Nothing)
                      case _ => Nothing)
                  case _ => Nothing)
              case _ => Nothing)
          case 't' => (if |s| == 2 then Nothing
            else match s[2]
              case 'r' => (if |s| == 3 then Nothing
                else match s[3]
                  case 'u' => (if |s| == 4 then Nothing
                    else match s[4]
                      case 'c' => (if |s| == 5 then Nothing
                        else match s[5]
                          case 't' => if |s| == 6 then Some(Struct) else Nothing
                          case _ => Nothing)
                      case _ => Nothing)
                  case _ => Nothing)
              case _ => Nothing)
          case _ => Nothing)
      case 'c' => (if |s| == 1 then Nothing
        else match s[1]
          case 'a' => (if |s| == 2 then Nothing
            else match s[2]
              case 's' => (if |s| == 3 then Nothing
                else match s[3]
                  case 'e' => if |s| == 4 then Some(Case) else Nothing
                  case _ => Nothing)
              case _ => Nothing)
          case 'l' => (if |s| == 2 then Nothing
            else match s[2]
              case 'a' => (if |s| == 3 then Nothing
                else match s[3]
                  case 's' => (if |s| == 4 then Nothing
                    else match s[4]
                      case 's' => if |s| == 5 then Some(Class) else Nothing
                      case _ => Nothing)
                  case _ => Nothing)
              case _ => Nothing)
          case _ => Nothing)
      case 't' => (if |s| == 1 then Nothing
        else match s[1]
          case 'r' => (if |s| == 2 then Nothing
            else match s[2]
              case 'u' => (if |s| == 3 then Nothing
                else match s[3]
                  case 'e' => if |s| == 4 then Some(True) else Nothing
                  case _ => Nothing)
              case _ => Nothing)
          case _ => Nothing)
      case 'n' => (if |s| == 1 then Nothing
        else match s[1]
          case 'i' => (if |s| == 2 then Nothing
            else match s[2]
              case 'l' => if |s| == 3 then Some(Nil) else Nothing
              case _ => Nothing)
          case _ => Nothing)
      case 'd' => (if |s| == 1 then Nothing
        else match s[1]
          case 'e' => (if |s| == 2 then Nothing
            else match s[2]
              case 'f' => (if |s| == 3 then Nothing
                else match s[3]
                  case 'a' => (if |s| == 4 then Nothing
                    else match s[4]
                      case 'u' => (if |s| == 5 then Nothing
                        else match s[5]
                          case 'l' => (if |s| == 6 then Nothing
                            else match s[6]
                              case 't' => if |s| == 7 then Some(Default) else Nothing
                              case _ => Nothing)
                          case _ => Nothing)
                      case _ => Nothing)
                  case _ => Nothing)
              case _ => Nothing)
          case _ => Nothing)
      case 'e' => (if |s| == 1 then Nothing
        else match s[1]
          case 'l' => (if |s| == 2 then Nothing
            else match s[2]
              case 's' => (if |s| == 3 then Nothing
                else match s[3]
                  case 'e' => if |s| == 4 then Some(Else) else Nothing
                  case _ => Nothing)
              case _ => Nothing)
          case _ => Nothing)
      case _ => Nothing)
  }

  /** For an operator key of two or three characters, another key that agrees with it on all
      but its last character; the tag itself for the other rows. */
  function Sibling(t: OperatorTokenType): OperatorTokenType {
    match t
    case ShiftLeft => Less
    case ShiftRight => Greater
    case PlusEquals => Plus
    case MinusEquals => Minus
    case MultiplyEquals => Multiply
    case DivideEquals => Divide
    case ModuloEquals => Modulo
    case BitwiseAndEquals => BitwiseAnd
    case BitwiseOrEquals => BitwiseOr
    case BitwiseXorEquals => BitwiseXor
    case ShiftLeftEquals => ShiftLeft
    case ShiftRightEquals => ShiftRight
    case OverflowPlus => BitwiseAnd
    case OverflowMinus => BitwiseAnd
    case OverflowMultiply => BitwiseAnd
    case OverflowPlusEquals => OverflowPlus
    case OverflowMinusEquals => OverflowMinus
    case OverflowMultiplyEquals => OverflowMultiply
    case DoubleQuestionMark => QuestionMark
    case LogicalAnd => BitwiseAnd
    case LogicalOr => BitwiseOr
    case Ellipsis => InclusiveRange
    case InclusiveRange => Ellipsis
    case ExclusiveRange => Ellipsis
    case Increment => Plus
    case Decrement => Minus
    case DoubleEquals => Equals
    case NotEquals => ExclamationMark
    case LessOrEqual => Less
    case GreaterOrEqual => Greater
    case LeftArrow => Less
    case RightArrow => Minus
    case _ => t
  }

  /** b agrees with a on every character of a but its last. */
  predicate SharesAllButLast(a: string, b: string) {
    |a| - 1 <= |b| && forall i :: 0 <= i < |a| - 1 ==> b[i] == a[i]
  }

  /** The facts about one row that the rest of the module builds on: the decision tree finds the
      row from its key, the key is not empty, and it starts with a letter exactly when the row
      is a keyword. */
  predicate TableRow(t: OperatorTokenType) {
    && Recognize(Spelling(t)) == Some(t)
    && |Spelling(t)| > 0
    && (IsKeyword(t) <==> IsLetter(Spelling(t)[0]))
  }

  /** An operator key of two or three characters agrees with its sibling's key up to its last
      character. */
  predicate SiblingRow(t: OperatorTokenType) {
    !IsKeyword(t) && |Spelling(t)| >= 2 ==> Sibling(t) != t && SharesAllButLast(Spelling(t), Spelling(Sibling(t)))
  }

  // One lemma per row of the table, each proved by evaluating that row from its key.
  lemma RowPlus() ensures TableRow(Plus) && SiblingRow(Plus) { assert Spelling(Plus) == "+"; }
  lemma RowMinus() ensures TableRow(Minus) && SiblingRow(Minus) { assert Spelling(Minus) == "-"; }
  lemma RowMultiply() ensures TableRow(Multiply) && SiblingRow(Multiply) { assert Spelling(Multiply) == "*"; }
  lemma RowDivide() ensures TableRow(Divide) && SiblingRow(Divide) { assert Spelling(Divide) == "/"; }
  lemma RowModulo() ensures TableRow(Modulo) && SiblingRow(Modulo) { assert Spelling(Modulo) == "%"; }
  lemma RowBitwiseAnd() ensures TableRow(BitwiseAnd) && SiblingRow(BitwiseAnd) { assert Spelling(BitwiseAnd) == "&"; }
  lemma RowBitwiseOr() ensures TableRow(BitwiseOr) && SiblingRow(BitwiseOr) { assert Spelling(BitwiseOr) == "|"; }
  lemma RowBitwiseXor() ensures TableRow(BitwiseXor) && SiblingRow(BitwiseXor) { assert Spelling(BitwiseXor) == "^"; }
  lemma RowShiftLeft() ensures TableRow(ShiftLeft) && SiblingRow(ShiftLeft) { assert Spelling(ShiftLeft) == "<<"; assert Sibling(ShiftLeft) == Less; assert Spelling(Less) == "<"; }
  lemma RowShiftRight() ensures TableRow(ShiftRight) && SiblingRow(ShiftRight) { assert Spelling(ShiftRight) == ">>"; assert Sibling(ShiftRight) == Greater; assert Spelling(Greater) == ">"; }
  lemma RowPlusEquals() ensures TableRow(PlusEquals) && SiblingRow(PlusEquals) { assert Spelling(PlusEquals) == "+="; assert Sibling(PlusEquals) == Plus; assert Spelling(Plus) == "+"; }
  lemma RowMinusEquals() ensures TableRow(MinusEquals) && SiblingRow(MinusEquals) { assert Spelling(MinusEquals) == "-="; assert Sibling(MinusEquals) == Minus; assert Spelling(Minus) == "-"; }
  lemma RowMultiplyEquals() ensures TableRow(MultiplyEquals) && SiblingRow(MultiplyEquals) { assert Spelling(MultiplyEquals) == "*="; assert Sibling(MultiplyEquals) == Multiply; assert Spelling(Multiply) == "*"; }
  lemma RowDivideEquals() ensures TableRow(DivideEquals) && SiblingRow(DivideEquals) { assert Spelling(DivideEquals) == "/="; assert Sibling(DivideEquals) == Divide; assert Spelling(Divide) == "/"; }
  lemma RowModuloEquals() ensures TableRow(ModuloEquals) && SiblingRow(ModuloEquals) { assert Spelling(ModuloEquals) == "%="; assert Sibling(ModuloEquals) == Modulo; assert Spelling(Modulo) == "%"; }
  lemma RowBitwiseAndEquals() ensures TableRow(BitwiseAndEquals) && SiblingRow(BitwiseAndEquals) { assert Spelling(BitwiseAndEquals) == "&="; assert Sibling(BitwiseAndEquals) == BitwiseAnd; assert Spelling(BitwiseAnd) == "&"; }
  lemma RowBitwiseOrEquals() ensures TableRow(BitwiseOrEquals) && SiblingRow(BitwiseOrEquals) { assert Spelling(BitwiseOrEquals) == "|="; assert Sibling(BitwiseOrEquals) == BitwiseOr; assert Spelling(BitwiseOr) == "|"; }
  lemma RowBitwiseXorEquals() ensures TableRow(BitwiseXorEquals) && SiblingRow(BitwiseXorEquals) { assert Spelling(BitwiseXorEquals) == "^="; assert Sibling(BitwiseXorEquals) == BitwiseXor; assert Spelling(BitwiseXor) == "^"; }
  lemma RowShiftLeftEquals() ensures TableRow(ShiftLeftEquals) && SiblingRow(ShiftLeftEquals) { assert Spelling(ShiftLeftEquals) == "<<="; assert Sibling(ShiftLeftEquals) == ShiftLeft; assert Spelling(ShiftLeft) == "<<"; }
  lemma RowShiftRightEquals() ensures TableRow(ShiftRightEquals) && SiblingRow(ShiftRightEquals) { assert Spelling(ShiftRightEquals) == ">>="; assert Sibling(ShiftRightEquals) == ShiftRight; assert Spelling(ShiftRight) == ">>"; }
  lemma RowOverflowPlus() ensures TableRow(OverflowPlus) && SiblingRow(OverflowPlus) { assert Spelling(OverflowPlus) == "&+"; assert Sibling(OverflowPlus) == BitwiseAnd; assert Spelling(BitwiseAnd) == "&"; }
  lemma RowOverflowMinus() ensures TableRow(OverflowMinus) && SiblingRow(OverflowMinus) { assert Spelling(OverflowMinus) == "&-"; assert Sibling(OverflowMinus) == BitwiseAnd; assert Spelling(BitwiseAnd) == "&"; }
  lemma RowOverflowMultiply() ensures TableRow(OverflowMultiply) && SiblingRow(OverflowMultiply) { assert Spelling(OverflowMultiply) == "&*"; assert Sibling(OverflowMultiply) == BitwiseAnd; assert Spelling(BitwiseAnd) == "&"; }
  lemma RowOverflowPlusEquals() ensures TableRow(OverflowPlusEquals) && SiblingRow(OverflowPlusEquals) { assert Spelling(OverflowPlusEquals) == "&+="; assert Sibling(OverflowPlusEquals) == OverflowPlus; assert Spelling(OverflowPlus) == "&+"; }
  lemma RowOverflowMinusEquals() ensures TableRow(OverflowMinusEquals) && SiblingRow(OverflowMinusEquals) { assert Spelling(OverflowMinusEquals) == "&-="; assert Sibling(OverflowMinusEquals) == OverflowMinus; assert Spelling(OverflowMinus) == "&-"; }
  lemma RowOverflowMultiplyEquals() ensures TableRow(OverflowMultiplyEquals) && SiblingRow(OverflowMultiplyEquals) { assert Spelling(OverflowMultiplyEquals) == "&*="; assert Sibling(OverflowMultiplyEquals) == OverflowMultiply; assert Spelling(OverflowMultiply) == "&*"; }
  lemma RowExclamationMark() ensures TableRow(ExclamationMark) && SiblingRow(ExclamationMark) { assert Spelling(ExclamationMark) == "!"; }
  lemma RowQuestionMark() ensures TableRow(QuestionMark) && SiblingRow(QuestionMark) { assert Spelling(QuestionMark) == "?"; }
  lemma RowDoubleQuestionMark() ensures TableRow(DoubleQuestionMark) && SiblingRow(DoubleQuestionMark) { assert Spelling(DoubleQuestionMark) == "??"; assert Sibling(DoubleQuestionMark) == QuestionMark; assert Spelling(QuestionMark) == "?"; }
  lemma RowSemicolon() ensures TableRow(Semicolon) && SiblingRow(Semicolon) { assert Spelling(Semicolon) == ";"; }
  lemma RowLogicalAnd() ensures TableRow(LogicalAnd) && SiblingRow(LogicalAnd) { assert Spelling(LogicalAnd) == "&&"; assert Sibling(LogicalAnd) == BitwiseAnd; assert Spelling(BitwiseAnd) == "&"; }
  lemma RowLogicalOr() ensures TableRow(LogicalOr) && SiblingRow(LogicalOr) { assert Spelling(LogicalOr) == "||"; assert Sibling(LogicalOr) == BitwiseOr; assert Spelling(BitwiseOr) == "|"; }
  lemma RowTilde() ensures TableRow(Tilde) && SiblingRow(Tilde) { assert Spelling(Tilde) == "~"; }
  lemma RowDot() ensures TableRow(Dot) && SiblingRow(Dot) { assert Spelling(Dot) == "."; }
  lemma RowEllipsis() ensures TableRow(Ellipsis) && SiblingRow(Ellipsis) { assert Spelling(Ellipsis) == "..."; assert Sibling(Ellipsis) == InclusiveRange; assert Spelling(InclusiveRange) == "..="; }
  lemma RowInclusiveRange() ensures TableRow(InclusiveRange) && SiblingRow(InclusiveRange) { assert Spelling(InclusiveRange) == "..="; assert Sibling(InclusiveRange) == Ellipsis; assert Spelling(Ellipsis) == "..."; }
  lemma RowExclusiveRange() ensures TableRow(ExclusiveRange) && SiblingRow(ExclusiveRange) { assert Spelling(ExclusiveRange) == "..<"; assert Sibling(ExclusiveRange) == Ellipsis; assert Spelling(Ellipsis) == "..."; }
  lemma RowIncrement() ensures TableRow(Increment) && SiblingRow(Increment) { assert Spelling(Increment) == "++"; assert Sibling(Increment) == Plus; assert Spelling(Plus) == "+"; }
  lemma RowDecrement() ensures TableRow(Decrement) && SiblingRow(Decrement) { assert Spelling(Decrement) == "--"; assert Sibling(Decrement) == Minus; assert Spelling(Minus) == "-"; }
  lemma RowEquals() ensures TableRow(Equals) && SiblingRow(Equals) { assert Spelling(Equals) == "="; }
  lemma RowDoubleEquals() ensures TableRow(DoubleEquals) && SiblingRow(DoubleEquals) { assert Spelling(DoubleEquals) == "=="; assert Sibling(DoubleEquals) == Equals; assert Spelling(Equals) == "="; }
  lemma RowNotEquals() ensures TableRow(NotEquals) && SiblingRow(NotEquals) { assert Spelling(NotEquals) == "!="; assert Sibling(NotEquals) == ExclamationMark; assert Spelling(ExclamationMark) == "!"; }
  lemma RowColon() ensures TableRow(Colon) && SiblingRow(Colon) { assert Spelling(Colon) == ":"; }
  lemma RowComma() ensures TableRow(Comma) && SiblingRow(Comma) { assert Spelling(Comma) == ","; }
  lemma RowLess() ensures TableRow(Less) && SiblingRow(Less) { assert Spelling(Less) == "<"; }
  lemma RowGreater() ensures TableRow(Greater) && SiblingRow(Greater) { assert Spelling(Greater) == ">"; }
  lemma RowLessOrEqual() ensures TableRow(LessOrEqual) && SiblingRow(LessOrEqual) { assert Spelling(LessOrEqual) == "<="; assert Sibling(LessOrEqual) == Less; assert Spelling(Less) == "<"; }
  lemma RowGreaterOrEqual() ensures TableRow(GreaterOrEqual) && SiblingRow(GreaterOrEqual) { assert Spelling(GreaterOrEqual) == ">="; assert Sibling(GreaterOrEqual) == Greater; assert Spelling(Greater) == ">"; }
  lemma RowLeftBracket() ensures TableRow(LeftBracket) && SiblingRow(LeftBracket) { assert Spelling(LeftBracket) == "("; }
  lemma RowRightBracket() ensures TableRow(RightBracket) && SiblingRow(RightBracket) { assert Spelling(RightBracket) == ")"; }
  lemma RowLeftSquareBracket() ensures TableRow(LeftSquareBracket) && SiblingRow(LeftSquareBracket) { assert Spelling(LeftSquareBracket) == "["; }
  lemma RowRightSquareBracket() ensures TableRow(RightSquareBracket) && SiblingRow(RightSquareBracket) { assert Spelling(RightSquareBracket) == "]"; }
  lemma RowLeftCurlyBracket() ensures TableRow(LeftCurlyBracket) && SiblingRow(LeftCurlyBracket) { assert Spelling(LeftCurlyBracket) == "{"; }
  lemma RowRightCurlyBracket() ensures TableRow(RightCurlyBracket) && SiblingRow(RightCurlyBracket) { assert Spelling(RightCurlyBracket) == "}"; }
  lemma RowLeftArrow() ensures TableRow(LeftArrow) && SiblingRow(LeftArrow) { assert Spelling(LeftArrow) == "<-"; assert Sibling(LeftArrow) == Less; assert Spelling(Less) == "<"; }
  lemma RowRightArrow() ensures TableRow(RightArrow) && SiblingRow(RightArrow) { assert Spelling(RightArrow) == "->"; assert Sibling(RightArrow) == Minus; assert Spelling(Minus) == "-"; }
  lemma RowVar() ensures TableRow(Var) && SiblingRow(Var) { assert Spelling(Var) == "var"; }
  lemma RowLet() ensures TableRow(Let) && SiblingRow(Let) { assert Spelling(Let) == "let"; }
  lemma RowIf() ensures TableRow(If) && SiblingRow(If) { assert Spelling(If) == "if"; }
  lemma RowFunc() ensures TableRow(Func) && SiblingRow(Func) { assert Spelling(Func) == "func"; }
  lemma RowSwitch() ensures TableRow(Switch) && SiblingRow(Switch) { assert Spelling(Switch) == "switch"; }
  lemma RowCase() ensures TableRow(Case) && SiblingRow(Case) { assert Spelling(Case) == "case"; }
  lemma RowTrue() ensures TableRow(True) && SiblingRow(True) { assert Spelling(True) == "true"; }
  lemma RowFalse() ensures TableRow(False) && SiblingRow(False) { assert Spelling(False) == "false"; }
  lemma RowNil() ensures TableRow(Nil) && SiblingRow(Nil) { assert Spelling(Nil) == "nil"; }
  lemma RowDefault() ensures TableRow(Default) && SiblingRow(Default) { assert Spelling(Default) == "default"; }
  lemma RowFallthrough() ensures TableRow(Fallthrough) && SiblingRow(Fallthrough) { assert Spelling(Fallthrough) == "fallthrough"; }
  lemma RowStruct() ensures TableRow(Struct) && SiblingRow(Struct) { assert Spelling(Struct) == "struct"; }
  lemma RowClass() ensures TableRow(Class) && SiblingRow(Class) { assert Spelling(Class) == "class"; }
  lemma RowElse() ensures TableRow(Else) && SiblingRow(Else) { assert Spelling(Else) == "else"; }

  lemma Rows00(t: OperatorTokenType)
    requires t.Plus? || t.Minus? || t.Multiply? || t.Divide? || t.Modulo? || t.BitwiseAnd? || t.BitwiseOr? || t.BitwiseXor? || t.ShiftLeft? || t.ShiftRight?
    ensures TableRow(t) && SiblingRow(t)
  {
    if t.Plus? {
      RowPlus();
    } else if t.Minus? {
      RowMinus();
    } else if t.Multiply? {
      RowMultiply();
    } else if t.Divide? {
      RowDivide();
    } else if t.Modulo? {
      RowModulo();
    } else if t.BitwiseAnd? {
      RowBitwiseAnd();
    } else if t.BitwiseOr? {
      RowBitwiseOr();
    } else if t.BitwiseXor? {
      RowBitwiseXor();
    } else if t.ShiftLeft? {
      RowShiftLeft();
    } else {
      RowShiftRight();
    }
  }

  lemma Rows01(t: OperatorTokenType)
    requires t.PlusEquals? || t.MinusEquals? || t.MultiplyEquals? || t.DivideEquals? || t.ModuloEquals? || t.BitwiseAndEquals? || t.BitwiseOrEquals? || t.BitwiseXorEquals? || t.ShiftLeftEquals? || t.ShiftRightEquals?
    ensures TableRow(t) && SiblingRow(t)
  {
    if t.PlusEquals? {
      RowPlusEquals();
    } else if t.MinusEquals? {
      RowMinusEquals();
    } else if t.MultiplyEquals? {
      RowMultiplyEquals();
    } else if t.DivideEquals? {
      RowDivideEquals();
    } else if t.ModuloEquals? {
      RowModuloEquals();
    } else if t.BitwiseAndEquals? {
      RowBitwiseAndEquals();
    } else if t.BitwiseOrEquals? {
      RowBitwiseOrEquals();
    } else if t.BitwiseXorEquals? {
      RowBitwiseXorEquals();
    } else if t.ShiftLeftEquals? {
      RowShiftLeftEquals();
    } else {
      RowShiftRightEquals();
    }
  }

  lemma Rows02(t: OperatorTokenType)
    requires t.OverflowPlus? || t.OverflowMinus? || t.OverflowMultiply? || t.OverflowPlusEquals? || t.OverflowMinusEquals? || t.OverflowMultiplyEquals? || t.ExclamationMark? || t.QuestionMark? || t.DoubleQuestionMark? || t.Semicolon?
    ensures TableRow(t) && SiblingRow(t)
  {
    if t.OverflowPlus? {
      RowOverflowPlus();
    } else if t.OverflowMinus? {
      RowOverflowMinus();
    } else if t.OverflowMultiply? {
      RowOverflowMultiply();
    } else if t.OverflowPlusEquals? {
      RowOverflowPlusEquals();
    } else if t.OverflowMinusEquals? {
      RowOverflowMinusEquals();
    } else if t.OverflowMultiplyEquals? {
      RowOverflowMultiplyEquals();
    } else if t.ExclamationMark? {
      RowExclamationMark();
    } else if t.QuestionMark? {
      RowQuestionMark();
    } else if t.DoubleQuestionMark? {
      RowDoubleQuestionMark();
    } else {
      RowSemicolon();
    }
  }

  lemma Rows03(t: OperatorTokenType)
    requires t.LogicalAnd? || t.LogicalOr? || t.Tilde? || t.Dot? || t.Ellipsis? || t.InclusiveRange? || t.ExclusiveRange? || t.Increment? || t.Decrement? || t.Equals?
    ensures TableRow(t) && SiblingRow(t)
  {
    if t.LogicalAnd? {
      RowLogicalAnd();
    } else if t.LogicalOr? {
      RowLogicalOr();
    } else if t.Tilde? {
      RowTilde();
    } else if t.Dot? {
      RowDot();
    } else if t.Ellipsis? {
      RowEllipsis();
    } else if t.InclusiveRange? {
      RowInclusiveRange();
    } else if t.ExclusiveRange? {
      RowExclusiveRange();
    } else if t.Increment? {
      RowIncrement();
    } else if t.Decrement? {
      RowDecrement();
    } else {
      RowEquals();
    }
  }

  lemma Rows04(t: OperatorTokenType)
    requires t.DoubleEquals? || t.NotEquals? || t.Colon? || t.Comma? || t.Less? || t.Greater? || t.LessOrEqual? || t.GreaterOrEqual? || t.LeftBracket? || t.RightBracket?
    ensures TableRow(t) && SiblingRow(t)
  {
    if t.DoubleEquals? {
      RowDoubleEquals();
    } else if t.NotEquals? {
      RowNotEquals();
    } else if t.Colon? {
      RowColon();
    } else if t.Comma? {
      RowComma();
    } else if t.Less? {
      RowLess();
    } else if t.Greater? {
      RowGreater();
    } else if t.LessOrEqual? {
      RowLessOrEqual();
    } else if t.GreaterOrEqual? {
      RowGreaterOrEqual();
    } else if t.LeftBracket? {
      RowLeftBracket();
    } else {
      RowRightBracket();
    }
  }

  lemma Rows05(t: OperatorTokenType)
    requires t.LeftSquareBracket? || t.RightSquareBracket? || t.LeftCurlyBracket? || t.RightCurlyBracket? || t.LeftArrow? || t.RightArrow? || t.Var? || t.Let? || t.If? || t.Func?
    ensures TableRow(t) && SiblingRow(t)
  {
    if t.LeftSquareBracket? {
      RowLeftSquareBracket();
    } else if t.RightSquareBracket? {
      RowRightSquareBracket();
    } else if t.LeftCurlyBracket? {
      RowLeftCurlyBracket();
    } else if t.RightCurlyBracket? {
      RowRightCurlyBracket();
    } else if t.LeftArrow? {
      RowLeftArrow();
    } else if t.RightArrow? {
      RowRightArrow();
    } else if t.Var? {
      RowVar();
    } else if t.Let? {
      RowLet();
    } else if t.If? {
      RowIf();
    } else {
      RowFunc();
    }
  }

  lemma Rows06(t: OperatorTokenType)
    requires t.Switch? || t.Case? || t.True? || t.False? || t.Nil? || t.Default? || t.Fallthrough? || t.Struct? || t.Class? || t.Else?
    ensures TableRow(t) && SiblingRow(t)
  {
    if t.Switch? {
      RowSwitch();
    } else if t.Case? {
      RowCase();
    } else if t.True? {
      RowTrue();
    } else if t.False? {
      RowFalse();
    } else if t.Nil? {
      RowNil();
    } else if t.Default? {
      RowDefault();
    } else if t.Fallthrough? {
      RowFallthrough();
    } else if t.Struct? {
      RowStruct();
    } else if t.Class? {
      RowClass();
    } else {
      RowElse();
    }
  }

  /** Every row of the table satisfies TableRow and SiblingRow. */
  lemma Row(t: OperatorTokenType)
    ensures TableRow(t) && SiblingRow(t)
  {
    if t.Plus? || t.Minus? || t.Multiply? || t.Divide? || t.Modulo? || t.BitwiseAnd? || t.BitwiseOr? || t.BitwiseXor? || t.ShiftLeft? || t.ShiftRight? {
      Rows00(t);
    } else if t.PlusEquals? || t.MinusEquals? || t.MultiplyEquals? || t.DivideEquals? || t.ModuloEquals? || t.BitwiseAndEquals? || t.BitwiseOrEquals? || t.BitwiseXorEquals? || t.ShiftLeftEquals? || t.ShiftRightEquals? {
      Rows01(t);
    } else if t.OverflowPlus? || t.OverflowMinus? || t.OverflowMultiply? || t.OverflowPlusEquals? || t.OverflowMinusEquals? || t.OverflowMultiplyEquals? || t.ExclamationMark? || t.QuestionMark? || t.DoubleQuestionMark? || t.Semicolon? {
      Rows02(t);
    } else if t.LogicalAnd? || t.LogicalOr? || t.Tilde? || t.Dot? || t.Ellipsis? || t.InclusiveRange? || t.ExclusiveRange? || t.Increment? || t.Decrement? || t.Equals? {
      Rows03(t);
    } else if t.DoubleEquals? || t.NotEquals? || t.Colon? || t.Comma? || t.Less? || t.Greater? || t.LessOrEqual? || t.GreaterOrEqual? || t.LeftBracket? || t.RightBracket? {
      Rows04(t);
    } else if t.LeftSquareBracket? || t.RightSquareBracket? || t.LeftCurlyBracket? || t.RightCurlyBracket? || t.LeftArrow? || t.RightArrow? || t.Var? || t.Let? || t.If? || t.Func? {
      Rows05(t);
    } else {
      Rows06(t);
    }
  }

  /** No two rows share a key: the dictionary literal is well formed and the map from tags to
      keys is one-to-one. */
  lemma SpellingInjective(a: OperatorTokenType, b: OperatorTokenType)
    ensures Spelling(a) == Spelling(b) ==> a == b
  {
    Row(a);
    Row(b);
  }

  /** The decision tree finds every key of tokenLookup, under the tag of its row. */
  lemma RecognizeKey(s: string)
    requires s in Keys()
    ensures Recognize(s).Some? && Spelling(Recognize(s).value) == s
  {
    var t :| t in AllTags && Spelling(t) == s;
    Row(t);
  }

  /** tokenLookup[s] for a key s: the tag of the row whose key is s. */
  function TokenLookup(s: string): (t: OperatorTokenType)
    requires s in Keys()
    ensures Spelling(t) == s
  {
    RecognizeKey(s);
    Recognize(s).value
  }

  /** tokenLookup is a bijection between its 70 keys and the 70 tags: every tag is the value of
      the row keyed by its spelling, and every key leads back to itself. */
  lemma TokenLookupBijective(t: OperatorTokenType, k: string)
    ensures Spelling(t) in Keys() && TokenLookup(Spelling(t)) == t
    ensures k in Keys() ==> Spelling(TokenLookup(k)) == k
  {
    SpellingIsKey(t);
    SpellingInjective(t, TokenLookup(Spelling(t)));
  }

  /** createReverseTokenLookup: visit the rows of tokenLookup in an unspecified order and record
      each row's key under its tag. Because no two rows share a tag, no row overwrites
      another, and the result inverts tokenLookup. */
  method CreateReverseTokenLookup() returns (reverseMap: map<OperatorTokenType, string>)
    ensures forall t :: t in reverseMap && reverseMap[t] in Keys() && TokenLookup(reverseMap[t]) == t
    ensures forall k | k in Keys() :: reverseMap[TokenLookup(k)] == k
  {
    reverseMap := map[];
    var remaining := Keys();
    while remaining != {}
      invariant remaining <= Keys()
      invariant forall k | k in Keys() && k !in remaining :: TokenLookup(k) in reverseMap && reverseMap[TokenLookup(k)] == k
      invariant forall t | t in reverseMap :: reverseMap[t] in Keys() && reverseMap[t] !in remaining && TokenLookup(reverseMap[t]) == t
      decreases remaining
    {
      var key :| key in remaining;
      reverseMap := reverseMap[TokenLookup(key) := key];
      remaining := remaining - {key};
    }
    forall t ensures t in reverseMap && reverseMap[t] in Keys() && TokenLookup(reverseMap[t]) == t {
      TokenLookupBijective(t, Spelling(t));
    }
  }

  /** OperatorToken(type:): the lexeme is reverseTokenLookup[type], which every tag has. */
  function OperatorTokenOfType(t: OperatorTokenType): (token: Token)
    ensures token.OperatorToken? && token.tokenType == t
    ensures token.lexeme in Keys() && TokenLookup(token.lexeme) == t
  {
    TokenLookupBijective(t, Spelling(t));
    OperatorToken(t, Spelling(t))
  }

  /** OperatorToken(str:): force-unwraps tokenLookup[str], so it traps unless str is a key. */
  function OperatorTokenOfString(str: string): (r: Outcome<Token>)
    ensures r.Done? <==> str in Keys()
    ensures r.Done? ==> r.value == OperatorToken(TokenLookup(str), str)
    ensures !r.Done? ==> r.Trapped?
  {
    if str in Keys() then Done(OperatorTokenOfType(TokenLookup(str))) else Trapped
  }

  /** The keys of tokenLookup.filter({$0.key.hasPrefix(str)}). */
  function KeysWithPrefix(str: string): set<string> {
    set k | k in Keys() && HasPrefix(k, str)
  }

  /** isStringValidStartOfToken: a count compared with `>= 0`, so it holds of every string. */
  function IsStringValidStartOfToken(str: string): (r: bool)
    ensures r
  {
    |KeysWithPrefix(str)| >= 0
  }

  /** isStringATerminalToken: exactly one key starts with str. */
  predicate IsStringATerminalToken(str: string) {
    |KeysWithPrefix(str)| == 1
  }

  /** isStringAValidToken: str is a key. */
  predicate IsStringAValidToken(str: string) {
    str in Keys()
  }

  lemma SingletonIffUnique<T>(s: set<T>)
    ensures |s| == 1 <==> exists x :: x in s && forall y | y in s :: y == x
  {
    if |s| == 1 {
      var x :| x in s;
      assert |s - {x}| == 0;
      assert s == {x};
    }
    if exists x :: x in s && forall y | y in s :: y == x {
      var x :| x in s && forall y | y in s :: y == x;
      assert s == {x};
    }
  }

  /** isStringATerminalToken(str) holds exactly when some key starts with str and no other key
      does. */
  lemma TerminalIffUniqueKey(str: string)
    ensures IsStringATerminalToken(str) <==>
      exists k :: k in Keys() && HasPrefix(k, str) && forall k' | k' in Keys() && HasPrefix(k', str) :: k' == k
  {
    var ks := KeysWithPrefix(str);
    SingletonIffUnique(ks);
    if IsStringATerminalToken(str) {
      var k :| k in ks && forall y | y in ks :: y == k;
      assert k in Keys() && HasPrefix(k, str);
      assert forall k' | k' in Keys() && HasPrefix(k', str) :: k' in ks;
    }
    if exists k :: k in Keys() && HasPrefix(k, str) && forall k' | k' in Keys() && HasPrefix(k', str) :: k' == k {
      var k :| k in Keys() && HasPrefix(k, str) && forall k' | k' in Keys() && HasPrefix(k', str) :: k' == k;
      assert k in ks;
    }
  }

  /** Two different tags whose keys start with str keep str from being terminal. */
  lemma SharedPrefixNotTerminal(str: string, a: OperatorTokenType, b: OperatorTokenType)
    requires a != b && HasPrefix(Spelling(a), str) && HasPrefix(Spelling(b), str)
    ensures !IsStringATerminalToken(str)
  {
    SpellingIsKey(a);
    SpellingIsKey(b);
    SpellingInjective(a, b);
    var ks := KeysWithPrefix(str);
    assert Spelling(a) in ks && Spelling(b) in ks;
    SingletonIffUnique(ks);
  }

  /** A tag whose key is the only one starting with str makes str terminal. */
  lemma OnlyPrefixTerminal(str: string, t: OperatorTokenType)
    requires HasPrefix(Spelling(t), str)
    requires forall u :: HasPrefix(Spelling(u), str) ==> u == t
    ensures IsStringATerminalToken(str)
  {
    SpellingIsKey(t);
    forall k | k in KeysWithPrefix(str) ensures k == Spelling(t) {
      SpellingInjective(TokenLookup(k), t);
    }
    assert KeysWithPrefix(str) == {Spelling(t)};
  }

  lemma {:induction false} PrefixThroughCommonStart(a: string, b: string, str: string, n: nat)
    requires HasPrefix(a, str) && |str| <= n <= |a| && n <= |b|
    requires forall i :: 0 <= i < n ==> a[i] == b[i]
    ensures HasPrefix(b, str)
  {
    HasPrefixMeaning(a, str);
    HasPrefixMeaning(b, str);
  }

  /** Every non-empty proper prefix of an operator key (one that does not start with a
      letter) is shared with another key. */
  lemma ProperPrefixOfOperatorShared(t: OperatorTokenType, str: string)
    requires !IsKeyword(t)
    requires HasPrefix(Spelling(t), str) && 0 < |str| < |Spelling(t)|
    ensures HasPrefix(Spelling(Sibling(t)), str) && Sibling(t) != t
  {
    Row(t);
    PrefixThroughCommonStart(Spelling(t), Spelling(Sibling(t)), str, |Spelling(t)| - 1);
  }

  /** A terminal string that starts with a character other than a letter is a key, so
      OperatorToken(str:) does not trap on it. */
  lemma TerminalOperatorIsKey(str: string)
    requires |str| > 0 && !IsLetter(str[0])
    requires IsStringATerminalToken(str)
    ensures IsStringAValidToken(str)
  {
    TerminalIffUniqueKey(str);
    var k :| k in Keys() && HasPrefix(k, str) && forall k' | k' in Keys() && HasPrefix(k', str) :: k' == k;
    var t := TokenLookup(k);
    HasPrefixMeaning(k, str);
    if |str| < |k| {
      assert !IsKeyword(t) by {
        Row(t);
      }
      ProperPrefixOfOperatorShared(t, str);
      SpellingIsKey(Sibling(t));
      SpellingInjective(Sibling(t), t);
    } else {
      assert str == k;
    }
  }

  // For each key that ends its branch of the decision tree: a recognised string starting with it is it.
  lemma VarEndsBranch(s: string) requires HasPrefix(s, Spelling(Var)) && Recognize(s).Some? ensures s == Spelling(Var) { HasPrefixMeaning(s, "var"); }
  lemma LetEndsBranch(s: string) requires HasPrefix(s, Spelling(Let)) && Recognize(s).Some? ensures s == Spelling(Let) { HasPrefixMeaning(s, "let"); }
  lemma IfEndsBranch(s: string) requires HasPrefix(s, Spelling(If)) && Recognize(s).Some? ensures s == Spelling(If) { HasPrefixMeaning(s, "if"); }
  lemma FuncEndsBranch(s: string) requires HasPrefix(s, Spelling(Func)) && Recognize(s).Some? ensures s == Spelling(Func) { HasPrefixMeaning(s, "func"); }
  lemma SwitchEndsBranch(s: string) requires HasPrefix(s, Spelling(Switch)) && Recognize(s).Some? ensures s == Spelling(Switch) { HasPrefixMeaning(s, "switch"); }
  lemma CaseEndsBranch(s: string) requires HasPrefix(s, Spelling(Case)) && Recognize(s).Some? ensures s == Spelling(Case) { HasPrefixMeaning(s, "case"); }
  lemma TrueEndsBranch(s: string) requires HasPrefix(s, Spelling(True)) && Recognize(s).Some? ensures s == Spelling(True) { HasPrefixMeaning(s, "true"); }
  lemma FalseEndsBranch(s: string) requires HasPrefix(s, Spelling(False)) && Recognize(s).Some? ensures s == Spelling(False) { HasPrefixMeaning(s, "false"); }
  lemma NilEndsBranch(s: string) requires HasPrefix(s, Spelling(Nil)) && Recognize(s).Some? ensures s == Spelling(Nil) { HasPrefixMeaning(s, "nil"); }
  lemma DefaultEndsBranch(s: string) requires HasPrefix(s, Spelling(Default)) && Recognize(s).Some? ensures s == Spelling(Default) { HasPrefixMeaning(s, "default"); }
  lemma FallthroughEndsBranch(s: string) requires HasPrefix(s, Spelling(Fallthrough)) && Recognize(s).Some? ensures s == Spelling(Fallthrough) { HasPrefixMeaning(s, "fallthrough"); }
  lemma StructEndsBranch(s: string) requires HasPrefix(s, Spelling(Struct)) && Recognize(s).Some? ensures s == Spelling(Struct) { HasPrefixMeaning(s, "struct"); }
  lemma ClassEndsBranch(s: string) requires HasPrefix(s, Spelling(Class)) && Recognize(s).Some? ensures s == Spelling(Class) { HasPrefixMeaning(s, "class"); }
  lemma ElseEndsBranch(s: string) requires HasPrefix(s, Spelling(Else)) && Recognize(s).Some? ensures s == Spelling(Else) { HasPrefixMeaning(s, "else"); }
  lemma ShiftLeftEqualsEndsBranch(s: string) requires HasPrefix(s, Spelling(ShiftLeftEquals)) && Recognize(s).Some? ensures s == Spelling(ShiftLeftEquals) { HasPrefixMeaning(s, "<<="); }
  lemma LeftBracketEndsBranch(s: string) requires HasPrefix(s, Spelling(LeftBracket)) && Recognize(s).Some? ensures s == Spelling(LeftBracket) { HasPrefixMeaning(s, "("); }

  lemma LeavesEndBranch0(s: string, t: OperatorTokenType)
    requires t.Var? || t.Let? || t.If? || t.Func? || t.Switch?
    requires HasPrefix(s, Spelling(t)) && Recognize(s).Some?
    ensures s == Spelling(t)
  {
    if t.Var? {
      VarEndsBranch(s);
    } else if t.Let? {
      LetEndsBranch(s);
    } else if t.If? {
      IfEndsBranch(s);
    } else if t.Func? {
      FuncEndsBranch(s);
    } else {
      SwitchEndsBranch(s);
    }
  }

  lemma LeavesEndBranch1(s: string, t: OperatorTokenType)
    requires t.Case? || t.True? || t.False? || t.Nil? || t.Default?
    requires HasPrefix(s, Spelling(t)) && Recognize(s).Some?
    ensures s == Spelling(t)
  {
    if t.Case? {
      CaseEndsBranch(s);
    } else if t.True? {
      TrueEndsBranch(s);
    } else if t.False? {
      FalseEndsBranch(s);
    } else if t.Nil? {
      NilEndsBranch(s);
    } else {
      DefaultEndsBranch(s);
    }
  }

  lemma LeavesEndBranch2(s: string, t: OperatorTokenType)
    requires t.Fallthrough? || t.Struct? || t.Class? || t.Else? || t.ShiftLeftEquals? || t.LeftBracket?
    requires HasPrefix(s, Spelling(t)) && Recognize(s).Some?
    ensures s == Spelling(t)
  {
    if t.Fallthrough? {
      FallthroughEndsBranch(s);
    } else if t.Struct? {
      StructEndsBranch(s);
    } else if t.Class? {
      ClassEndsBranch(s);
    } else if t.Else? {
      ElseEndsBranch(s);
    } else if t.ShiftLeftEquals? {
      ShiftLeftEqualsEndsBranch(s);
    } else {
      LeftBracketEndsBranch(s);
    }
  }

  /** Keywords, `<<=` and `(` end their branch of the decision tree: a recognised string that
      starts with one of them is that key. */
  lemma LeafKeyEndsBranch(s: string, t: OperatorTokenType)
    requires IsKeyword(t) || t == ShiftLeftEquals || t == LeftBracket
    requires HasPrefix(s, Spelling(t)) && Recognize(s).Some?
    ensures s == Spelling(t)
  {
    if t.Var? || t.Let? || t.If? || t.Func? || t.Switch? {
      LeavesEndBranch0(s, t);
    } else if t.Case? || t.True? || t.False? || t.Nil? || t.Default? {
      LeavesEndBranch1(s, t);
    } else {
      LeavesEndBranch2(s, t);
    }
  }

  /** No other key starts with a key that ends its branch. */
  lemma LeafKeyUnextended(t: OperatorTokenType, u: OperatorTokenType)
    requires IsKeyword(t) || t == ShiftLeftEquals || t == LeftBracket
    ensures HasPrefix(Spelling(u), Spelling(t)) ==> u == t
  {
    if HasPrefix(Spelling(u), Spelling(t)) {
      Row(u);
      LeafKeyEndsBranch(Spelling(u), t);
      SpellingInjective(u, t);
    }
  }

  /** A key is terminal exactly when no other key starts with it. */
  lemma KeyTerminalIffUnextended(t: OperatorTokenType)
    ensures IsStringATerminalToken(Spelling(t)) <==> forall u :: HasPrefix(Spelling(u), Spelling(t)) ==> u == t
  {
    HasPrefixMeaning(Spelling(t), Spelling(t));
    if forall u :: HasPrefix(Spelling(u), Spelling(t)) ==> u == t {
      OnlyPrefixTerminal(Spelling(t), t);
    } else {
      var u :| HasPrefix(Spelling(u), Spelling(t)) && u != t;
      SharedPrefixNotTerminal(Spelling(t), t, u);
    }
  }

  /** Every keyword is terminal, and so are `<<=` and `(`: each is a key and no other key starts
      with it. */
  lemma LeafKeyIsTerminal(t: OperatorTokenType)
    requires IsKeyword(t) || t == ShiftLeftEquals || t == LeftBracket
    ensures IsStringATerminalToken(Spelling(t)) && IsStringAValidToken(Spelling(t))
  {
    forall u ensures HasPrefix(Spelling(u), Spelling(t)) ==> u == t {
      LeafKeyUnextended(t, u);
    }
    KeyTerminalIffUnextended(t);
    SpellingIsKey(t);
  }

  lemma {:induction false} PrefixTransitive(a: string, b: string, c: string)
    requires HasPrefix(a, b) && HasPrefix(b, c)
    ensures HasPrefix(a, c)
  {
    HasPrefixMeaning(a, b);
    HasPrefixMeaning(b, c);
    HasPrefixMeaning(a, c);
  }

  /** A string that extends a key ending its branch starts no key at all. */
  lemma NothingExtendsLeaf(t: OperatorTokenType, str: string)
    requires IsKeyword(t) || t == ShiftLeftEquals || t == LeftBracket
    requires HasPrefix(str, Spelling(t)) && |str| > |Spelling(t)|
    ensures KeysWithPrefix(str) == {}
  {
    forall k | k in KeysWithPrefix(str) ensures false {
      var u := TokenLookup(k);
      PrefixTransitive(k, str, Spelling(t));
      LeafKeyUnextended(t, u);
      HasPrefixMeaning(k, str);
    }
  }

  /** `<` and `..` are not terminal: each begins two keys. */
  lemma SharedStartsNotTerminal()
    ensures !IsStringATerminalToken("<") && !IsStringATerminalToken("..")
  {
    SharedPrefixNotTerminal("<", Less, ShiftLeft);
    SharedPrefixNotTerminal("..", Ellipsis, InclusiveRange);
  }

  /** `fal` is not terminal: it begins both `false` and `fallthrough`. */
  lemma SharedKeywordStartNotTerminal()
    ensures !IsStringATerminalToken("fal")
  {
    SharedPrefixNotTerminal("fal", False, Fallthrough);
  }

  /** In the decision tree only `var` continues from `v`. */
  lemma OnlyVarAfterV(s: string)
    requires HasPrefix(s, "v") && Recognize(s).Some?
    ensures s == "var"
  {
    HasPrefixMeaning(s, "v");
  }

  /** In the decision tree only `default` continues from `d`. */
  lemma OnlyDefaultAfterD(s: string)
    requires HasPrefix(s, "d") && Recognize(s).Some?
    ensures s == "default"
  {
    HasPrefixMeaning(s, "d");
  }

  /** A string is terminal when, in the decision tree, the one key it starts continues from it. */
  lemma TerminalByTree(str: string, t: OperatorTokenType)
    requires HasPrefix(Spelling(t), str)
    requires forall s :: HasPrefix(s, str) && Recognize(s).Some? ==> s == Spelling(t)
    ensures IsStringATerminalToken(str)
  {
    forall u ensures HasPrefix(Spelling(u), str) ==> u == t {
      Row(u);
      SpellingInjective(u, t);
    }
    OnlyPrefixTerminal(str, t);
  }

  /** isStringAValidToken holds exactly when the dictionary finds the string, under the tag
      whose key it is. */
  lemma ValidTokenIffRecognized(str: string)
    ensures IsStringAValidToken(str) <==> Recognize(str).Some? && Spelling(Recognize(str).value) == str
  {
    if IsStringAValidToken(str) {
      RecognizeKey(str);
    }
    if Recognize(str).Some? {
      SpellingIsKey(Recognize(str).value);
    }
  }

  /** A string the decision tree does not recognise is no key. */
  lemma NotRecognizedNotKey(str: string)
    requires Recognize(str) == Nothing
    ensures !IsStringAValidToken(str)
  {
    forall t ensures Spelling(t) != str {
      Row(t);
    }
  }

  /** `v` is terminal (only `var` starts with it) without being a key itself. */
  lemma PartialKeywordV()
    ensures IsStringATerminalToken("v") && !IsStringAValidToken("v")
  {
    forall s | HasPrefix(s, "v") && Recognize(s).Some? ensures s == Spelling(Var) {
      OnlyVarAfterV(s);
    }
    HasPrefixMeaning(Spelling(Var), "v");
    TerminalByTree("v", Var);
    NotRecognizedNotKey("v");
  }

  /** `d` is terminal (only `default` starts with it) without being a key itself. */
  lemma PartialKeywordD()
    ensures IsStringATerminalToken("d") && !IsStringAValidToken("d")
  {
    forall s | HasPrefix(s, "d") && Recognize(s).Some? ensures s == Spelling(Default) {
      OnlyDefaultAfterD(s);
    }
    HasPrefixMeaning(Spelling(Default), "d");
    TerminalByTree("d", Default);
    NotRecognizedNotKey("d");
  }

  /** Keywords are spelt in lower-case letters. */
  lemma KeywordLetters(t: OperatorTokenType)
    requires IsKeyword(t)
    ensures |Spelling(t)| > 0
    ensures forall i :: 0 <= i < |Spelling(t)| ==> 'a' <= Spelling(t)[i] <= 'z'
  {
    match t
    case Var =>
    case Let =>
    case If =>
    case Func =>
    case Switch =>
    case Case =>
    case True =>
    case False =>
    case Nil =>
    case Default =>
    case Fallthrough =>
    case Struct =>
    case Class =>
    case Else =>
    case _ =>
  }

  /** A string that no string the decision tree recognises starts with starts no key. */
  lemma UnrecognizedStartsNoKey(str: string)
    requires forall s :: HasPrefix(s, str) ==> Recognize(s) == Nothing
    ensures KeysWithPrefix(str) == {}
  {
    forall k | k in Keys() ensures !HasPrefix(k, str) {
      RecognizeKey(k);
    }
    assert forall k :: k in KeysWithPrefix(str) ==> k in Keys() && HasPrefix(k, str);
  }

  /** No key starts with a letter outside the keywords' first letters, with `_` or with a
      digit: such a string is read as an identifier. */
  lemma NoKeyStartsWith(c: char)
    requires c == '_' || IsNumber(c) || (IsLetter(c) && c !in "vlifsctndfe")
    ensures KeysWithPrefix([c]) == {}
  {
    forall s | HasPrefix(s, [c]) ensures Recognize(s) == Nothing {
      HasPrefixMeaning(s, [c]);
      assert s[0] == c;
    }
    UnrecognizedStartsNoKey([c]);
  }

  /** No key has whitespace after its first character. */
  lemma NoKeyContinuesWithWhitespace(c: char, w: char)
    requires IsWhitespace(w)
    ensures KeysWithPrefix([c, w]) == {}
  {
    forall s | HasPrefix(s, [c, w]) ensures Recognize(s) == Nothing {
      HasPrefixMeaning(s, [c, w]);
      assert s[0] == c && s[1] == w;
    }
    UnrecognizedStartsNoKey([c, w]);
  }
}
