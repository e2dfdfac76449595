/** The driver of the lexer (Compiler/lexer/lexer.swift): one handler call per character of the
    input with a space appended, the state and lexeme carried from call to call and every token
    a handler finishes collected in order. */
module Lexer {
  import opened Text
  import opened Exceptions
  import opened Outcomes
  import opened Tokens
  import opened IntegerToken
  import opened OperatorToken
  import opened StringCharacter
  import opened NoneState
  import opened IntegerState
  import opened CharacterState
  import opened StringState
  import opened OperatorState
  import opened IdentifierState

  /** lexCharacter: the handler of the state, with its thrown errors passed on. Only the
      literal handlers throw, only the operator and identifier handlers trap (on a force
      unwrap of a dictionary lookup), and the None state neither throws nor finishes a token. */
  function LexCharacter(c: char, state: LexerState, lexeme: string): (r: Outcome<StepResult>)
    ensures r.Thrown? ==> state == IntegerLiteral || state == CharacterLiteral || state == StringLiteral
    ensures r.Trapped? ==> state == Operator || state == Identifier
    ensures state == None ==> r.Done? && r.value.token == Nothing
  {
    match state
    case None => Done(LexCharacterInNone(c, lexeme))
    case IntegerLiteral => Try(LexCharacterInInteger(c, lexeme))
    case CharacterLiteral => LexCharacterInCharacter(c, lexeme)
    case StringLiteral => Try(LexCharacterInString(c, lexeme))
    case Operator => LexCharacterInOperator(c, lexeme)
    case Identifier => LexCharacterInIdentifier(c, lexeme)
  }

  /** The token a handler result carries, as a sequence of zero or one tokens. */
  function Emitted(result: StepResult): seq<Token> {
    match result.token
    case Some(t) => [t]
    case Nothing => []
  }

  /** The loop of lex from some point on: the characters still to read, the state and lexeme
      carried so far and the tokens collected so far. */
  function Run(chars: string, state: LexerState, lexeme: string, tokens: seq<Token>): Outcome<seq<Token>>
    decreases |chars|
  {
    if |chars| == 0 then Done(tokens)
    else
      var result :- LexCharacter(chars[0], state, lexeme);
      Run(chars[1..], result.state, result.lexeme, tokens + Emitted(result))
  }

  /** One turn of the loop, for a character the handler accepts. */
  lemma RunStep(chars: string, state: LexerState, lexeme: string, tokens: seq<Token>, result: StepResult)
    requires |chars| > 0 && LexCharacter(chars[0], state, lexeme) == Done(result)
    ensures Run(chars, state, lexeme, tokens) == Run(chars[1..], result.state, result.lexeme, tokens + Emitted(result))
  {
  }

  /** One turn of the loop, for a character the handler rejects: the loop ends with the
      handler's error or trap. */
  lemma RunStops(chars: string, state: LexerState, lexeme: string, tokens: seq<Token>)
    requires |chars| > 0
    ensures LexCharacter(chars[0], state, lexeme).Thrown? ==>
      Run(chars, state, lexeme, tokens) == Thrown(LexCharacter(chars[0], state, lexeme).error)
    ensures LexCharacter(chars[0], state, lexeme).Trapped? ==> Run(chars, state, lexeme, tokens) == Trapped
  {
  }

  /** What lex computes: the loop over the input with a space appended, from state None. */
  function Lexed(str: string): Outcome<seq<Token>> {
    Run(str + " ", None, "", [])
  }

  /** lex. */
  method Lex(str: string) returns (r: Outcome<seq<Token>>)
    ensures r == Lexed(str)
  {
    var input := str + " ";
    var tokens: seq<Token> := [];
    var state := None;
    var lexeme := "";
    var i := 0;
    while i < |input|
      invariant 0 <= i <= |input|
      invariant Run(input[i..], state, lexeme, tokens) == Lexed(str)
    {
      assert input[i..][0] == input[i] && input[i..][1..] == input[i + 1..];
      var result := LexCharacter(input[i], state, lexeme);
      RunStops(input[i..], state, lexeme, tokens);
      match result
      case Thrown(e) =>
        return Thrown(e);
      case Trapped =>
        return Trapped;
      case Done(step) =>
        RunStep(input[i..], state, lexeme, tokens, step);
        state := step.state;
        lexeme := step.lexeme;
        if step.token.Some? {
          tokens := tokens + [step.token.value];
        } else {
          assert tokens + Emitted(step) == tokens;
        }
        i := i + 1;
    }
    return Done(tokens);
  }

  // ---------------------------------------------------------------------------------------
  // The shape of the result

  /** The loop only appends: the tokens collected so far stay at the front, and each character
      adds at most one token. */
  lemma {:induction false} RunAppends(chars: string, state: LexerState, lexeme: string, tokens: seq<Token>)
    requires Run(chars, state, lexeme, tokens).Done?
    ensures tokens <= Run(chars, state, lexeme, tokens).value
    ensures |Run(chars, state, lexeme, tokens).value| <= |tokens| + |chars|
    decreases |chars|
  {
    if |chars| > 0 {
      var result := LexCharacter(chars[0], state, lexeme).value;
      RunAppends(chars[1..], result.state, result.lexeme, tokens + Emitted(result));
    }
  }

  /** An input of n characters gives at most n + 1 tokens. */
  lemma TokenCount(str: string)
    requires Lexed(str).Done?
    ensures |Lexed(str).value| <= |str| + 1
  {
    RunAppends(str + " ", None, "", []);
  }

  /** The empty input gives no tokens. */
  lemma EmptyInput()
    ensures Lexed("") == Done([])
  {
    assert "" + " " == " ";
    Blank([]);
  }

  /** A space read in state None, at the end of the input, adds nothing. */
  lemma Blank(tokens: seq<Token>)
    ensures Run(" ", None, "", tokens) == Done(tokens)
  {
    var step := StepResult(None, Nothing, "");
    RunStep(" ", None, "", tokens, step);
    assert tokens + Emitted(step) == tokens;
  }

  /** A space that finishes a token, at the end of the input, adds that token. */
  lemma FinishingBlank(state: LexerState, lexeme: string, tokens: seq<Token>, token: Token)
    requires LexCharacter(' ', state, lexeme) == Done(StepResult(None, Some(token), ""))
    ensures Run(" ", state, lexeme, tokens) == Done(tokens + [token])
  {
    RunStep(" ", state, lexeme, tokens, StepResult(None, Some(token), ""));
  }

  // ---------------------------------------------------------------------------------------
  // Reading the body of a token

  predicate IsWordChar(c: char) {
    IsLetter(c) || IsNumber(c) || c == '_'
  }

  /** Letters, digits and `_` extend an identifier. */
  lemma {:induction false} IdentifierRun(t: string, rest: string, lexeme: string, tokens: seq<Token>)
    requires forall i :: 0 <= i < |t| ==> IsWordChar(t[i])
    ensures Run(t + rest, Identifier, lexeme, tokens) == Run(rest, Identifier, lexeme + t, tokens)
    decreases |t|
  {
    if |t| == 0 {
      assert t + rest == rest && lexeme + t == lexeme;
    } else {
      assert t + rest == [t[0]] + (t[1..] + rest);
      var step := StepResult(Identifier, Nothing, lexeme + [t[0]]);
      assert IsWordChar(t[0]);
      RunStep(t + rest, Identifier, lexeme, tokens, step);
      assert tokens + Emitted(step) == tokens;
      IdentifierRun(t[1..], rest, lexeme + [t[0]], tokens);
      HeadAppend(lexeme, t);
    }
  }

  /** Appending the first character of t, then the rest of t, appends t. */
  lemma HeadAppend(a: string, t: string)
    requires |t| > 0
    ensures a + [t[0]] + t[1..] == a + t
  {
    assert [t[0]] + t[1..] == t;
  }

  /** One digit, letter or `_` that passes the prefix checks is appended to an integer
      literal. */
  lemma IntegerStep(c: char, rest: string, lexeme: string, tokens: seq<Token>)
    requires IsNumber(c) || IsLetter(c) || c == '_'
    requires PrefixError(c, lexeme).Nothing?
    ensures Run([c] + rest, IntegerLiteral, lexeme, tokens) == Run(rest, IntegerLiteral, lexeme + [c], tokens)
  {
    var step := StepResult(IntegerLiteral, Nothing, lexeme + [c]);
    assert LexCharacterInInteger(c, lexeme) == Ok(step);
    RunStep([c] + rest, IntegerLiteral, lexeme, tokens, step);
    assert ([c] + rest)[1..] == rest;
    assert tokens + Emitted(step) == tokens;
  }

  /** Digits, letters and `_` extend an integer literal, as long as a letter right after a
      lone `0` names a base. */
  lemma {:induction false} IntegerRun(t: string, rest: string, lexeme: string, tokens: seq<Token>)
    requires |lexeme| > 0
    requires forall i :: 0 <= i < |t| ==> IsNumber(t[i]) || IsLetter(t[i]) || t[i] == '_'
    requires lexeme == "0" && |t| > 0 && IsLetter(t[0]) ==> t[0] == 'x' || t[0] == 'o' || t[0] == 'b'
    ensures Run(t + rest, IntegerLiteral, lexeme, tokens) == Run(rest, IntegerLiteral, lexeme + t, tokens)
    decreases |t|
  {
    if |t| == 0 {
      assert t + rest == rest && lexeme + t == lexeme;
    } else {
      assert t + rest == [t[0]] + (t[1..] + rest);
      assert PrefixError(t[0], lexeme).Nothing?;
      IntegerStep(t[0], t[1..] + rest, lexeme, tokens);
      IntegerRun(t[1..], rest, lexeme + [t[0]], tokens);
      HeadAppend(lexeme, t);
    }
  }

  /** A string literal's body whose quotes are all escaped is read to its end. */
  lemma {:induction false} StringRun(t: string, rest: string, tokens: seq<Token>)
    requires QuotesEscaped(t)
    ensures Run(t + rest, StringLiteral, "", tokens) == Run(rest, StringLiteral, t, tokens)
    decreases |t|
  {
    if |t| == 0 {
      assert t + rest == rest;
    } else {
      var p, c := t[..|t| - 1], t[|t| - 1];
      assert t + rest == p + ([c] + rest);
      StringRun(p, [c] + rest, tokens);
      var step := StepResult(StringLiteral, Nothing, p + [c]);
      RunStep([c] + rest, StringLiteral, p, tokens, step);
      assert ([c] + rest)[1..] == rest;
      assert p + [c] == t;
      assert tokens + Emitted(step) == tokens;
    }
  }

  /** An operator lexeme that starts no key takes in every character that follows, to the end
      of the input, and the tokens collected before it are the result. */
  lemma {:induction false} OperatorSwallowsRest(t: string, lexeme: string, tokens: seq<Token>)
    requires KeysWithPrefix(lexeme) == {}
    ensures Run(t, Operator, lexeme, tokens) == Done(tokens)
    decreases |t|
  {
    if |t| > 0 {
      DeadLexemeSwallows(t[0], lexeme);
      var step := StepResult(Operator, Nothing, lexeme + [t[0]]);
      RunStep(t, Operator, lexeme, tokens, step);
      assert tokens + Emitted(step) == tokens;
      OperatorSwallowsRest(t[1..], lexeme + [t[0]], tokens);
    }
  }

  // ---------------------------------------------------------------------------------------
  // Whole inputs

  /** The first turn of the loop on a fresh lexer: the None handler picks the state. */
  lemma FirstStep(c: char, rest: string)
    ensures Run([c] + rest, None, "", []) ==
            Run(rest, LexCharacterInNone(c, "").state, LexCharacterInNone(c, "").lexeme, [])
  {
    var chars := [c] + rest;
    assert chars[0] == c && chars[1..] == rest;
    var first := LexCharacterInNone(c, "");
    RunStep(chars, None, "", [], first);
    assert [] + Emitted(first) == [];
  }

  /** The same first turn, on input split after its first character. */
  lemma FirstStepOf(s: string, rest: string)
    requires |s| > 0
    ensures Run(s + rest, None, "", []) ==
            Run(s[1..] + rest, LexCharacterInNone(s[0], "").state, LexCharacterInNone(s[0], "").lexeme, [])
  {
    assert s + rest == [s[0]] + (s[1..] + rest);
    FirstStep(s[0], s[1..] + rest);
  }

  /** A word is read to its end in state Identifier. */
  lemma WordRun(s: string)
    requires |s| > 0 && (IsLetter(s[0]) || s[0] == '_')
    requires forall i :: 0 <= i < |s| ==> IsWordChar(s[i])
    ensures Lexed(s) == Run(" ", Identifier, s, [])
  {
    FirstStepOf(s, " ");
    var first := LexCharacterInNone(s[0], "");
    assert first.state == Identifier && first.lexeme == [s[0]];
    var t := s[1..];
    assert forall i :: 0 <= i < |t| ==> IsWordChar(t[i]) by {
      forall i | 0 <= i < |t| ensures IsWordChar(t[i]) { assert t[i] == s[i + 1]; }
    }
    IdentifierRun(t, " ", [s[0]], []);
    assert [s[0]] + s[1..] == s;
  }

  /** Lower-case letters make a word. */
  lemma LowercaseWord(s: string)
    requires |s| > 0 && forall i :: 0 <= i < |s| ==> 'a' <= s[i] <= 'z'
    ensures IsLetter(s[0]) && forall i :: 0 <= i < |s| ==> IsWordChar(s[i])
  {
  }

  /** A word that the blank after it finishes as a token is that token alone. */
  lemma FinishedWord(s: string, token: Token)
    requires |s| > 0 && (IsLetter(s[0]) || s[0] == '_')
    requires forall i :: 0 <= i < |s| ==> IsWordChar(s[i])
    requires LexCharacterInIdentifier(' ', s) == Done(StepResult(None, Some(token), ""))
    ensures Lexed(s) == Done([token])
  {
    WordRun(s);
    FinishingBlank(Identifier, s, [], token);
    assert [] + [token] == [token];
  }

  /** A word (a letter or `_`, then letters, digits and `_`) is one token: an identifier, or,
      when exactly one key starts with it, the keyword it is, or a trap when it is only the
      start of that keyword. */
  lemma WordInput(s: string)
    requires |s| > 0 && (IsLetter(s[0]) || s[0] == '_')
    requires forall i :: 0 <= i < |s| ==> IsWordChar(s[i])
    ensures !IsStringATerminalToken(s) ==> Lexed(s) == Done([IdentifierToken(s)])
    ensures IsStringATerminalToken(s) && s in Keys() ==> Lexed(s) == Done([OperatorToken(TokenLookup(s), s)])
    ensures IsStringATerminalToken(s) && s !in Keys() ==> Lexed(s) == Trapped
  {
    WordRun(s);
    var last := LexCharacterInIdentifier(' ', s);
    if last.Done? {
      FinishingBlank(Identifier, s, [], last.value.token.value);
      assert [] + [last.value.token.value] == [last.value.token.value];
    }
  }

  /** Every keyword on its own is the operator token of its tag. */
  lemma KeywordInput(t: OperatorTokenType)
    requires IsKeyword(t)
    ensures Lexed(Spelling(t)) == Done([OperatorToken(t, Spelling(t))])
  {
    var s := Spelling(t);
    KeywordLetters(t);
    LowercaseWord(s);
    KeywordBecomesOperatorToken(t, ' ');
    var blank := LexCharacterInNone(' ', "");
    assert blank.state == None && blank.lexeme == "";
    FinishedWord(s, OperatorToken(t, s));
  }

  /** `v` starts only `var` and is no key, so the force unwrap in the keyword lookup traps; `fal`
      starts both `false` and `fallthrough`, so it is an identifier; `_123` starts no key. */
  lemma PartialKeywordInputs()
    ensures Lexed("v") == Trapped
    ensures Lexed("fal") == Done([IdentifierToken("fal")])
    ensures Lexed("_123") == Done([IdentifierToken("_123")])
  {
    PartialKeywordV();
    WordInput("v");
    SharedKeywordStartNotTerminal();
    WordInput("fal");
    NoKeyStartsWith('_');
    NothingExtendsNoKey("_", "_123");
    WordInput("_123");
  }

  /** A string with no key among its extensions has none among the extensions of a longer
      string that starts with it. */
  lemma NothingExtendsNoKey(str: string, longer: string)
    requires KeysWithPrefix(str) == {} && HasPrefix(longer, str)
    ensures KeysWithPrefix(longer) == {}
  {
    forall k | k in Keys() && HasPrefix(k, longer) ensures HasPrefix(k, str) {
      PrefixTransitive(k, longer, str);
    }
    assert forall k :: k in KeysWithPrefix(longer) ==> k in KeysWithPrefix(str);
  }

  /** A lexeme that starts with a digit and goes on with digits, letters and `_`, with a base
      letter after a lone leading `0`, is read to its end in state IntegerLiteral. */
  lemma IntegerLexemeRun(s: string)
    requires |s| > 0 && IsNumber(s[0])
    requires forall i :: 0 <= i < |s| ==> IsNumber(s[i]) || IsLetter(s[i]) || s[i] == '_'
    requires s[0] == '0' && |s| > 1 && IsLetter(s[1]) ==> s[1] == 'x' || s[1] == 'o' || s[1] == 'b'
    ensures Lexed(s) == Run(" ", IntegerLiteral, s, [])
  {
    FirstStepOf(s, " ");
    var first := LexCharacterInNone(s[0], "");
    assert first.state == IntegerLiteral && first.lexeme == [s[0]];
    var t := s[1..];
    assert forall i :: 0 <= i < |t| ==> IsNumber(t[i]) || IsLetter(t[i]) || t[i] == '_' by {
      forall i | 0 <= i < |t| ensures IsNumber(t[i]) || IsLetter(t[i]) || t[i] == '_' { assert t[i] == s[i + 1]; }
    }
    IntegerRun(t, " ", [s[0]], []);
    assert [s[0]] + s[1..] == s;
  }

  /** Such a lexeme on its own gives its integer token, or the error building the token
      throws. */
  lemma IntegerLexemeInput(s: string)
    requires |s| > 0 && IsNumber(s[0])
    requires forall i :: 0 <= i < |s| ==> IsNumber(s[i]) || IsLetter(s[i]) || s[i] == '_'
    requires s[0] == '0' && |s| > 1 && IsLetter(s[1]) ==> s[1] == 'x' || s[1] == 'o' || s[1] == 'b'
    ensures IntegerLiteralTokenOf(s).Ok? ==> Lexed(s) == Done([IntegerLiteralTokenOf(s).value])
    ensures IntegerLiteralTokenOf(s).Err? ==> Lexed(s) == Thrown(IntegerLiteralTokenOf(s).error)
  {
    IntegerLexemeRun(s);
    assert PrefixError(' ', s).Nothing?;
    if IntegerLiteralTokenOf(s).Ok? {
      var token := IntegerLiteralTokenOf(s).value;
      FinishingBlank(IntegerLiteral, s, [], token);
      assert [] + [token] == [token];
    }
  }

  /** The base prefix followed by an encoding starts with a digit, goes on with digits and
      letters, and has its base letter right after a leading `0`. */
  lemma EncodedLexeme(v: UInt64, base: nat)
    requires base == 2 || base == 8 || base == 10 || base == 16
    ensures var s := PrefixOf(base) + Encode(v, base);
      && |s| > 0 && IsNumber(s[0])
      && (forall i :: 0 <= i < |s| ==> IsNumber(s[i]) || IsLetter(s[i]))
      && (s[0] == '0' && |s| > 1 ==> s[1] == 'x' || s[1] == 'o' || s[1] == 'b')
  {
    var e := Encode(v, base);
    var s := PrefixOf(base) + e;
    EncodeDigits(v, base);
    forall i | 0 <= i < |s| ensures IsNumber(s[i]) || IsLetter(s[i]) {
      if i >= |PrefixOf(base)| {
        assert s[i] == e[i - |PrefixOf(base)|];
      }
    }
  }

  /** Printing a UInt64 in any of the four bases, with its prefix, and lexing the result gives
      back exactly one integer token with that value. */
  lemma IntegerInput(v: UInt64, base: nat)
    requires base == 2 || base == 8 || base == 10 || base == 16
    ensures Lexed(PrefixOf(base) + Encode(v, base)) ==
            Done([IntegerLiteralToken(PrefixOf(base) + Encode(v, base), v)])
  {
    RoundTrip(v, base);
    EncodedLexeme(v, base);
    IntegerLexemeInput(PrefixOf(base) + Encode(v, base));
  }

  /** Writing any text as a string literal, with every quote, backslash and control character
      escaped, and lexing it gives back exactly one string token holding that text. */
  lemma StringInput(s: string)
    ensures Lexed("\"" + Escape(s) + "\"") == Done([StringLiteralToken(s)])
  {
    StringOpening(Escape(s));
    EscapedQuotes(s);
    StringRun(Escape(s), "\" ", []);
    StringClosing(s);
  }

  /** The opening quote of a string literal switches to state StringLiteral. */
  lemma StringOpening(x: string)
    ensures Lexed("\"" + x + "\"") == Run(x + "\" ", StringLiteral, "", [])
  {
    assert "\"" + x + "\"" + " " == "\"" + (x + "\" ");
    FirstStepOf("\"", x + "\" ");
    assert "\""[0] == '"' && "\""[1..] + (x + "\" ") == x + "\" ";
    var opening := LexCharacterInNone('"', "");
    assert opening.state == StringLiteral && opening.lexeme == "";
  }

  /** The closing quote after an escaped text finishes the string token of that text. */
  lemma StringClosing(s: string)
    ensures Run("\" ", StringLiteral, Escape(s), []) == Done([StringLiteralToken(s)])
  {
    var e := Escape(s);
    EscapedQuotes(s);
    EscapeRoundTrip(s);
    var token := StringLiteralToken(s);
    var closing := StepResult(None, Some(token), e + "\"");
    RunStep("\" ", StringLiteral, e, [], closing);
    assert "\" "[1..] == " ";
    assert [] + Emitted(closing) == [token];
    Blank([token]);
  }

  /** The opening quote of a character literal switches to state CharacterLiteral. */
  lemma CharacterOpening(x: string)
    ensures Lexed("'" + x + "'") == Run(x + "' ", CharacterLiteral, "", [])
  {
    assert "'" + x + "'" + " " == "'" + (x + "' ");
    FirstStepOf("'", x + "' ");
    assert "'"[0] == '\'' && "'"[1..] + (x + "' ") == x + "' ";
    var opening := LexCharacterInNone('\'', "");
    assert opening.state == CharacterLiteral && opening.lexeme == "";
  }

  /** A character written as itself between the quotes is its character token. */
  lemma PlainCharacter(c: char)
    requires c != '\\'
    ensures Run([c] + "' ", CharacterLiteral, "", []) == Done([CharacterLiteralToken(c)])
  {
    var input := [c] + "' ";
    assert input[0] == c && input[1..] == "' " && "" + [c] == [c];
    var body := StepResult(CharacterLiteral, Nothing, [c]);
    RunStep(input, CharacterLiteral, "", [], body);
    assert [] + Emitted(body) == [];
    FinishedCharacters(c, 'n');
    FinishingQuote([c], CharacterLiteralToken(c));
  }

  /** A backslash and the letter of an escape between the quotes is the escaped character. */
  lemma EscapedCharacter(c: char, l: char)
    requires EscapedChar(l) == Some(c)
    ensures Run(['\\', l] + "' ", CharacterLiteral, "", []) == Done([CharacterLiteralToken(c)])
  {
    var input := ['\\', l] + "' ";
    assert input[0] == '\\' && input[1..] == [l] + "' " && "" + "\\" == "\\";
    assert ([l] + "' ")[0] == l && ([l] + "' ")[1..] == "' ";
    var backslash := StepResult(CharacterLiteral, Nothing, "\\");
    RunStep(input, CharacterLiteral, "", [], backslash);
    assert [] + Emitted(backslash) == [];
    assert "\\" + [l] == ['\\', l];
    var letter := StepResult(CharacterLiteral, Nothing, ['\\', l]);
    RunStep([l] + "' ", CharacterLiteral, "\\", [], letter);
    assert [] + Emitted(letter) == [];
    FinishedCharacters('a', l);
    FinishingQuote(['\\', l], CharacterLiteralToken(c));
  }

  /** Writing any character as a character literal, escaped where it must be, and lexing it
      gives back exactly one character token holding it. */
  lemma CharacterInput(c: char)
    ensures Lexed("'" + EscapeOf(c) + "'") == Done([CharacterLiteralToken(c)])
  {
    CharacterOpening(EscapeOf(c));
    match EscapeLetter(c)
    case Some(l) =>
      assert EscapeOf(c) + "' " == ['\\', l] + "' ";
      EscapedCharacter(c, l);
    case Nothing =>
      assert EscapeOf(c) + "' " == [c] + "' ";
      PlainCharacter(c);
  }

  lemma FinishingQuote(lexeme: string, token: Token)
    requires LexCharacterInCharacter('\'', lexeme) == Done(StepResult(None, Some(token), ""))
    ensures Run("' ", CharacterLiteral, lexeme, []) == Done([token])
  {
    var closing := StepResult(None, Some(token), "");
    RunStep("' ", CharacterLiteral, lexeme, [], closing);
    assert "' "[1..] == " ";
    assert [] + Emitted(closing) == [token];
    Blank([token]);
  }

  /** Whether the loop finishes, throws or traps, and the error it throws, do not depend on
      the tokens collected before: the first error ends lex and the tokens are lost with it. */
  lemma {:induction false} FailureIgnoresTokens(chars: string, state: LexerState, lexeme: string, a: seq<Token>, b: seq<Token>)
    ensures Run(chars, state, lexeme, a).Done? <==> Run(chars, state, lexeme, b).Done?
    ensures Run(chars, state, lexeme, a).Trapped? <==> Run(chars, state, lexeme, b).Trapped?
    ensures Run(chars, state, lexeme, a).Thrown? ==> Run(chars, state, lexeme, a) == Run(chars, state, lexeme, b)
    decreases |chars|
  {
    if |chars| > 0 {
      match LexCharacter(chars[0], state, lexeme)
      case Done(result) =>
        RunStep(chars, state, lexeme, a, result);
        RunStep(chars, state, lexeme, b, result);
        FailureIgnoresTokens(chars[1..], result.state, result.lexeme, a + Emitted(result), b + Emitted(result));
      case Thrown(e) =>
      case Trapped =>
    }
  }

  /** `a 0X`: the identifier `a` is finished, then the upper-case prefix throws, and lex
      returns the error alone. */
  lemma ErrorAfterToken()
    ensures Lexed("a 0X") == Thrown(LexError(UppercaseIntegerPrefix, 0))
  {
    var tokens := [IdentifierToken("a")];
    assert "a 0X" + " " == ['a', ' '] + "0X ";
    NoKeyStartsWith('a');
    LetterThenSpace('a', "0X ", []);
    assert [] + tokens == tokens;
    assert "0X "[0] == '0' && "0X "[1..] == "X ";
    var zero := StepResult(IntegerLiteral, Nothing, "0");
    RunStep("0X ", None, "", tokens, zero);
    assert tokens + Emitted(zero) == tokens;
    assert "X "[0] == 'X';
    assert LexCharacter('X', IntegerLiteral, "0") == Thrown(LexError(UppercaseIntegerPrefix, 0));
  }

  /** An input that ends inside a string literal gives no token for it: the appended space
      does not finish it and the loop ends. */
  lemma UnclosedStringDropped(s: string)
    requires '"' !in s
    ensures Lexed("\"" + s) == Done([])
  {
    var input := "\"" + s + " ";
    assert input[0] == '"' && input[1..] == s + " ";
    var opening := StepResult(StringLiteral, Nothing, "");
    RunStep(input, None, "", [], opening);
    assert [] + Emitted(opening) == [];
    NoQuotesEscaped(s + " ");
    StringRun(s + " ", "", []);
    assert s + " " + "" == s + " ";
  }

  /** A lone quote and a lone `+` give no token either: the space extends the character
      literal, and no key starts with `+` and a space. */
  lemma PendingTokensDropped()
    ensures Lexed("'") == Done([])
    ensures Lexed("+") == Done([])
  {
    assert "'" + " " == "' " && "' "[1..] == " ";
    var opening := StepResult(CharacterLiteral, Nothing, "");
    RunStep("' ", None, "", [], opening);
    assert [] + Emitted(opening) == [];
    assert "" + [' '] == " ";
    RunStep(" ", CharacterLiteral, "", [], StepResult(CharacterLiteral, Nothing, " "));
    assert "+" + " " == ['+', ' '] + "";
    OperatorThenWhitespace('+', ' ', "", []);
  }

  /** A character literal with content and no closing quote is not dropped: the appended
      space makes it too long, and lex throws invalidCharacterLiteral at column 2. */
  lemma UnclosedCharacterThrows(c: char)
    requires c != '\\'
    ensures Lexed(['\'', c]) == Thrown(LexError(InvalidCharacterLiteral, 2))
  {
    assert ['\'', c] + " " == ['\''] + [c, ' '];
    FirstStep('\'', [c, ' ']);
    assert LexCharacterInNone('\'', "").state == CharacterLiteral && LexCharacterInNone('\'', "").lexeme == "";
    var second := StepResult(CharacterLiteral, Nothing, [c]);
    assert "" + [c] == [c];
    RunStep([c, ' '], CharacterLiteral, "", [], second);
    assert [c, ' '][1..] == " " && [] + Emitted(second) == [];
    TooLong(' ', [c]);
    RunStops(" ", CharacterLiteral, [c], []);
  }

  /** A character that starts an operator, followed by whitespace, takes in the rest of the
      input: no key starts with an operator character and whitespace, so the lexeme starts
      no key from then on and is never emitted. */
  lemma OperatorThenWhitespace(o: char, w: char, rest: string, tokens: seq<Token>)
    requires LexCharacterInNone(o, "").state == Operator && IsWhitespace(w)
    ensures Run([o, w] + rest, None, "", tokens) == Done(tokens)
  {
    var input := [o, w] + rest;
    assert input[1..] == [w] + rest && ([w] + rest)[1..] == rest;
    var first := StepResult(Operator, Nothing, [o]);
    RunStep(input, None, "", tokens, first);
    assert tokens + Emitted(first) == tokens;
    NoKeyContinuesWithWhitespace(o, w);
    assert [o] + [w] == [o, w];
    var second := StepResult(Operator, Nothing, [o, w]);
    RunStep([w] + rest, Operator, [o], tokens, second);
    assert tokens + Emitted(second) == tokens;
    OperatorSwallowsRest(rest, [o, w], tokens);
  }

  /** `<<=` is one token: the lexeme grows while both `<<` and `<<=` start with it. */
  lemma ShiftLeftEqualsInput()
    ensures Lexed("<<=") == Done([OperatorToken(ShiftLeftEquals, "<<=")])
  {
    FirstStepOf("<<=", " ");
    assert "<<="[0] == '<' && "<<="[1..] + " " == "<= ";
    var first := LexCharacterInNone('<', "");
    assert first.state == Operator && first.lexeme == "<";
    ShiftLeftEqualsTail();
  }

  /** The rest of `<<=` after the first `<`. */
  lemma ShiftLeftEqualsTail()
    ensures Run("<= ", Operator, "<", []) == Done([OperatorToken(ShiftLeftEquals, "<<=")])
  {
    ShiftLeftEqualsLexed();
    assert "<= "[0] == '<' && "<= "[1..] == "= " && "= "[0] == '=' && "= "[1..] == " ";
    var second := StepResult(Operator, Nothing, "<<");
    RunStep("<= ", Operator, "<", [], second);
    assert [] + Emitted(second) == [];
    var token := OperatorToken(ShiftLeftEquals, "<<=");
    var third := StepResult(None, Some(token), "");
    RunStep("= ", Operator, "<<", [], third);
    assert [] + Emitted(third) == [token];
    Blank([token]);
  }

  /** A one-character identifier that starts no key, followed by a space, is an identifier
      token. */
  lemma LetterThenSpace(c: char, rest: string, tokens: seq<Token>)
    requires IsLetter(c) || c == '_'
    requires KeysWithPrefix([c]) == {}
    ensures Run([c, ' '] + rest, None, "", tokens) == Run(rest, None, "", tokens + [IdentifierToken([c])])
  {
    var input := [c, ' '] + rest;
    assert input[1..] == [' '] + rest && ([' '] + rest)[1..] == rest;
    var first := StepResult(Identifier, Nothing, [c]);
    RunStep(input, None, "", tokens, first);
    assert tokens + Emitted(first) == tokens;
    var second := StepResult(None, Some(IdentifierToken([c])), "");
    RunStep([' '] + rest, Identifier, [c], tokens, second);
  }

  /** `+ b ` after the identifier `a`: the `+` swallows the rest. */
  lemma PlusSwallowsRest()
    ensures Run(['+', ' '] + "b ", None, "", [] + [IdentifierToken("a")]) == Done([IdentifierToken("a")])
  {
    assert [] + [IdentifierToken("a")] == [IdentifierToken("a")];
    OperatorThenWhitespace('+', ' ', "b ", [IdentifierToken("a")]);
  }

  /** An operator standing between spaces takes in the rest of the input: `a + b` gives the
      identifier `a` alone, since no key starts with `+` and a space. */
  lemma OperatorBetweenSpaces()
    ensures Lexed("a + b") == Done([IdentifierToken("a")])
  {
    var input := ['a', ' '] + (['+', ' '] + "b ");
    assert "a + b" + " " == input;
    NoKeyStartsWith('a');
    LetterThenSpace('a', ['+', ' '] + "b ", []);
    PlusSwallowsRest();
  }
}
