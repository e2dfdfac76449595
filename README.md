# A verified model of the Swift lexer of alexdboxall/Compiler

The repository holds a hand-written lexer for a small C-like language. It reads the input one
character at a time. A state (`LexerState`) and the lexeme collected so far are carried from
character to character. For each character, the handler of the current state returns one of
two things:
- a new state, possibly a finished token, and a new lexeme;
- or a thrown `LexerException`.

The driver `lex` appends a space to the input so that the last token is finished. It runs the
handlers over every character and collects the finished tokens in order.

This project models that core in Dafny, one module per source file.

| module | source file |
|---|---|
| `Text` | character classes and prefixes used throughout (ASCII, see below) |
| `Exceptions`, `Outcomes` | `LexerException` as `LexError(kind, columnOffset)`; Swift's `throws` as `Result`; a throwing function that may also stop the program on a runtime trap as `Outcome` = `Done` / `Thrown` / `Trapped` |
| `Tokens` | `OperatorTokenType`, the five token structs as one datatype, `LexerState`, `LexerCharacterResult` (`StepResult`), `UInt64` |
| `IntegerToken` | `token/integer_token.swift` |
| `StringCharacter` | `token/string_character.swift` |
| `OperatorToken` | `token/operator_token.swift` |
| `NoneState`, `IntegerState`, `CharacterState`, `StringState`, `OperatorState`, `IdentifierState` | `states/*.swift` |
| `Lexer` | `lexCharacter` and `lex` of `lexer.swift` |

How the source is modelled:
- The pure handlers are Dafny functions. Each is specified by what it returns for each class
  of character.
- The five loops of the source are methods with loops:
  - `convertToInt` (`IntegerToken.ConvertToInt`, with its loop in `ConvertDigits`);
  - `resolveEscapeCodes` (`StringCharacter.ResolveEscapeCodes`);
  - `isStringInEscapedMode` (`StringState.IsStringInEscapedMode`);
  - `createReverseTokenLookup` (`OperatorToken.CreateReverseTokenLookup`);
  - `lex` (`Lexer.Lex`, below).

  The first three are proved equal to a specification function. The reverse lookup is proved
  to be the inverse of the dictionary.
- `lex` is a method whose loop keeps the invariant "running the rest of the input from the
  current state gives the final answer". The rest of the input is run by `Lexer.Run`, and
  `Lexer.Lexed(s)` is `Run(s + " ", None, "", [])`.
- A handler that ends a token retries the ending character in state `None`, through a
  four-argument `lexCharacter(…, atPosition:)` that is not part of this model. The model calls
  `NoneState.LexCharacterInNone` directly: the retry reaches the None handler, and the private
  copy of that handler in `lexer.swift` behaves the same.
- The operator dictionary is two functions. `OperatorToken.Spelling` gives the key of each of
  the 70 tags. `OperatorToken.Recognize` is the dictionary's lookup, written as a decision tree
  over the characters of the key. The lemmas prove that the two agree on every row, that the
  table is a bijection, and what the three prefix predicates mean.
- Swift force unwraps and the `Character(String)` conversion become the `Trapped` outcome.
  Where the source cannot trap, the model proves it cannot.

The source behaves in some ways a reader may not expect. The model states these as they are:
- `isStringValidStartOfToken` compares a count with `>= 0`, so it holds for every string. The
  two `invalidOperatorException` guards in `lexCharacterInOperator` can never fire.
- Once an operator lexeme is the start of no key, it takes in every later character. `a + b`
  lexes to the single token `IdentifierToken("a")`, because no key starts with `+ `.
- An operator token is emitted only when the lexeme with the next character added is the start
  of exactly one key, and that character is consumed. So a lone `(` is never emitted, and
  `<<=` is.
- Identifiers are classified by "exactly one key starts with the lexeme". `v` and `d` each
  start a single keyword without being one, so the force unwrap in `OperatorToken(str:)` traps.
  `fal` starts both `false` and `fallthrough`, so it is an identifier.
- `lex` never looks at the final state. An unclosed string literal, a lone `'` or `'\`, or an
  operator lexeme still pending at the end of the input is dropped without an error. A
  character literal with content and no closing quote (`'a`) throws invalidCharacterLiteral,
  because the appended space makes it too long.
- The first error ends `lex`, and the tokens finished before it are lost.

## Model

| member | source | states |
|---|---|---|
| NoneState.LexCharacterInNone | Compiler/lexer/states/none.swift:10-35 | never carries a token; the new state is IntegerLiteral exactly for digits, StringLiteral exactly for `"`, CharacterLiteral exactly for `'`, Identifier exactly for letters and `_`, None exactly for whitespace, Operator exactly for every other character; the lexeme is the character itself for integer, identifier and operator, and empty otherwise |
| NoneState.NoneIgnoresLexeme | Compiler/lexer/states/none.swift:10-35 | the result does not depend on the lexeme passed in |
| IntegerState.LexCharacterInInteger | Compiler/lexer/states/integer.swift:13-48 | a bad prefix letter after a lone `0` throws that prefix error; otherwise a digit, letter or `_` is appended with no token; any other character finishes the token, throwing exactly when `IntegerLiteralToken(lexeme:)` throws and its error, or emitting that token with the state and lexeme of the None handler's retry |
| IntegerState.PrefixChecks | Compiler/lexer/states/integer.swift:14-24 | uppercaseIntegerPrefix exactly for `X`, `O`, `B` after the lexeme `0`; invalidIntegerPrefix exactly for any other letter except `x`, `o`, `b` after `0`; no prefix check for any other lexeme |
| IntegerState.UnderscoreBeforePrefix | Compiler/lexer/states/integer.swift:14-35 | `0_x123` passes the prefix checks (its lexeme is `0_`, not `0`, when the `x` arrives) and then fails with invalidLeadingZeroOnIntegerLiteral when it is finished |
| CharacterState.LexCharacterInCharacter | Compiler/lexer/states/character_state.swift:14-34 | never traps; after an empty lexeme or a lone backslash the character is appended and the state stays CharacterLiteral; a quote after one character or a backslash pair finishes the literal, giving the token of the resolved character and None with an empty lexeme, or throwing exactly the resolution's error; every other character throws invalidCharacterLiteral at lexeme length + 1 |
| CharacterState.FinishedResolves | Compiler/lexer/states/character_state.swift:22-26 | a lexeme the closing quote finishes resolves to one character (itself, or the escaped character) or to an invalid-escape error at offset 1, so `Character(...)` never traps there |
| CharacterState.FinishedCharacters | Compiler/lexer/states/character_state.swift:22-26 | `'a'` and `'\n'`-style lexemes finished by `'` give the character token of the character, return to None with an empty lexeme |
| CharacterState.TooLong | Compiler/lexer/states/character_state.swift:28-33 | any character after a started literal (one character, or a backslash pair) that is not its closing quote, such as the `b` of `'ab'`, throws invalidCharacterLiteral at lexeme length + 1 |
| StringState.IsStringInEscapedMode | Compiler/lexer/states/string_state.swift:10-20 | the loop's answer is `EscapedAfter(str)`, whether a backslash is left waiting for its letter |
| StringState.EscapedModeIffOddRun | Compiler/lexer/states/string_state.swift:10-20 | escaped mode holds exactly when the string ends with an odd number of backslashes |
| StringState.LexCharacterInString | Compiler/lexer/states/string_state.swift:26-32 | a `"` outside escaped mode finishes the string: it throws exactly when the escapes do not resolve, with the resolution's error and column, else emits the resolved text, moves to None and returns lexeme + `"`; any other character, an escaped quote included, is appended with no token |
| StringState.FinishedStringNeverUnclosed | Compiler/lexer/states/string_state.swift:27-28 | a finished string can fail only on an invalid escape letter inside it, never with the unclosed-escape error at its length |
| StringState.EscapedQuoteKept | Compiler/lexer/states/string_state.swift:27-31 | a quote after an odd run of backslashes is kept in the string |
| OperatorState.LexCharacterInOperator | Compiler/lexer/states/operator.swift:10-29 | never throws; when exactly one key starts with lexeme + character, it is emitted (Done exactly when it is a key, traps otherwise) and the state returns to None with the character consumed; otherwise the state stays Operator with lexeme + character |
| OperatorState.OperatorNeverTraps | Compiler/lexer/states/operator.swift:17-19 | a non-empty lexeme whose first character is not a letter (every lexeme in state Operator is one) never makes the handler trap |
| OperatorState.DeadLexemeSwallows | Compiler/lexer/states/operator.swift:15-28 | once the lexeme starts no key, the next character is appended and the longer lexeme starts no key either |
| OperatorState.BracketNeverEmitted | Compiler/lexer/states/operator.swift:17-28 | after `(` every character leaves a lexeme that starts no key, so `(` is never emitted |
| OperatorState.ShiftLeftEqualsLexed | Compiler/lexer/states/operator.swift:15-28 | `<` then `<` keeps the state Operator with `<<`; `=` after `<<` emits ShiftLeftEquals with lexeme `<<=` |
| IdentifierState.LexCharacterInIdentifier | Compiler/lexer/states/identifier.swift:10-28 | never throws; letters, digits and `_` are appended; any other character finishes the token: it traps exactly when one key starts with the lexeme and the lexeme is not a key, emits that keyword's operator token when it is, and the identifier token otherwise, with the state and lexeme of the None handler's retry |
| IdentifierState.KeywordBecomesOperatorToken | Compiler/lexer/states/identifier.swift:18-19 | every keyword, once finished, becomes the operator token of its own tag |
| IdentifierState.PartialKeywordTraps | Compiler/lexer/states/identifier.swift:18-19 | the identifiers `v` and `d` trap when finished |
| IdentifierState.SharedKeywordStartIsIdentifier | Compiler/lexer/states/identifier.swift:18-23 | `fal` is finished as an identifier token |
| StringCharacter.ResolveEscapeCodes | Compiler/lexer/token/string_character.swift:10-45 | the loop's result equals `Resolution(str)`, the fold of the loop's step over the input |
| StringCharacter.EscapeLetter | Compiler/lexer/token/string_character.swift:17-29 | the escape letter chosen for a character escapes back to that character |
| StringCharacter.ReadingIffValid | Compiler/lexer/token/string_character.swift:14-40 | the loop reads to the end without rejecting exactly when every letter after an escaping backslash is a known escape |
| StringCharacter.RejectedAt | Compiler/lexer/token/string_character.swift:30-31 | a rejection is at the first escape letter that is not known, and everything before it is valid |
| StringCharacter.ResolvedLength | Compiler/lexer/token/string_character.swift:10-45 | the resolved text is as long as the input minus the number of escape pairs |
| StringCharacter.ResolutionSucceeds | Compiler/lexer/token/string_character.swift:10-45 | resolution succeeds exactly when every escape is valid and no backslash is left open, and the output is never longer than the input |
| StringCharacter.ResolutionFails | Compiler/lexer/token/string_character.swift:30-43 | every failure is invalidEscapeCharacter, either at the index of the first unknown escape letter or at the input length for a trailing backslash |
| StringCharacter.NoBackslashUnchanged | Compiler/lexer/token/string_character.swift:14-40 | text without a backslash resolves to itself |
| StringCharacter.PairResolution | Compiler/lexer/token/string_character.swift:17-31 | a backslash pair resolves to its escaped character, or fails at offset 1 for an unknown letter; a lone backslash fails at offset 1 |
| StringCharacter.SingleResolution | Compiler/lexer/token/string_character.swift:35-37 | one character other than a backslash resolves to itself |
| StringCharacter.EscapeRoundTrip | Compiler/lexer/token/string_character.swift:10-45 | resolving the escaped form of any text gives back that text |
| StringCharacter.StringLiteralTokenOf | Compiler/lexer/token/string_character.swift:53-55 | the token is built exactly when the lexeme resolves, holds the resolved text, and carries the resolution's error otherwise |
| StringCharacter.CharacterLiteralTokenOf | Compiler/lexer/token/string_character.swift:64-66 | throws exactly the resolution's error; builds the token exactly when the resolution is one character, holding that character; traps on any other length |
| IntegerToken.GetBaseOf | Compiler/lexer/token/integer_token.swift:17-30 | the base is 16, 2, 8 or 10; it differs from 10 exactly when the lexeme starts with `0x`, `0b` or `0o`, and then those two characters are that base's prefix |
| IntegerToken.FirstIndexMeaning | Compiler/lexer/token/integer_token.swift:61 | the index found holds the character and no earlier index does; no index is found exactly when the character is absent |
| IntegerToken.DigitLookup | Compiler/lexer/token/integer_token.swift:44-61 | looking a character up among the first `base` characters of `0`-`9A`-`F` finds its digit value exactly when that value is below the base |
| IntegerToken.ConvertToInt | Compiler/lexer/token/integer_token.swift:32-74 | the method's result equals `Conversion(literal, base)`: the leading-zero check, then the empty check, then the conversion loop |
| IntegerToken.ConvertDigits | Compiler/lexer/token/integer_token.swift:44-73 | the loop's result equals `ConvertFrom` over the upper-cased literal from column 0 or 2 |
| IntegerToken.ConvertFromAllDigits | Compiler/lexer/token/integer_token.swift:48-73 | over valid digits the loop gives the positional value, underscores ignored, or integerLiteralExceedsBounds exactly when that value exceeds 2^64-1 |
| IntegerToken.ConvertFromInvalid | Compiler/lexer/token/integer_token.swift:56-70 | at the first character outside the base, the loop fails with integerLiteralExceedsBounds when the value so far times the base overflows, else with invalidIntegerLiteral at that character's column |
| IntegerToken.ConversionGuards | Compiler/lexer/token/integer_token.swift:33-39 | a decimal literal longer than one character starting with `0` fails with invalidLeadingZeroOnIntegerLiteral; an empty literal fails with integerPrefixWithoutLiteral at offset 2 |
| IntegerToken.ConversionAllDigits | Compiler/lexer/token/integer_token.swift:32-74 | a literal of valid digits in any case converts to its positional value, or fails with integerLiteralExceedsBounds exactly when it exceeds 2^64-1 |
| IntegerToken.ConversionInvalidDigit | Compiler/lexer/token/integer_token.swift:47-70 | the first character outside the base fails with invalidIntegerLiteral at its index plus 0 (decimal) or 2 (prefixed), underscores counted, unless the multiplication before it overflows first |
| IntegerToken.ConversionCaseInsensitive | Compiler/lexer/token/integer_token.swift:48 | two literals with the same upper-cased form convert alike |
| IntegerToken.CalculateUnderlyingValue | Compiler/lexer/token/integer_token.swift:76-83 | a value comes out exactly when the lexeme without its base prefix is not empty, has no leading zero (decimal), holds only digits of the base and `_` in either case, and its positional value fits a UInt64; the value is that positional value |
| IntegerToken.ConversionMeaning | Compiler/lexer/token/integer_token.swift:32-74 | the conversion succeeds exactly when the literal is not empty, has no leading zero (decimal), holds only digits of the base and `_`, and its value fits a UInt64, and then gives that value |
| IntegerToken.IntegerLiteralTokenOf | Compiler/lexer/token/integer_token.swift:85-88 | the token is built exactly when the value is computed; it stores the lexeme verbatim, prefix and underscores included, and carries the conversion's error otherwise |
| IntegerToken.PrefixWithoutLiteral | Compiler/lexer/token/integer_token.swift:37-39 | `0x`, `0b` and `0o` alone fail with integerPrefixWithoutLiteral at offset 2 |
| IntegerToken.LeadingZero | Compiler/lexer/token/integer_token.swift:33-35 | a lexeme longer than one character that starts with `0` and not with `0x`, `0b` or `0o` fails with invalidLeadingZeroOnIntegerLiteral; `0` alone is the value 0 |
| IntegerToken.PrefixedInvalidDigit | Compiler/lexer/token/integer_token.swift:76-83 | in a prefixed lexeme, the first character outside the base fails with invalidIntegerLiteral at its index in the whole lexeme |
| IntegerToken.EncodeValue | Compiler/lexer/token/integer_token.swift:44-73 | the digits printed for a number are valid in the base and have that number as their positional value |
| IntegerToken.RoundTrip | Compiler/lexer/token/integer_token.swift:76-88 | every UInt64 printed in base 2, 8, 10 or 16 with its prefix converts back to itself, and the token holds that text and value |
| OperatorToken.SpellingInjective | Compiler/lexer/token/operator_token.swift:88-161 | no two tags share a key |
| OperatorToken.RecognizeKey | Compiler/lexer/token/operator_token.swift:88-161 | the dictionary finds every key, and the tag it finds has that key |
| OperatorToken.Row | Compiler/lexer/token/operator_token.swift:88-161 | every row: the dictionary maps the tag's key to the tag, the key is not empty and starts with a letter exactly for keywords, and every operator key of two or three characters shares all but its last character with another key |
| OperatorToken.TokenLookup | Compiler/lexer/token/operator_token.swift:179 | the tag looked up for a key has that key |
| OperatorToken.TokenLookupBijective | Compiler/lexer/token/operator_token.swift:163-180 | the key of every tag is a key that looks up that tag, and the key of every key's tag is that key |
| OperatorToken.CreateReverseTokenLookup | Compiler/lexer/token/operator_token.swift:163-169 | the reverse map has every tag, maps it to its key, and maps every key's tag back to that key |
| OperatorToken.OperatorTokenOfType | Compiler/lexer/token/operator_token.swift:173-176 | `init(type:)` never traps: it builds the token of that tag with its key |
| OperatorToken.OperatorTokenOfString | Compiler/lexer/token/operator_token.swift:178-180 | `init(str:)` builds the token of the key's tag with that lexeme exactly when the string is a key, and traps otherwise |
| OperatorToken.IsStringValidStartOfToken | Compiler/lexer/token/operator_token.swift:182-184 | holds for every string |
| OperatorToken.TerminalIffUniqueKey | Compiler/lexer/token/operator_token.swift:186-188 | `isStringATerminalToken` (`IsStringATerminalToken`) holds exactly when exactly one key starts with the string |
| OperatorToken.ValidTokenIffRecognized | Compiler/lexer/token/operator_token.swift:190-192 | `isStringAValidToken` (`IsStringAValidToken`) holds exactly when the dictionary finds the string under the tag whose key it is |
| OperatorToken.SharedPrefixNotTerminal | Compiler/lexer/token/operator_token.swift:186-188 | a string two keys start with is not terminal |
| OperatorToken.OnlyPrefixTerminal | Compiler/lexer/token/operator_token.swift:186-188 | a string only one key starts with is terminal |
| OperatorToken.KeyTerminalIffUnextended | Compiler/lexer/token/operator_token.swift:186-188 | a key is terminal exactly when no other key extends it |
| OperatorToken.LeafKeyIsTerminal | Compiler/lexer/token/operator_token.swift:186-192 | every keyword, `<<=` and `(` are terminal and valid |
| OperatorToken.NothingExtendsLeaf | Compiler/lexer/token/operator_token.swift:88-161 | no key starts with a string that properly extends a keyword, `<<=` or `(` |
| OperatorToken.TerminalOperatorIsKey | Compiler/lexer/token/operator_token.swift:186-192 | every terminal string that does not start with a letter is a key |
| OperatorToken.SharedStartsNotTerminal | Compiler/lexer/token/operator_token.swift:186-188 | `<` and `..` are not terminal |
| OperatorToken.SharedKeywordStartNotTerminal | Compiler/lexer/token/operator_token.swift:186-188 | `fal` is not terminal |
| OperatorToken.PartialKeywordV | Compiler/lexer/token/operator_token.swift:186-192 | `v` is terminal but not a key |
| OperatorToken.PartialKeywordD | Compiler/lexer/token/operator_token.swift:186-192 | `d` is terminal but not a key |
| OperatorToken.NotRecognizedNotKey | Compiler/lexer/token/operator_token.swift:190-192 | a string the dictionary does not find is not valid |
| OperatorToken.KeywordLetters | Compiler/lexer/token/operator_token.swift:146-159 | every keyword is non-empty and spelt in lower-case letters |
| OperatorToken.NoKeyStartsWith | Compiler/lexer/token/operator_token.swift:88-161 | no key starts with `_`, a digit, or a letter other than the first letters of the keywords |
| OperatorToken.NoKeyContinuesWithWhitespace | Compiler/lexer/token/operator_token.swift:88-161 | no key has whitespace as its second character |
| Lexer.LexCharacter | Compiler/lexer/lexer.swift:174-183 | only the integer, character and string handlers throw, only the operator and identifier handlers trap, and the None handler finishes with no token |
| Lexer.Lex | Compiler/lexer/lexer.swift:185-204 | the loop's result equals `Lexed(str)`: the handlers run over `str + " "`, threading state and lexeme and collecting tokens |
| Lexer.RunAppends | Compiler/lexer/lexer.swift:194-201 | the tokens are only ever appended to, at most one per character |
| Lexer.TokenCount | Compiler/lexer/lexer.swift:185-204 | a successful run gives at most one token per input character plus one |
| Lexer.EmptyInput | Compiler/lexer/lexer.swift:185-204 | empty input gives no tokens |
| Lexer.FailureIgnoresTokens | Compiler/lexer/lexer.swift:195 | whether the run finishes, throws or traps, and the error thrown, do not depend on the tokens collected so far |
| Lexer.ErrorAfterToken | Compiler/lexer/lexer.swift:195 | `a 0X` throws uppercaseIntegerPrefix and returns no tokens, though `a` was finished |
| Lexer.IdentifierRun | Compiler/lexer/lexer.swift:194-201 | letters, digits and `_` are appended to the identifier one by one |
| Lexer.IntegerRun | Compiler/lexer/lexer.swift:194-201 | digits, letters and `_` are appended to the integer one by one, as long as a letter right after a lone `0` names a base |
| Lexer.StringRun | Compiler/lexer/lexer.swift:194-201 | text whose every quote is escaped is appended to the string one character at a time |
| Lexer.OperatorSwallowsRest | Compiler/lexer/lexer.swift:194-203 | an operator lexeme that starts no key takes in all the remaining input, and the run ends with the tokens it had |
| Lexer.WordInput | Compiler/lexer/lexer.swift:185-204 | a word on its own is one identifier token, or, when exactly one key starts with it, that keyword's token, or a trap when it is only the start of that keyword |
| Lexer.KeywordInput | Compiler/lexer/lexer.swift:185-204 | every keyword on its own is one operator token with its tag |
| Lexer.PartialKeywordInputs | Compiler/lexer/states/identifier.swift:10-28 | `v` traps and `fal` is an identifier, by the unique-key test of operator_token.swift:186-188 as identifier.swift:18-23 applies it; `_123` is one identifier token `_123`, as the test at Tests/lexer/individual_integers.swift:33-40 expects |
| Lexer.IntegerLexemeInput | Compiler/lexer/lexer.swift:185-204 | a digit followed by digits, letters and `_` (so `35_123_456` and `0b_1010_1010`), with no bad prefix letter after a lone `0`, lexes on its own to exactly its integer token, or throws that token's error |
| Lexer.IntegerInput | Tests/lexer/individual_integers.swift:175-184 | every UInt64 printed in base 2, 8, 10 or 16 with its prefix lexes to exactly one integer token whose lexeme is the input and whose value is the number |
| Lexer.StringInput | Compiler/lexer/lexer.swift:185-204 | any text written as a string literal, with its special characters escaped, lexes to exactly one string token holding that text |
| Lexer.CharacterInput | Compiler/lexer/lexer.swift:185-204 | any character written as a character literal, escaped where it must be, lexes to exactly one character token holding it |
| Lexer.UnclosedStringDropped | Compiler/lexer/lexer.swift:194-203 | a quote followed by text with no other quote, an input that ends inside a string literal, gives no token and no error |
| Lexer.PendingTokensDropped | Compiler/lexer/lexer.swift:194-203 | a lone `'` and a lone `+` give no token and no error |
| Lexer.UnclosedCharacterThrows | Compiler/lexer/states/character_state.swift:28-33 | a quote and one character other than a backslash, at the end of the input, throw invalidCharacterLiteral at column 2: the appended space makes the literal too long |
| Lexer.ShiftLeftEqualsInput | Compiler/lexer/lexer.swift:185-204 | `<<=` lexes to the single operator token ShiftLeftEquals |
| Lexer.OperatorBetweenSpaces | Compiler/lexer/lexer.swift:185-204 | `a + b` lexes to the identifier `a` alone |

## Left out

- Unicode: Swift's `isNumber`, `isLetter` and `isWhitespace` are modelled for ASCII characters only. A Swift `Character` is a grapheme cluster (CR LF is one character); here a character is one Dafny `char`.
- The reason texts of `LexerException` are not modelled. An error is its case and its column offset, with 0 where the source gives no offset. Every case of the enum in `Compiler/lexer/exception.swift` carries one `String` payload, while the throw sites pass `(reason:columnOffset:)`. The model follows the throw sites.
- `LexerPosition` and the position parameter of the handlers are dropped, since no handler reads them.
- The private handler copies at `Compiler/lexer/lexer.swift:16-172` are not modelled; the `states/` versions are.
- `Compiler/lexer/token.swift` (an older copy of the token types) and `Compiler/main.swift` (file reading and printing) are not part of this model.
- The `Token` protocol and its dynamic casts are one closed datatype of five variants.
- Swift's `assert(retriedResult.token == nil)` in the integer and identifier handlers is a Dafny `assert` that is proved.
- The dictionary `tokenLookup` is two functions: `Spelling` for its rows and `Recognize` for its lookup. The lemmas prove that they agree on every row.
- `createReverseTokenLookup` walks the keys in an arbitrary order. Its result does not depend on that order, because the table is a bijection.
- The unreachable branch of `lexCharacterInOperator` (operator.swift:21-26) is kept in the function. No input reaches it, so no property of it is stated.
- Lexer.IntegerInput covers the canonical digits of a number, printed without underscores. Lexer.IntegerLexemeInput covers every lexeme of digits, letters and underscores, and IntegerToken.CalculateUnderlyingValue gives the value of such a lexeme. The concrete test values of `Tests/lexer/individual_integers.swift:186-251` are not restated one by one.
