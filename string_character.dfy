/** The escape resolver of Compiler/lexer/token/string_character.swift and the two tokens built
    on it: resolveEscapeCodes, StringLiteralToken.init and CharacterLiteralToken.init. */
module StringCharacter {
  import opened Exceptions
  import opened Outcomes
  import opened Tokens

  /** The character an escape letter stands for after a backslash: `\n`, `\t`, `\r`, `\"`, `\'`
      and `\\`; any other letter is not an escape. */
  function EscapedChar(c: char): Option<char> {
    match c
    case 'n' => Some('\n')
    case 't' => Some('\t')
    case 'r' => Some('\r')
    case '"' => Some('"')
    case '\'' => Some('\'')
    case '\\' => Some('\\')
    case _ => Nothing
  }

  /** Where resolveEscapeCodes stands after reading some characters: the text resolved so far
      and whether the last character read is a backslash still waiting for its escape letter,
      or the column offset of the escape letter it rejected. */
  datatype Progress = Reading(resolved: string, escaped: bool) | Rejected(offset: nat)

  /** One turn of the loop of resolveEscapeCodes on character c at index i. */
  function Step(p: Progress, c: char, i: nat): Progress {
    match p
    case Rejected(_) => p
    case Reading(resolved, escaped) =>
      if escaped then
        match EscapedChar(c)
        case Some(e) => Reading(resolved + [e], false)
        case Nothing => Rejected(i)
      else if c == '\\' then Reading(resolved, true)
      else Reading(resolved + [c], false)
  }

  /** The loop of resolveEscapeCodes run over all of s. */
  function ReadAll(s: string): Progress
    decreases |s|
  {
    if |s| == 0 then Reading("", false) else Step(ReadAll(s[..|s| - 1]), s[|s| - 1], |s| - 1)
  }

  /** The specification of resolveEscapeCodes: the resolved text, or invalidEscapeCharacter at
      the rejected letter, or at the end of str when a backslash is left unclosed. */
  function Resolution(str: string): Result<string> {
    match ReadAll(str)
    case Rejected(i) => Err(LexError(InvalidEscapeCharacter, i))
    case Reading(resolved, escaped) =>
      if escaped then Err(LexError(InvalidEscapeCharacter, |str|)) else Ok(resolved)
  }

  /** resolveEscapeCodes: one pass over str that appends to result, keeps the escaped flag and
      counts the characters read in i. */
  method ResolveEscapeCodes(str: string) returns (r: Result<string>)
    ensures r == Resolution(str)
  {
    var result := "";
    var escaped := false;
    var i := 0;
    while i < |str|
      invariant 0 <= i <= |str|
      invariant ReadAll(str[..i]) == Reading(result, escaped)
    {
      var c := str[i];
      assert str[..i + 1][..i] == str[..i];
      if escaped {
        escaped := false;
        if c == 'n' {
          result := result + "\n";
        } else if c == 't' {
          result := result + "\t";
        } else if c == 'r' {
          result := result + "\r";
        } else if c == '"' {
          result := result + "\"";
        } else if c == '\'' {
          result := result + "'";
        } else if c == '\\' {
          result := result + "\\";
        } else {
          RejectionPersists(str, i + 1);
          assert str[..|str|] == str;
          return Err(LexError(InvalidEscapeCharacter, i));
        }
      } else if c == '\\' {
        escaped := true;
      } else {
        result := result + [c];
      }
      i := i + 1;
    }
    assert str[..i] == str;
    if escaped {
      return Err(LexError(InvalidEscapeCharacter, i));
    }
    return Ok(result);
  }

  /** StringLiteralToken.init: the token holds the resolution of the lexeme. */
  function StringLiteralTokenOf(lexeme: string): (r: Result<Token>)
    ensures r.Ok? <==> Resolution(lexeme).Ok?
    ensures r.Ok? ==> r.value == StringLiteralToken(Resolution(lexeme).value)
    ensures r.Err? ==> r.error == Resolution(lexeme).error
  {
    var s :- Resolution(lexeme);
    Ok(StringLiteralToken(s))
  }

  /** CharacterLiteralToken.init: the resolution of the lexeme, converted with Character(_:),
      which stops the program unless the resolution is exactly one character. */
  function CharacterLiteralTokenOf(lexeme: string): (r: Outcome<Token>)
    ensures r.Thrown? <==> Resolution(lexeme).Err?
    ensures r.Thrown? ==> r.error == Resolution(lexeme).error
    ensures r.Done? <==> Resolution(lexeme).Ok? && |Resolution(lexeme).value| == 1
    ensures r.Done? ==> r.value == CharacterLiteralToken(Resolution(lexeme).value[0])
  {
    var s :- Try(Resolution(lexeme));
    if |s| == 1 then Done(CharacterLiteralToken(s[0])) else Trapped
  }

  // ---------------------------------------------------------------------------------------
  // What the resolution computes

  /** The escaped flag after reading s, as both resolveEscapeCodes and isStringInEscapedMode
      keep it: a backslash sets it unless it is itself the letter of an escape, and any
      character read while it is set clears it. */
  function EscapedAfter(s: string): bool
    decreases |s|
  {
    if |s| == 0 then false else !EscapedAfter(s[..|s| - 1]) && s[|s| - 1] == '\\'
  }

  /** Every backslash that starts an escape in s is followed, within s, by an escape letter. */
  predicate ValidEscapes(s: string) {
    forall k :: 0 <= k < |s| && EscapedAfter(s[..k]) ==> EscapedChar(s[k]).Some?
  }

  /** The number of backslashes in s that start an escape. */
  function EscapeCount(s: string): nat
    decreases |s|
  {
    if |s| == 0 then 0 else EscapeCount(s[..|s| - 1]) + (if EscapedAfter(s) then 1 else 0)
  }

  /** The escaped flag of the loop is the one EscapedAfter describes. */
  lemma {:induction false} ReadAllEscaped(s: string)
    ensures ReadAll(s).Reading? ==> ReadAll(s).escaped == EscapedAfter(s)
    decreases |s|
  {
    if |s| > 0 {
      ReadAllEscaped(s[..|s| - 1]);
    }
  }

  /** Once a letter is rejected, reading further characters keeps the rejection. */
  lemma {:induction false} RejectionPersists(s: string, k: nat)
    requires k <= |s|
    ensures ReadAll(s[..k]).Rejected? ==> ReadAll(s) == ReadAll(s[..k])
    decreases |s| - k
  {
    if k < |s| {
      RejectionPersists(s, k + 1);
      assert s[..k + 1][..k] == s[..k];
    } else {
      assert s[..k] == s;
    }
  }

  /** The loop reads all of s without rejecting a letter exactly when every escape in s is
      valid. */
  lemma {:induction false} ReadingIffValid(s: string)
    ensures ReadAll(s).Reading? <==> ValidEscapes(s)
    decreases |s|
  {
    if |s| > 0 {
      var p := s[..|s| - 1];
      ReadingIffValid(p);
      ReadAllEscaped(p);
      assert forall k :: 0 <= k < |p| ==> s[..k] == p[..k] && s[k] == p[k];
      assert s[..|p|] == p;
    }
  }

  /** A rejected letter follows a backslash that starts an escape, is no escape letter, and is
      the first such letter in s. */
  lemma {:induction false} RejectedAt(s: string)
    requires ReadAll(s).Rejected?
    ensures var i := ReadAll(s).offset;
      i < |s| && EscapedAfter(s[..i]) && EscapedChar(s[i]).Nothing? && ValidEscapes(s[..i])
    decreases |s|
  {
    var p := s[..|s| - 1];
    if ReadAll(p).Rejected? {
      RejectedAt(p);
      var i := ReadAll(p).offset;
      assert p[..i] == s[..i];
    } else {
      ReadAllEscaped(p);
      ReadingIffValid(p);
    }
  }

  /** The length of the resolved text: every escape pair becomes one character. */
  lemma {:induction false} ResolvedLength(s: string)
    ensures ReadAll(s).Reading? ==> |ReadAll(s).resolved| == |s| - EscapeCount(s)
    decreases |s|
  {
    if |s| > 0 {
      var p := s[..|s| - 1];
      ResolvedLength(p);
      ReadAllEscaped(p);
    }
  }

  /** resolveEscapeCodes succeeds exactly when every escape is valid and no backslash is left
      open; it then returns a text shorter than the input by the number of escapes. */
  lemma ResolutionSucceeds(str: string)
    ensures Resolution(str).Ok? <==> ValidEscapes(str) && !EscapedAfter(str)
    ensures Resolution(str).Ok? ==> |Resolution(str).value| == |str| - EscapeCount(str) <= |str|
  {
    ReadingIffValid(str);
    ReadAllEscaped(str);
    ResolvedLength(str);
  }

  /** resolveEscapeCodes fails only with invalidEscapeCharacter: at the column of the first
      letter after a backslash that is not an escape letter, or at the length of the input when
      every escape is valid but the last backslash is left open. */
  lemma ResolutionFails(str: string)
    requires Resolution(str).Err?
    ensures Resolution(str).error.kind == InvalidEscapeCharacter
    ensures var i := Resolution(str).error.columnOffset;
      || (i < |str| && EscapedAfter(str[..i]) && EscapedChar(str[i]).Nothing? && ValidEscapes(str[..i]))
      || (i == |str| && EscapedAfter(str) && ValidEscapes(str))
  {
    if ReadAll(str).Rejected? {
      RejectedAt(str);
    } else {
      ReadAllEscaped(str);
      ReadingIffValid(str);
    }
  }

  lemma {:induction false} NoBackslashRead(s: string)
    requires forall k :: 0 <= k < |s| ==> s[k] != '\\'
    ensures ReadAll(s) == Reading(s, false)
    decreases |s|
  {
    if |s| > 0 {
      var p := s[..|s| - 1];
      assert forall k :: 0 <= k < |p| ==> p[k] == s[k];
      NoBackslashRead(p);
      NoBackslashStep(p, s[|s| - 1]);
      assert p + [s[|s| - 1]] == s;
    }
  }

  /** Reading one more character that is not a backslash, outside an escape. */
  lemma NoBackslashStep(p: string, c: char)
    requires c != '\\' && ReadAll(p) == Reading(p, false)
    ensures ReadAll(p + [c]) == Reading(p + [c], false)
  {
    assert (p + [c])[..|p|] == p;
  }

  /** Text without a backslash resolves to itself. */
  lemma NoBackslashUnchanged(str: string)
    requires forall k :: 0 <= k < |str| ==> str[k] != '\\'
    ensures Resolution(str) == Ok(str)
  {
    NoBackslashRead(str);
  }

  /** The letter that stands for c after a backslash, for the six characters that are written
      escaped. */
  function EscapeLetter(c: char): (l: Option<char>)
    ensures l.Some? ==> EscapedChar(l.value) == Some(c)
  {
    match c
    case '\n' => Some('n')
    case '\t' => Some('t')
    case '\r' => Some('r')
    case '"' => Some('"')
    case '\'' => Some('\'')
    case '\\' => Some('\\')
    case _ => Nothing
  }

  /** The escape sequence that stands for c: a backslash and its letter, or c itself. */
  function EscapeOf(c: char): string {
    match EscapeLetter(c)
    case Some(l) => ['\\', l]
    case Nothing => [c]
  }

  /** A text written with every special character escaped. */
  function Escape(s: string): string
    decreases |s|
  {
    if |s| == 0 then "" else Escape(s[..|s| - 1]) + EscapeOf(s[|s| - 1])
  }

  lemma ReadEscapeOf(e: string, p: string, c: char)
    requires ReadAll(e) == Reading(p, false)
    ensures ReadAll(e + EscapeOf(c)) == Reading(p + [c], false)
  {
    var x := EscapeOf(c);
    if |x| == 1 {
      assert (e + x)[..|e|] == e;
    } else {
      assert (e + x)[..|e| + 1] == e + [x[0]];
      assert (e + [x[0]])[..|e|] == e;
    }
  }

  /** Reading the escape of one more character. */
  lemma EscapeReadStep(p: string, c: char)
    requires ReadAll(Escape(p)) == Reading(p, false)
    ensures ReadAll(Escape(p + [c])) == Reading(p + [c], false)
  {
    assert (p + [c])[..|p|] == p;
    ReadEscapeOf(Escape(p), p, c);
  }

  lemma {:induction false} EscapeRead(s: string)
    ensures ReadAll(Escape(s)) == Reading(s, false)
    decreases |s|
  {
    if |s| > 0 {
      var p, c := s[..|s| - 1], s[|s| - 1];
      assert s == p + [c];
      EscapeRead(p);
      EscapeReadStep(p, c);
    }
  }

  /** Escaping a text and resolving it gives the text back. */
  lemma EscapeRoundTrip(s: string)
    ensures Resolution(Escape(s)) == Ok(s)
  {
    EscapeRead(s);
  }

  /** A single backslash pair resolves to the one character it stands for, or fails at its
      letter; a lone backslash fails at offset 1. */
  lemma PairResolution(c: char)
    ensures EscapedChar(c).Some? ==> Resolution(['\\', c]) == Ok([EscapedChar(c).value])
    ensures EscapedChar(c).Nothing? ==> Resolution(['\\', c]) == Err(LexError(InvalidEscapeCharacter, 1))
    ensures Resolution("\\") == Err(LexError(InvalidEscapeCharacter, 1))
  {
    assert ['\\', c][..1] == "\\";
    assert "\\"[..0] == "";
    assert ReadAll("\\") == Reading("", true);
    assert ReadAll(['\\', c]) == Step(Reading("", true), c, 1);
    if EscapedChar(c).Some? {
      assert "" + [EscapedChar(c).value] == [EscapedChar(c).value];
    }
  }

  /** A single character other than a backslash resolves to itself. */
  lemma SingleResolution(c: char)
    requires c != '\\'
    ensures Resolution([c]) == Ok([c])
  {
    assert [c][..0] == "";
    assert ReadAll([c]) == Step(Reading("", false), c, 0);
    assert "" + [c] == [c];
  }
}
