/** The Swift Character and String operations the lexer relies on, restricted to ASCII:
    Character.isNumber, isLetter and isWhitespace, String.uppercased() and String.hasPrefix. */
module Text {

  predicate IsNumber(c: char) {
    '0' <= c <= '9'
  }

  predicate IsLetter(c: char) {
    'A' <= c <= 'Z' || 'a' <= c <= 'z'
  }

  /** Space, horizontal tab, line feed, vertical tab, form feed and carriage return. */
  predicate IsWhitespace(c: char) {
    c == ' ' || c == '\t' || c == '\n' || c == '\U{000B}' || c == '\U{000C}' || c == '\r'
  }

  function ToUpper(c: char): char {
    if 'a' <= c <= 'z' then (c as int - 32) as char else c
  }

  function Uppercased(s: string): (u: string)
    ensures |u| == |s| && forall i :: 0 <= i < |s| ==> u[i] == ToUpper(s[i])
  {
    seq(|s|, i requires 0 <= i < |s| => ToUpper(s[i]))
  }

  /** s.hasPrefix(p): the first |p| characters of s are those of p. */
  predicate HasPrefix(s: string, p: string) {
    PrefixFrom(s, p, 0)
  }

  /** The characters of p from index i on agree with those of s. */
  predicate PrefixFrom(s: string, p: string, i: nat)
    decreases |p| - i
  {
    i >= |p| || (i < |s| && s[i] == p[i] && PrefixFrom(s, p, i + 1))
  }

  lemma {:induction false} PrefixFromMeaning(s: string, p: string, i: nat)
    requires i <= |p|
    ensures PrefixFrom(s, p, i) <==> i == |p| || (|p| <= |s| && p[i..] == s[i..|p|])
    decreases |p| - i
  {
    if i < |p| {
      PrefixFromMeaning(s, p, i + 1);
      if |p| <= |s| {
        assert p[i..] == [p[i]] + p[i + 1..];
        assert s[i..|p|] == [s[i]] + s[i + 1..|p|];
      }
    }
  }

  /** hasPrefix agrees with Dafny's sequence-prefix relation. */
  lemma HasPrefixMeaning(s: string, p: string)
    ensures HasPrefix(s, p) <==> p <= s
  {
    PrefixFromMeaning(s, p, 0);
    assert p[0..] == p;
  }
}
