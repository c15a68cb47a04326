/** The KSL lexer, on characters.  Character classes are those of ASCII. */
module Lexer {
  import opened Prelude

  datatype Token =
    | Keyword(word: string)
    | Identifier(name: string)
    | StringLiteral(text: string)
    | LBrace | RBrace | LParen | RParen | Comma | Colon | AtIndexed | AtPrefix | LBracket | RBracket

  predicate IsWhitespace(c: char) {
    c == ' ' || '\U{9}' <= c <= '\U{D}'
  }

  predicate IsAlphabetic(c: char) {
    'a' <= c <= 'z' || 'A' <= c <= 'Z'
  }

  predicate IsAlphanumeric(c: char) {
    IsAlphabetic(c) || '0' <= c <= '9'
  }

  predicate IsWordChar(c: char) {
    IsAlphanumeric(c) || c == '_'
  }

  predicate IsNotQuote(c: char) {
    c != '"'
  }

  /** The length of the longest prefix all of whose characters satisfy `p`. */
  function Span(p: char -> bool, s: string): (n: nat)
    ensures n <= |s|
  {
    if s == [] || !p(s[0]) then 0 else 1 + Span(p, s[1..])
  }

  lemma {:induction false} SpanFacts(p: char -> bool, s: string)
    ensures forall i :: 0 <= i < Span(p, s) ==> p(s[i])
    ensures Span(p, s) < |s| ==> !p(s[Span(p, s)])
  {
    if s != [] && p(s[0]) {
      SpanFacts(p, s[1..]);
    }
  }

  /** The character after the run, if there is one, does not satisfy `p`. */
  lemma SpanStops(p: char -> bool, s: string)
    ensures Span(p, s) < |s| ==> !p(s[Span(p, s)])
  {
    SpanFacts(p, s);
  }

  lemma {:induction false} SpanExact(p: char -> bool, word: string, rest: string)
    requires forall i :: 0 <= i < |word| ==> p(word[i])
    requires rest == [] || !p(rest[0])
    ensures Span(p, word + rest) == |word|
  {
    if word == [] {
      assert word + rest == rest;
    } else {
      assert (word + rest)[1..] == word[1..] + rest;
      SpanExact(p, word[1..], rest);
    }
  }

  function Punctuation(c: char): Option<Token> {
    match c
    case '{' => Some(LBrace)
    case '}' => Some(RBrace)
    case '(' => Some(LParen)
    case ')' => Some(RParen)
    case '[' => Some(LBracket)
    case ']' => Some(RBracket)
    case ',' => Some(Comma)
    case ':' => Some(Colon)
    case _ => None
  }

  function Word(word: string): Token {
    if word == "type" || word == "enum" then Keyword(word) else Identifier(word)
  }

  /** A string literal, from its opening quote; an unclosed one extends to the end. */
  function Quoted(s: string): (r: (Token, string))
    requires s != []
    ensures |r.1| < |s|
  {
    var n := 1 + Span(IsNotQuote, s[1..]);
    (StringLiteral(s[1..n]), if n < |s| then s[n + 1..] else s[n..])
  }

  /** An annotation, from its `@`; only two of them are known. */
  function Annotation(s: string): (r: (Option<Token>, string))
    requires s != []
    ensures |r.1| < |s|
  {
    var n := 1 + Span(IsAlphanumeric, s[1..]);
    (if s[..n] == "@indexed" then Some(AtIndexed) else if s[..n] == "@prefix" then Some(AtPrefix) else None, s[n..])
  }

  predicate StartsWord(c: char) {
    IsAlphabetic(c) || c == '_'
  }

  /** The first token of a text and the text after it.  Unknown annotations and unexpected
      characters are skipped. */
  function Next(text: string): (r: (Option<Token>, string))
    ensures |r.1| <= |text|
    ensures r.0.Some? ==> |r.1| < |text|
    ensures r.0.None? ==> r.1 == []
    decreases |text|
  {
    var s := text[Span(IsWhitespace, text)..];
    if s == [] then (None, [])
    else if Punctuation(s[0]).Some? then (Punctuation(s[0]), s[1..])
    else if s[0] == '"' then var (t, rest) := Quoted(s); (Some(t), rest)
    else if s[0] == '@' then var (t, rest) := Annotation(s); if t.Some? then (t, rest) else Next(rest)
    else if StartsWord(s[0]) then (Some(Word(s[..Span(IsWordChar, s)])), s[Span(IsWordChar, s)..])
    else Next(s[1..])
  }

  function Tokens(text: string): seq<Token>
    decreases |text|
  {
    var (t, rest) := Next(text);
    if t.None? then [] else [t.value] + Tokens(rest)
  }

  class Lexer {
    const input: string
    var pos: nat

    ghost predicate Valid()
      reads this
    {
      pos <= |input|
    }

    constructor (input: string)
      ensures Valid() && pos == 0 && this.input == input
    {
      this.input := input;
      pos := 0;
    }

    /** The end of the run of characters satisfying `p` that starts at `start`. */
    method Scan(p: char -> bool, start: nat) returns (end: nat)
      requires start <= |input|
      ensures end == start + Span(p, input[start..])
    {
      end := start;
      while end < |input| && p(input[end])
        invariant start <= end <= |input|
        invariant Span(p, input[start..]) == (end - start) + Span(p, input[end..])
      {
        assert input[end..][1..] == input[end + 1..];
        end := end + 1;
      }
    }

    /** A string literal, from its opening quote. */
    method StringToken() returns (token: Token)
      requires Valid() && pos < |input|
      modifies this
      ensures Valid() && pos > old(pos)
      ensures (token, input[pos..]) == Quoted(old(input[pos..]))
    {
      ghost var s := input[pos..];
      assert s[1..] == input[pos + 1..];
      pos := pos + 1;
      var end := Scan(IsNotQuote, pos);
      var word := input[pos..end];
      assert word == s[1..end - pos + 1];
      SpanStops(IsNotQuote, input[pos..]);
      pos := end;
      if pos < |input| && input[pos] == '"' {
        pos := pos + 1;
      }
      token := StringLiteral(word);
    }

    method AnnotationToken() returns (token: Option<Token>)
      requires Valid() && pos < |input|
      modifies this
      ensures Valid() && pos > old(pos)
      ensures (token, input[pos..]) == Annotation(old(input[pos..]))
    {
      ghost var s := input[pos..];
      assert s[1..] == input[pos + 1..];
      var end := Scan(IsAlphanumeric, pos + 1);
      var word := input[pos..end];
      assert word == s[..end - pos] && input[end..] == s[end - pos..];
      pos := end;
      if word == "@indexed" {
        token := Some(AtIndexed);
      } else if word == "@prefix" {
        token := Some(AtPrefix);
      } else {
        token := None;
      }
    }

    method WordToken() returns (token: Token)
      requires Valid() && pos < |input|
      modifies this
      ensures Valid() && pos >= old(pos)
      ensures var s := old(input[pos..]);
              token == Word(s[..Span(IsWordChar, s)]) && input[pos..] == s[Span(IsWordChar, s)..]
    {
      ghost var s := input[pos..];
      var end := Scan(IsWordChar, pos);
      var word := input[pos..end];
      assert word == s[..end - pos] && input[end..] == s[end - pos..];
      pos := end;
      token := Word(word);
    }

    method NextToken() returns (token: Option<Token>)
      requires Valid()
      modifies this
      ensures Valid() && pos >= old(pos)
      ensures (token, input[pos..]) == Next(old(input[pos..]))
      decreases |input| - pos
    {
      ghost var text := input[pos..];
      pos := Scan(IsWhitespace, pos);
      ghost var s := input[pos..];
      assert s == text[Span(IsWhitespace, text)..];
      if pos >= |input| {
        return None;
      }
      var c := input[pos];
      if Punctuation(c).Some? {
        assert s[1..] == input[pos + 1..];
        pos := pos + 1;
        token := Punctuation(c);
      } else if c == '"' {
        var t := StringToken();
        token := Some(t);
      } else if c == '@' {
        token := AnnotationToken();
        if token.None? {
          token := NextToken();
        }
      } else if StartsWord(c) {
        var t := WordToken();
        token := Some(t);
      } else {
        assert s[1..] == input[pos + 1..];
        pos := pos + 1;
        token := NextToken();
      }
    }
  }
}
