/**
 What the lexer makes of a text, stated without the lexer: a text falls into pieces, and each
 piece is a token or nothing.
 */
module Lexemes {
  import opened Prelude
  import opened Lexer

  const SPACES := {' ', '\t', '\n', '\r', '\U{B}', '\U{C}'}

  predicate IsSpace(c: char) {
    c in SPACES
  }

  predicate IsLetter(c: char) {
    'a' <= c <= 'z' || 'A' <= c <= 'Z'
  }

  predicate IsLetterOrDigit(c: char) {
    IsLetter(c) || '0' <= c <= '9'
  }

  predicate InWord(c: char) {
    IsLetterOrDigit(c) || c == '_'
  }

  predicate IsPunctuation(c: char) {
    c in {'{', '}', '(', ')', '[', ']', ',', ':'}
  }

  /** A run of text: white space, a character that is skipped, punctuation, a word, a closed
      quotation, an annotation, or a quotation that is never closed. */
  datatype Piece =
    | Space(c: char)
    | Junk(c: char)
    | Mark(c: char)
    | Name(word: string)
    | Quotation(text: string)
    | At(name: string)
    | Unclosed(text: string)

  function TextOf(p: Piece): string {
    match p
    case Space(c) => [c]
    case Junk(c) => [c]
    case Mark(c) => [c]
    case Name(word) => word
    case Quotation(text) => ['"'] + text + ['"']
    case At(name) => ['@'] + name
    case Unclosed(text) => ['"'] + text
  }

  predicate IsPiece(p: Piece) {
    match p
    case Space(c) => IsSpace(c)
    case Junk(c) => !IsSpace(c) && !IsPunctuation(c) && !IsLetter(c) && c != '_' && c != '"' && c != '@'
    case Mark(c) => IsPunctuation(c)
    case Name(word) => word != [] && (IsLetter(word[0]) || word[0] == '_') && forall c <- word :: InWord(c)
    case Quotation(text) => '"' !in text
    case At(name) => forall c <- name :: IsLetterOrDigit(c)
    case Unclosed(text) => '"' !in text
  }

  /** A word goes on as long as it can, and so does the name of an annotation; nothing follows a
      quotation that is never closed. */
  predicate CanPrecede(p: Piece, rest: string) {
    match p
    case Name(_) => rest == [] || !InWord(rest[0])
    case At(_) => rest == [] || !IsLetterOrDigit(rest[0])
    case Unclosed(_) => rest == []
    case _ => true
  }

  function Spell(ps: seq<Piece>): string {
    if ps == [] then [] else TextOf(ps[0]) + Spell(ps[1..])
  }

  predicate Proper(ps: seq<Piece>) {
    ps == [] || (IsPiece(ps[0]) && CanPrecede(ps[0], Spell(ps[1..])) && Proper(ps[1..]))
  }

  function MarkToken(c: char): Token
    requires IsPunctuation(c)
  {
    if c == '{' then LBrace else if c == '}' then RBrace
    else if c == '(' then LParen else if c == ')' then RParen
    else if c == '[' then LBracket else if c == ']' then RBracket
    else if c == ',' then Comma else Colon
  }

  /** The token of a piece.  White space, stray characters and annotations other than the two
      known ones are none. */
  function TokenOf(p: Piece): Option<Token>
    requires IsPiece(p)
  {
    match p
    case Space(_) => None
    case Junk(_) => None
    case Mark(c) => Some(MarkToken(c))
    case Name(word) => Some(if word in {"type", "enum"} then Keyword(word) else Identifier(word))
    case Quotation(text) => Some(StringLiteral(text))
    case At(name) => if name == "indexed" then Some(AtIndexed) else if name == "prefix" then Some(AtPrefix) else None
    case Unclosed(text) => Some(StringLiteral(text))
  }

  function TokensOf(ps: seq<Piece>): seq<Token>
    requires Proper(ps)
  {
    if ps == [] then []
    else (if TokenOf(ps[0]).Some? then [TokenOf(ps[0]).value] else []) + TokensOf(ps[1..])
  }

  // --- The lexer's classes ---------------------------------------------------------------------------

  lemma SameClasses(c: char)
    ensures IsWhitespace(c) <==> IsSpace(c)
    ensures IsAlphanumeric(c) <==> IsLetterOrDigit(c)
    ensures IsWordChar(c) <==> InWord(c)
    ensures StartsWord(c) <==> IsLetter(c) || c == '_'
    ensures Punctuation(c) == if IsPunctuation(c) then Some(MarkToken(c)) else None
  {
  }

  // --- One piece at the beginning of a text -------------------------------------------------------------

  lemma NextAfterSpace(c: char, rest: string)
    requires IsSpace(c)
    ensures Next([c] + rest) == Next(rest)
  {
    SameClasses(c);
    var text := [c] + rest;
    assert text[1..] == rest;
    var n := Span(IsWhitespace, rest);
    assert Span(IsWhitespace, text) == 1 + n;
    assert text[1 + n..] == rest[n..];
  }

  /** A text that begins with something other than white space is lexed from its first character. */
  lemma NextHere(s: string)
    requires s != [] && !IsWhitespace(s[0])
    ensures Span(IsWhitespace, s) == 0 && s[0..] == s
  {
  }

  lemma NextOfJunk(c: char, rest: string)
    requires IsPiece(Junk(c))
    ensures Next([c] + rest) == Next(rest)
  {
    SameClasses(c);
    var text := [c] + rest;
    NextHere(text);
    assert text[1..] == rest;
  }

  lemma NextOfMark(c: char, rest: string)
    requires IsPunctuation(c)
    ensures Next([c] + rest) == (Some(MarkToken(c)), rest)
  {
    SameClasses(c);
    var text := [c] + rest;
    NextHere(text);
    assert text[1..] == rest;
  }

  lemma NextOfName(w: string, rest: string)
    requires IsPiece(Name(w)) && CanPrecede(Name(w), rest)
    ensures Next(w + rest) == (TokenOf(Name(w)), rest)
  {
    var text := w + rest;
    SameClasses(w[0]);
    forall i | 0 <= i < |w| ensures IsWordChar(w[i]) { SameClasses(w[i]); }
    if rest != [] {
      SameClasses(rest[0]);
    }
    SpanExact(IsWordChar, w, rest);
    assert text[0] == w[0];
    NextHere(text);
    assert text[..|w|] == w && text[|w|..] == rest;
  }

  lemma NextOfQuotation(t: string, rest: string)
    requires IsPiece(Quotation(t))
    ensures Next(TextOf(Quotation(t)) + rest) == (Some(StringLiteral(t)), rest)
  {
    var text := TextOf(Quotation(t)) + rest;
    var after := ['"'] + rest;
    assert text[1..] == t + after;
    SpanExact(IsNotQuote, t, after);
    NextHere(text);
    assert text[1..1 + |t|] == t && text[1 + |t| + 1..] == rest;
  }

  lemma NextOfUnclosed(t: string)
    requires IsPiece(Unclosed(t))
    ensures Next(TextOf(Unclosed(t))) == (Some(StringLiteral(t)), [])
  {
    var text := TextOf(Unclosed(t));
    assert text[1..] == t && t + [] == t;
    SpanExact(IsNotQuote, t, []);
    NextHere(text);
    assert text[1..1 + |t|] == t;
  }

  lemma NextOfAt(name: string, rest: string)
    requires IsPiece(At(name)) && CanPrecede(At(name), rest)
    ensures Next(TextOf(At(name)) + rest) == if TokenOf(At(name)).Some? then (TokenOf(At(name)), rest) else Next(rest)
  {
    var text := TextOf(At(name)) + rest;
    assert text[1..] == name + rest;
    SpanOfName(name, rest);
    NextHere(text);
    assert text[..1 + |name|] == ['@'] + name && text[1 + |name|..] == rest;
    AtKnown(name);
  }

  lemma SpanOfName(name: string, rest: string)
    requires IsPiece(At(name)) && CanPrecede(At(name), rest)
    ensures Span(IsAlphanumeric, name + rest) == |name|
  {
    forall i | 0 <= i < |name| ensures IsAlphanumeric(name[i]) { SameClasses(name[i]); }
    if rest != [] {
      SameClasses(rest[0]);
    }
    SpanExact(IsAlphanumeric, name, rest);
  }

  lemma AtKnown(name: string)
    ensures ['@'] + name == "@indexed" <==> name == "indexed"
    ensures ['@'] + name == "@prefix" <==> name == "prefix"
  {
    assert (['@'] + name)[1..] == name && "@indexed"[1..] == "indexed" && "@prefix"[1..] == "prefix";
    assert "@indexed" == ['@'] + "indexed" && "@prefix" == ['@'] + "prefix";
  }

  lemma TokensStep(text: string, t: Option<Token>, rest: string)
    requires Next(text) == if t.Some? then (t, rest) else Next(rest)
    ensures Tokens(text) == (if t.Some? then [t.value] else []) + Tokens(rest)
  {
    if t.None? {
      assert [] + Tokens(rest) == Tokens(rest);
    }
  }

  lemma NextOfPiece(p: Piece, rest: string)
    requires IsPiece(p) && CanPrecede(p, rest)
    ensures Next(TextOf(p) + rest) == if TokenOf(p).Some? then (TokenOf(p), rest) else Next(rest)
  {
    match p
    case Space(c) => NextAfterSpace(c, rest);
    case Junk(c) => NextOfJunk(c, rest);
    case Mark(c) => NextOfMark(c, rest);
    case Name(w) => NextOfName(w, rest);
    case Quotation(t) => NextOfQuotation(t, rest);
    case At(name) => NextOfAt(name, rest);
    case Unclosed(t) =>
      NextOfUnclosed(t);
      assert TextOf(p) + rest == TextOf(p);
  }

  /** Main theorem: the tokens of a text are those of its pieces, in order. */
  lemma {:induction false} LexesPieces(ps: seq<Piece>)
    requires Proper(ps)
    ensures Tokens(Spell(ps)) == TokensOf(ps)
  {
    if ps != [] {
      var rest := Spell(ps[1..]);
      NextOfPiece(ps[0], rest);
      TokensStep(TextOf(ps[0]) + rest, TokenOf(ps[0]), rest);
      LexesPieces(ps[1..]);
    }
  }

  // --- Every text falls into pieces ------------------------------------------------------------------------

  lemma SpanTakes(p: char -> bool, s: string)
    ensures forall c <- s[..Span(p, s)] :: p(c)
    ensures s[Span(p, s)..] == [] || !p(s[Span(p, s)..][0])
    ensures s == s[..Span(p, s)] + s[Span(p, s)..]
  {
    SpanFacts(p, s);
  }

  /** The first piece of a text, and the text after it. */
  lemma FirstPiece(s: string) returns (p: Piece, rest: string)
    requires s != []
    ensures IsPiece(p) && CanPrecede(p, rest) && TextOf(p) + rest == s && |rest| < |s|
  {
    var c := s[0];
    if c == '"' {
      p, rest := FirstQuotation(s);
    } else if c == '@' {
      p, rest := FirstAt(s);
    } else if IsLetter(c) || c == '_' {
      p, rest := FirstName(s);
    } else {
      rest := s[1..];
      assert [c] + rest == s;
      p := if IsSpace(c) then Space(c) else if IsPunctuation(c) then Mark(c) else Junk(c);
    }
  }

  lemma FirstAt(s: string) returns (p: Piece, rest: string)
    requires s != [] && s[0] == '@'
    ensures IsPiece(p) && CanPrecede(p, rest) && TextOf(p) + rest == s && |rest| < |s|
  {
    var n := Span(IsLetterOrDigit, s[1..]);
    SpanTakes(IsLetterOrDigit, s[1..]);
    p, rest := At(s[1..][..n]), s[1..][n..];
    assert s == ['@'] + s[1..];
  }

  lemma FirstName(s: string) returns (p: Piece, rest: string)
    requires s != [] && (IsLetter(s[0]) || s[0] == '_')
    ensures IsPiece(p) && CanPrecede(p, rest) && TextOf(p) + rest == s && |rest| < |s|
  {
    var n := Span(InWord, s);
    SpanTakes(InWord, s);
    p, rest := Name(s[..n]), s[n..];
  }

  lemma FirstQuotation(s: string) returns (p: Piece, rest: string)
    requires s != [] && s[0] == '"'
    ensures IsPiece(p) && CanPrecede(p, rest) && TextOf(p) + rest == s && |rest| < |s|
  {
    var n := Span(IsNotQuote, s[1..]);
    SpanTakes(IsNotQuote, s[1..]);
    var text, after := s[1..][..n], s[1..][n..];
    assert s == ['"'] + text + after;
    if after == [] {
      p, rest := Unclosed(text), [];
    } else {
      p, rest := Quotation(text), after[1..];
      assert after == ['"'] + rest;
    }
  }

  /** Main theorem: every text falls into proper pieces, so `LexesPieces` says what becomes of it. */
  lemma {:induction false} FallsIntoPieces(s: string) returns (ps: seq<Piece>)
    ensures Proper(ps) && Spell(ps) == s
    decreases |s|
  {
    ps := [];
    if s != [] {
      var p, rest := FirstPiece(s);
      var more := FallsIntoPieces(rest);
      ps := [p] + more;
      assert ps[1..] == more;
    }
  }

  /** In particular, between two parts of a text, white space, stray characters and unknown
      annotations followed by white space can be put in without any effect. */
  lemma SkippedBetween(a: seq<Piece>, p: Piece, b: seq<Piece>)
    requires Proper(a) && Proper(b) && IsPiece(p) && TokenOf(p).None? && CanPrecede(p, Spell(b))
    requires a == [] || CanPrecede(a[|a| - 1], TextOf(p) + Spell(b))
    ensures Tokens(Spell(a) + (TextOf(p) + Spell(b))) == TokensOf(a) + TokensOf(b)
  {
    NextOfPiece(p, Spell(b));
    TokensStep(TextOf(p) + Spell(b), None, Spell(b));
    LexesPieces(b);
    TokensAfter(a, TextOf(p) + Spell(b));
  }

  /** The tokens of pieces, followed by other text. */
  lemma {:induction false} TokensAfter(a: seq<Piece>, more: string)
    requires Proper(a) && (a == [] || CanPrecede(a[|a| - 1], more))
    ensures Tokens(Spell(a) + more) == TokensOf(a) + Tokens(more)
  {
    if a == [] {
      assert Spell(a) + more == more;
    } else {
      TokensAfter(a[1..], more);
      PieceFirst(a, more);
      var first := if TokenOf(a[0]).Some? then [TokenOf(a[0]).value] else [];
      assert (first + TokensOf(a[1..])) + Tokens(more) == first + (TokensOf(a[1..]) + Tokens(more));
    }
  }

  lemma PieceFirst(a: seq<Piece>, more: string)
    requires Proper(a) && a != [] && CanPrecede(a[|a| - 1], more)
    ensures Tokens(Spell(a) + more) ==
            (if TokenOf(a[0]).Some? then [TokenOf(a[0]).value] else []) + Tokens(Spell(a[1..]) + more)
  {
    var rest := Spell(a[1..]) + more;
    PrecedesMore(a, more);
    assert Spell(a) + more == TextOf(a[0]) + rest;
    NextOfPiece(a[0], rest);
    TokensStep(TextOf(a[0]) + rest, TokenOf(a[0]), rest);
  }

  /** Putting more text behind does not change what follows a piece directly. */
  lemma PrecedesMore(a: seq<Piece>, more: string)
    requires Proper(a) && a != [] && CanPrecede(a[|a| - 1], more)
    ensures CanPrecede(a[0], Spell(a[1..]) + more)
  {
    if |a| > 1 {
      assert TextOf(a[1]) != [];
      assert Spell(a[1..]) != [];
    } else {
      assert Spell(a[1..]) + more == more;
    }
  }
}
