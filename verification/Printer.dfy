/**
 A printer for schemas, and the round trip through lexer and parser at the level of
 characters.
 */
module Printer {
  import opened Prelude
  import opened Ast
  import opened Lexer
  import opened Parser

  // --- Tokens ----------------------------------------------------------------------------

  predicate IsWord(w: string) {
    w != [] && StartsWord(w[0]) && forall c <- w :: IsWordChar(c)
  }

  predicate IsName(w: string) {
    IsWord(w) && w != "type" && w != "enum"
  }

  predicate IsQuotable(s: string) {
    forall c <- s :: IsNotQuote(c)
  }

  /** The tokens a lexer can produce. */
  predicate Lexical(t: Token) {
    match t
    case Keyword(w) => w == "type" || w == "enum"
    case Identifier(w) => IsName(w)
    case StringLiteral(s) => IsQuotable(s)
    case _ => true
  }

  function TokenText(t: Token): string {
    match t
    case Keyword(w) => w
    case Identifier(w) => w
    case StringLiteral(s) => "\"" + s + "\""
    case LBrace => "{"
    case RBrace => "}"
    case LParen => "("
    case RParen => ")"
    case Comma => ","
    case Colon => ":"
    case AtIndexed => "@indexed"
    case AtPrefix => "@prefix"
    case LBracket => "["
    case RBracket => "]"
  }

  /** Every token followed by a space. */
  function Render(ts: seq<Token>): string {
    if ts == [] then "" else TokenText(ts[0]) + (" " + Render(ts[1..]))
  }

  lemma NextSkipsSpace(text: string)
    ensures Next(" " + text) == Next(text)
  {
    assert (" " + text)[1..] == text;
    var n := Span(IsWhitespace, text);
    assert (" " + text)[1 + n..] == text[n..];
  }

  lemma WordSpan(w: string, rest: string)
    requires IsWord(w)
    ensures var s := w + (" " + rest);
            Span(IsWordChar, s) == |w| && s[..|w|] == w && s[|w|..] == " " + rest && s[0] == w[0]
  {
    assert forall i :: 0 <= i < |w| ==> w[i] in w;
    SpanExact(IsWordChar, w, " " + rest);
  }

  lemma NextWord(w: string, rest: string)
    requires IsWord(w)
    ensures Next(w + (" " + rest)) == (Some(Word(w)), " " + rest)
  {
    var s := w + (" " + rest);
    WordSpan(w, rest);
    assert s[0..] == s;
  }

  lemma NextQuoted(text: string, rest: string)
    requires IsQuotable(text)
    ensures Next(("\"" + text + "\"") + (" " + rest)) == (Some(StringLiteral(text)), " " + rest)
  {
    var s := ("\"" + text + "\"") + (" " + rest);
    assert s[1..] == text + ("\"" + (" " + rest));
    assert forall i :: 0 <= i < |text| ==> text[i] in text;
    SpanExact(IsNotQuote, text, "\"" + (" " + rest));
    assert s[1..1 + |text|] == text && s[2 + |text|..] == " " + rest;
    assert s[0..] == s;
  }

  lemma AnnotationText(name: string, rest: string)
    requires forall c <- name :: IsAlphanumeric(c)
    ensures var s := ("@" + name) + (" " + rest);
            1 + Span(IsAlphanumeric, s[1..]) == |"@" + name| && s[..|"@" + name|] == "@" + name &&
            s[|"@" + name|..] == " " + rest
  {
    var s := ("@" + name) + (" " + rest);
    assert s[1..] == name + (" " + rest);
    assert forall i :: 0 <= i < |name| ==> name[i] in name;
    SpanExact(IsAlphanumeric, name, " " + rest);
  }

  lemma NextAnnotation(t: Token, rest: string)
    requires t == AtIndexed || t == AtPrefix
    ensures Next(TokenText(t) + (" " + rest)) == (Some(t), " " + rest)
  {
    var s := TokenText(t) + (" " + rest);
    if t == AtIndexed {
      assert "@indexed" == "@" + "indexed";
      AnnotationText("indexed", rest);
    } else {
      assert "@prefix" == "@" + "prefix";
      AnnotationText("prefix", rest);
    }
    assert s[0..] == s;
  }

  lemma NextRendered(t: Token, rest: string)
    requires Lexical(t)
    ensures Next(TokenText(t) + (" " + rest)) == (Some(t), " " + rest)
  {
    match t
    case Keyword(w) => NextWord(w, rest);
    case Identifier(w) => NextWord(w, rest);
    case StringLiteral(s) => NextQuoted(s, rest);
    case AtIndexed => NextAnnotation(t, rest);
    case AtPrefix => NextAnnotation(t, rest);
    case _ =>
      var s := TokenText(t) + (" " + rest);
      assert s[0..] == s && s[1..] == " " + rest;
  }

  /** Lexing inverts rendering, token by token. */
  lemma {:induction false} LexRendered(ts: seq<Token>)
    requires forall t <- ts :: Lexical(t)
    ensures Tokens(Render(ts)) == ts
  {
    if ts != [] {
      var rest := Render(ts[1..]);
      assert ts[0] in ts;
      NextRendered(ts[0], rest);
      NextSkipsSpace(rest);
      LexRendered(ts[1..]);
      assert Tokens(" " + rest) == Tokens(rest);
    }
  }

  lemma QuotedLexical(s: string)
    requires s != []
    ensures Lexical(Quoted(s).0)
  {
    SpanFacts(IsNotQuote, s[1..]);
  }

  lemma {:induction false} NextLexical(text: string)
    ensures Next(text).0.Some? ==> Lexical(Next(text).0.value)
    decreases |text|
  {
    var s := text[Span(IsWhitespace, text)..];
    if s != [] && Punctuation(s[0]).None? {
      if s[0] == '"' {
        QuotedLexical(s);
      } else if s[0] == '@' {
        NextLexical(Annotation(s).1);
      } else if StartsWord(s[0]) {
        SpanFacts(IsWordChar, s);
        var w := s[..Span(IsWordChar, s)];
        assert w != [] && w[0] == s[0];
        assert forall c <- w :: IsWordChar(c);
      } else {
        NextLexical(s[1..]);
      }
    }
  }

  lemma {:induction false} TokensLexical(text: string)
    ensures forall t <- Tokens(text) :: Lexical(t)
    decreases |text|
  {
    NextLexical(text);
    if Next(text).0.Some? {
      TokensLexical(Next(text).1);
    }
  }

  // --- Schemas as tokens -------------------------------------------------------------------

  function TypeName(t: DataType): string
    requires !t.Array?
  {
    match t
    case String => "String"
    case U16 => "U16"
    case U32 => "U32"
    case U64 => "U64"
    case I32 => "I32"
    case I64 => "I64"
    case F64 => "F64"
    case Boolean => "Boolean"
    case Custom(name) => name
  }

  // Each of these functions puts the tokens of its argument in front of `rest`.

  function TypeTokens(t: DataType, rest: seq<Token>): seq<Token> {
    if t.Array? then [LBracket] + TypeTokens(t.element, [RBracket] + rest) else [Identifier(TypeName(t))] + rest
  }

  function FieldTokens(f: FieldDefinition, rest: seq<Token>): seq<Token> {
    var body := [Identifier(f.name)] + ([Colon] + TypeTokens(f.dataType, [Comma] + rest));
    if f.isIndexed then [AtIndexed] + body else body
  }

  function FieldsTokens(fs: seq<FieldDefinition>, rest: seq<Token>): seq<Token> {
    if fs == [] then rest else FieldTokens(fs[0], FieldsTokens(fs[1..], rest))
  }

  function VariantsTokens(vs: seq<string>, rest: seq<Token>): seq<Token> {
    if vs == [] then rest else [Identifier(vs[0])] + ([Comma] + VariantsTokens(vs[1..], rest))
  }

  function DeclarationTokens(n: SchemaNode, rest: seq<Token>): seq<Token> {
    match n
    case Type(t) => [Keyword("type")] + ([Identifier(t.name)] + ([LBrace] + FieldsTokens(t.fields, [RBrace] + rest)))
    case Enum(e) =>
      [Keyword("enum")] + ([Identifier(e.name)] + ([LBrace] + VariantsTokens(e.variants, [RBrace] + rest)))
  }

  function PrefixOf(n: SchemaNode): Option<string> {
    if n.Type? then n.typeDef.prefix else None
  }

  function PrefixTokens(prefix: Option<string>, rest: seq<Token>): seq<Token> {
    if prefix.None? then rest else [AtPrefix] + ([LParen] + ([StringLiteral(prefix.value)] + ([RParen] + rest)))
  }

  function NodesTokens(ns: seq<SchemaNode>): seq<Token> {
    if ns == [] then [] else PrefixTokens(PrefixOf(ns[0]), DeclarationTokens(ns[0], NodesTokens(ns[1..])))
  }

  function Print(ns: seq<SchemaNode>): string {
    Render(NodesTokens(ns))
  }

  // --- The schemas a parser can return -------------------------------------------------------

  predicate WfType(t: DataType) {
    match t
    case Array(element) => WfType(element)
    case Custom(name) => IsName(name) && NamedType(name) == t
    case _ => true
  }

  predicate WfField(f: FieldDefinition) {
    IsName(f.name) && WfType(f.dataType)
  }

  predicate WfNode(n: SchemaNode) {
    match n
    case Type(t) =>
      IsName(t.name) && (forall f <- t.fields :: WfField(f)) && (t.prefix.Some? ==> IsQuotable(t.prefix.value))
    case Enum(e) => IsName(e.name) && forall v <- e.variants :: IsName(v)
  }

  predicate WfSchema(ns: seq<SchemaNode>) {
    forall n <- ns :: WfNode(n)
  }

  // --- Parsing inverts printing ----------------------------------------------------------------

  lemma NamedTypeName(t: DataType)
    requires WfType(t) && !t.Array?
    ensures NamedType(TypeName(t)) == t && IsName(TypeName(t))
  {
  }

  lemma Uncons<T>(x: T, rest: seq<T>)
    ensures ([x] + rest)[0] == x && ([x] + rest)[1..] == rest
  {
  }

  lemma {:induction false} ParsePrintedType(t: DataType, rest: seq<Token>)
    requires WfType(t)
    ensures ParseDataType(TypeTokens(t, rest)) == Ok(Parsed(t, rest))
  {
    if t.Array? {
      ParsePrintedType(t.element, [RBracket] + rest);
      Uncons(LBracket, TypeTokens(t.element, [RBracket] + rest));
      Uncons(RBracket, rest);
    } else {
      NamedTypeName(t);
      Uncons(Identifier(TypeName(t)), rest);
    }
  }

  lemma ParsePrintedFieldBody(f: FieldDefinition, rest: seq<Token>)
    requires WfField(f)
    ensures ParseFieldBody([Identifier(f.name)] + ([Colon] + TypeTokens(f.dataType, [Comma] + rest)), f.isIndexed) ==
            Ok(Parsed(f, rest))
  {
    var typed := TypeTokens(f.dataType, [Comma] + rest);
    ParsePrintedType(f.dataType, [Comma] + rest);
    Uncons(Comma, rest);
    Uncons(Colon, typed);
    Uncons(Identifier(f.name), [Colon] + typed);
  }

  lemma ParsePrintedField(f: FieldDefinition, rest: seq<Token>)
    requires WfField(f)
    ensures ParseField(FieldTokens(f, rest)) == Ok(Parsed(f, rest))
    ensures FieldTokens(f, rest) != [] && FieldTokens(f, rest)[0] != RBrace
  {
    ParsePrintedFieldBody(f, rest);
    Uncons(AtIndexed, [Identifier(f.name)] + ([Colon] + TypeTokens(f.dataType, [Comma] + rest)));
  }

  lemma {:induction false} ParsePrintedFields(fs: seq<FieldDefinition>, rest: seq<Token>)
    requires forall f <- fs :: WfField(f)
    requires rest != [] && rest[0] == RBrace
    ensures ParseFields(FieldsTokens(fs, rest)) == Ok(Parsed(fs, rest))
  {
    if fs != [] {
      assert fs[0] in fs;
      ParsePrintedFields(fs[1..], rest);
      ParsePrintedField(fs[0], FieldsTokens(fs[1..], rest));
      assert fs == [fs[0]] + fs[1..];
    }
  }

  lemma {:induction false} ParsePrintedVariants(vs: seq<string>, rest: seq<Token>)
    requires rest != [] && rest[0] == RBrace
    ensures ParseVariants(VariantsTokens(vs, rest)) == Ok(Parsed(vs, rest))
  {
    if vs != [] {
      var more := VariantsTokens(vs[1..], rest);
      ParsePrintedVariants(vs[1..], rest);
      Uncons(Comma, more);
      Uncons(Identifier(vs[0]), [Comma] + more);
      assert vs == [vs[0]] + vs[1..];
    }
  }

  lemma ParsePrintedHeader(name: string, rest: seq<Token>)
    ensures ParseHeader([Identifier(name)] + ([LBrace] + rest)) == Ok(Parsed(name, rest))
  {
    Uncons(LBrace, rest);
    Uncons(Identifier(name), [LBrace] + rest);
  }

  lemma ParsePrintedDeclaration(n: SchemaNode, rest: seq<Token>)
    requires WfNode(n)
    ensures ParseDeclaration(DeclarationTokens(n, rest), PrefixOf(n)) == Ok(Parsed(n, rest))
  {
    var tail := [RBrace] + rest;
    Uncons(RBrace, rest);
    match n
    case Type(t) =>
      var body := FieldsTokens(t.fields, tail);
      Uncons(Keyword("type"), [Identifier(t.name)] + ([LBrace] + body));
      ParsePrintedHeader(t.name, body);
      ParsePrintedFields(t.fields, tail);
    case Enum(e) =>
      var body := VariantsTokens(e.variants, tail);
      Uncons(Keyword("enum"), [Identifier(e.name)] + ([LBrace] + body));
      ParsePrintedHeader(e.name, body);
      ParsePrintedVariants(e.variants, tail);
  }

  lemma ParsePrintedPrefix(prefix: Option<string>, rest: seq<Token>)
    requires rest != [] && rest[0] != AtPrefix
    ensures ParsePrefix(PrefixTokens(prefix, rest)) == Ok(Parsed(prefix, rest))
  {
    if prefix.Some? {
      var literal := StringLiteral(prefix.value);
      Uncons(RParen, rest);
      Uncons(literal, [RParen] + rest);
      Uncons(LParen, [literal] + ([RParen] + rest));
      Uncons(AtPrefix, [LParen] + ([literal] + ([RParen] + rest)));
    }
  }

  lemma ParsePrintedNode(n: SchemaNode, rest: seq<Token>)
    requires WfNode(n)
    ensures ParseNode(PrefixTokens(PrefixOf(n), DeclarationTokens(n, rest))) == Ok(Parsed(n, rest))
  {
    ParsePrintedDeclaration(n, rest);
    ParsePrintedPrefix(PrefixOf(n), DeclarationTokens(n, rest));
  }

  lemma {:induction false} ParsePrintedNodes(ns: seq<SchemaNode>)
    requires WfSchema(ns)
    ensures ParseNodes(NodesTokens(ns)) == Ok(ns)
  {
    if ns != [] {
      assert ns[0] in ns;
      var more := NodesTokens(ns[1..]);
      ParsePrintedNode(ns[0], more);
      ParsePrintedNodes(ns[1..]);
      ParseNodesStep(NodesTokens(ns), ns[0], more);
      assert ns == [ns[0]] + ns[1..];
    }
  }

  lemma ParseNodesStep(ts: seq<Token>, n: SchemaNode, rest: seq<Token>)
    requires ParseNode(ts) == Ok(Parsed(n, rest)) && ParseNodes(rest).Ok?
    ensures ParseNodes(ts) == Ok([n] + ParseNodes(rest).value)
  {
  }

  // --- Printing uses lexical tokens only ---------------------------------------------------------

  lemma {:induction false} TypeTokensLexical(t: DataType, rest: seq<Token>)
    requires WfType(t) && forall x <- rest :: Lexical(x)
    ensures forall x <- TypeTokens(t, rest) :: Lexical(x)
  {
    if t.Array? {
      TypeTokensLexical(t.element, [RBracket] + rest);
    } else {
      NamedTypeName(t);
    }
  }

  lemma {:induction false} FieldsTokensLexical(fs: seq<FieldDefinition>, rest: seq<Token>)
    requires forall f <- fs :: WfField(f)
    requires forall x <- rest :: Lexical(x)
    ensures forall x <- FieldsTokens(fs, rest) :: Lexical(x)
  {
    if fs != [] {
      assert fs[0] in fs;
      FieldsTokensLexical(fs[1..], rest);
      TypeTokensLexical(fs[0].dataType, [Comma] + FieldsTokens(fs[1..], rest));
    }
  }

  lemma {:induction false} VariantsTokensLexical(vs: seq<string>, rest: seq<Token>)
    requires forall v <- vs :: IsName(v)
    requires forall x <- rest :: Lexical(x)
    ensures forall x <- VariantsTokens(vs, rest) :: Lexical(x)
  {
    if vs != [] {
      assert vs[0] in vs;
      VariantsTokensLexical(vs[1..], rest);
    }
  }

  lemma {:induction false} NodesTokensLexical(ns: seq<SchemaNode>)
    requires WfSchema(ns)
    ensures forall x <- NodesTokens(ns) :: Lexical(x)
  {
    if ns != [] {
      assert ns[0] in ns;
      NodesTokensLexical(ns[1..]);
      var tail := [RBrace] + NodesTokens(ns[1..]);
      match ns[0] {
        case Type(t) => FieldsTokensLexical(t.fields, tail);
        case Enum(e) => VariantsTokensLexical(e.variants, tail);
      }
    }
  }

  // --- The parser returns well-formed schemas only --------------------------------------------------

  lemma NamedTypeWf(name: string)
    requires IsName(name)
    ensures WfType(NamedType(name))
  {
  }

  lemma {:induction false} ParsedTypeWf(ts: seq<Token>)
    requires forall t <- ts :: Lexical(t)
    requires ParseDataType(ts).Ok?
    ensures WfType(ParseDataType(ts).value.value)
    ensures forall t <- ParseDataType(ts).value.rest :: Lexical(t)
    decreases |ts|
  {
    assert ts[0] in ts;
    if ts[0] == LBracket {
      ParsedTypeWf(ts[1..]);
    } else {
      NamedTypeWf(ts[0].name);
    }
  }

  lemma ParsedFieldWf(ts: seq<Token>)
    requires forall t <- ts :: Lexical(t)
    requires ParseField(ts).Ok?
    ensures WfField(ParseField(ts).value.value)
    ensures forall t <- ParseField(ts).value.rest :: Lexical(t)
  {
    var here := if ts[0] == AtIndexed then ts[1..] else ts;
    assert here[0] in ts;
    assert forall t <- here[1..][1..] :: t in ts;
    ParsedTypeWf(here[1..][1..]);
    var rest := ParseDataType(here[1..][1..]).value.rest;
    assert forall t <- rest[1..] :: t in rest;
  }

  lemma {:induction false} ParsedFieldsWf(ts: seq<Token>)
    requires forall t <- ts :: Lexical(t)
    requires ParseFields(ts).Ok?
    ensures forall f <- ParseFields(ts).value.value :: WfField(f)
    ensures forall t <- ParseFields(ts).value.rest :: Lexical(t)
    decreases |ts|
  {
    if !(ts != [] && ts[0] == RBrace) {
      ParsedFieldWf(ts);
      ParsedFieldsWf(ParseField(ts).value.rest);
    }
  }

  lemma {:induction false} ParsedVariantsWf(ts: seq<Token>)
    requires forall t <- ts :: Lexical(t)
    requires ParseVariants(ts).Ok?
    ensures forall v <- ParseVariants(ts).value.value :: IsName(v)
    ensures forall t <- ParseVariants(ts).value.rest :: Lexical(t)
    decreases |ts|
  {
    if !(ts != [] && ts[0] == RBrace) {
      assert ts[0] in ts;
      assert forall t <- ParseVariant(ts).value.rest :: t in ts;
      ParsedVariantsWf(ParseVariant(ts).value.rest);
    }
  }

  lemma ParsedPrefixWf(ts: seq<Token>)
    requires forall t <- ts :: Lexical(t)
    requires ParsePrefix(ts).Ok?
    ensures ParsePrefix(ts).value.value.Some? ==> IsQuotable(ParsePrefix(ts).value.value.value)
    ensures forall t <- ParsePrefix(ts).value.rest :: Lexical(t)
  {
    if ts != [] && ts[0] == AtPrefix {
      assert ts[1..][1..][0] in ts;
      assert forall t <- ts[1..][1..][1..][1..] :: t in ts;
    }
  }

  lemma ParsedDeclarationWf(ts: seq<Token>, prefix: Option<string>)
    requires forall t <- ts :: Lexical(t)
    requires prefix.Some? ==> IsQuotable(prefix.value)
    requires ParseDeclaration(ts, prefix).Ok?
    ensures WfNode(ParseDeclaration(ts, prefix).value.value)
    ensures forall t <- ParseDeclaration(ts, prefix).value.rest :: Lexical(t)
  {
    var body := ts[1..][1..][1..];
    assert ParseHeader(ts[1..]) == Ok(Parsed(ts[1].name, body));
    assert ts[1] in ts;
    assert forall t <- body :: t in ts;
    if ts[0] == Keyword("type") {
      ParsedFieldsWf(body);
      var rest := ParseFields(body).value.rest;
      assert forall t <- rest[1..] :: t in rest;
    } else {
      ParsedVariantsWf(body);
      var rest := ParseVariants(body).value.rest;
      assert forall t <- rest[1..] :: t in rest;
    }
  }

  lemma {:induction false} ParsedNodesWf(ts: seq<Token>)
    requires forall t <- ts :: Lexical(t)
    requires ParseNodes(ts).Ok?
    ensures WfSchema(ParseNodes(ts).value)
    decreases |ts|
  {
    if ts != [] {
      ParsedPrefixWf(ts);
      var prefix := ParsePrefix(ts).value;
      ParsedDeclarationWf(prefix.rest, prefix.value);
      ParsedNodesWf(ParseNode(ts).value.rest);
    }
  }

  // --- Main theorems -----------------------------------------------------------------------------------

  /** Printing a well-formed schema and parsing the text gives the schema back. */
  lemma RoundTrip(ns: seq<SchemaNode>)
    requires WfSchema(ns)
    ensures ParseText(Print(ns)) == Ok(ns)
  {
    NodesTokensLexical(ns);
    LexRendered(NodesTokens(ns));
    ParsePrintedNodes(ns);
  }

  /** The well-formed schemas are exactly those that some text parses to. */
  lemma ParserRange(ns: seq<SchemaNode>)
    ensures WfSchema(ns) <==> exists text :: ParseText(text) == Ok(ns)
  {
    if WfSchema(ns) {
      RoundTrip(ns);
    }
    forall text | ParseText(text) == Ok(ns) ensures WfSchema(ns) {
      TokensLexical(text);
      ParsedNodesWf(Tokens(text));
    }
  }

  /** So, on every accepted text, parsing again what was printed changes nothing. */
  lemma ParsePrintParse(text: string)
    requires ParseText(text).Ok?
    ensures ParseText(Print(ParseText(text).value)) == ParseText(text)
  {
    ParserRange(ParseText(text).value);
    RoundTrip(ParseText(text).value);
  }
}
