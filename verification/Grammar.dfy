/**
 The grammar of schemas, stated without the parser: which sequences of tokens spell a list of
 declarations.  The parser accepts exactly those, and returns what they spell.
 */
module Grammar {
  import opened Prelude
  import opened Ast
  import opened Lexer
  import opened Parser
  import opened Printer

  /** How a declaration is written: with a comma after its last element or without, and, if it
      is an enum, with a prefix that has no effect. */
  datatype Style = Style(finalComma: bool, ignoredPrefix: Option<string>)

  const BUILTIN := {"String", "U16", "U32", "U64", "I32", "I64", "F64", "Boolean"}

  /** A type that is written in one way only: custom types do not have names of built-in ones. */
  predicate Canonical(t: DataType) {
    match t
    case Array(element) => Canonical(element)
    case Custom(name) => name !in BUILTIN
    case _ => true
  }

  predicate CanonicalNode(n: SchemaNode) {
    n.Type? ==> forall f <- n.typeDef.fields :: Canonical(f.dataType)
  }

  predicate CanonicalSchema(ns: seq<SchemaNode>) {
    forall n <- ns :: CanonicalNode(n)
  }

  // As in the printer, each function puts the tokens of its argument in front of `rest`.

  function FieldThen(f: FieldDefinition, rest: seq<Token>): seq<Token> {
    (if f.isIndexed then [AtIndexed] else []) + ([Identifier(f.name)] + ([Colon] + TypeTokens(f.dataType, rest)))
  }

  function FieldsThen(fs: seq<FieldDefinition>, finalComma: bool, rest: seq<Token>): seq<Token> {
    if fs == [] then rest
    else if |fs| == 1 && !finalComma then FieldThen(fs[0], rest)
    else FieldThen(fs[0], [Comma] + FieldsThen(fs[1..], finalComma, rest))
  }

  function VariantsThen(vs: seq<string>, finalComma: bool, rest: seq<Token>): seq<Token> {
    if vs == [] then rest
    else if |vs| == 1 && !finalComma then [Identifier(vs[0])] + rest
    else [Identifier(vs[0])] + ([Comma] + VariantsThen(vs[1..], finalComma, rest))
  }

  function DeclarationThen(n: SchemaNode, finalComma: bool, rest: seq<Token>): seq<Token> {
    match n
    case Type(t) =>
      [Keyword("type")] + ([Identifier(t.name)] + ([LBrace] + FieldsThen(t.fields, finalComma, [RBrace] + rest)))
    case Enum(e) =>
      [Keyword("enum")] + ([Identifier(e.name)] + ([LBrace] + VariantsThen(e.variants, finalComma, [RBrace] + rest)))
  }

  function NodeThen(n: SchemaNode, style: Style, rest: seq<Token>): seq<Token> {
    PrefixTokens(if n.Type? then n.typeDef.prefix else style.ignoredPrefix, DeclarationThen(n, style.finalComma, rest))
  }

  function Spelled(ns: seq<SchemaNode>, styles: seq<Style>): seq<Token>
    requires |styles| == |ns|
  {
    if ns == [] then [] else NodeThen(ns[0], styles[0], Spelled(ns[1..], styles[1..]))
  }

  // --- What is spelled is accepted -----------------------------------------------------------------

  lemma BuiltinNames(t: DataType)
    requires Canonical(t) && !t.Array?
    ensures NamedType(TypeName(t)) == t
  {
  }

  lemma {:induction false} TypeAccepted(t: DataType, rest: seq<Token>)
    requires Canonical(t)
    ensures ParseDataType(TypeTokens(t, rest)) == Ok(Parsed(t, rest))
  {
    if t.Array? {
      TypeAccepted(t.element, [RBracket] + rest);
      Uncons(LBracket, TypeTokens(t.element, [RBracket] + rest));
      Uncons(RBracket, rest);
    } else {
      BuiltinNames(t);
      Uncons(Identifier(TypeName(t)), rest);
    }
  }

  lemma FieldAccepted(f: FieldDefinition, rest: seq<Token>)
    requires Canonical(f.dataType) && Separator(rest).Ok?
    ensures ParseField(FieldThen(f, rest)) == Ok(Parsed(f, Separator(rest).value))
    ensures FieldThen(f, rest) != [] && FieldThen(f, rest)[0] != RBrace
  {
    var typed := TypeTokens(f.dataType, rest);
    var body := [Identifier(f.name)] + ([Colon] + typed);
    TypeAccepted(f.dataType, rest);
    Uncons(Identifier(f.name), [Colon] + typed);
    Uncons(Colon, typed);
    assert ParseFieldBody(body, f.isIndexed) == Ok(Parsed(f, Separator(rest).value));
    if f.isIndexed {
      Uncons(AtIndexed, body);
    } else {
      assert [] + body == body;
    }
  }

  lemma {:induction false} FieldsAccepted(fs: seq<FieldDefinition>, finalComma: bool, rest: seq<Token>)
    requires forall f <- fs :: Canonical(f.dataType)
    requires rest != [] && rest[0] == RBrace
    ensures ParseFields(FieldsThen(fs, finalComma, rest)) == Ok(Parsed(fs, rest))
  {
    if fs != [] {
      var f, after := fs[0], fs[1..];
      assert fs == [f] + after;
      assert Canonical(f.dataType) by { assert f in fs; }
      if |fs| == 1 && !finalComma {
        FieldsOne(f, rest);
      } else {
        assert forall f <- after :: f in fs;
        FieldsAccepted(after, finalComma, rest);
        FieldsCons(f, FieldsThen(after, finalComma, rest), after, rest);
      }
    }
  }

  lemma FieldsOne(f: FieldDefinition, rest: seq<Token>)
    requires Canonical(f.dataType) && rest != [] && rest[0] == RBrace
    ensures ParseFields(FieldThen(f, rest)) == Ok(Parsed([f], rest))
  {
    assert Separator(rest) == Ok(rest) && ParseFields(rest) == Ok(Parsed([], rest));
    FieldAccepted(f, rest);
    assert [f] + [] == [f];
  }

  lemma FieldsCons(f: FieldDefinition, more: seq<Token>, fs: seq<FieldDefinition>, rest: seq<Token>)
    requires Canonical(f.dataType) && ParseFields(more) == Ok(Parsed(fs, rest))
    ensures ParseFields(FieldThen(f, [Comma] + more)) == Ok(Parsed([f] + fs, rest))
  {
    Uncons(Comma, more);
    FieldAccepted(f, [Comma] + more);
  }

  lemma {:induction false} VariantsAccepted(vs: seq<string>, finalComma: bool, rest: seq<Token>)
    requires rest != [] && rest[0] == RBrace
    ensures ParseVariants(VariantsThen(vs, finalComma, rest)) == Ok(Parsed(vs, rest))
  {
    if vs != [] {
      if |vs| == 1 && !finalComma {
        Uncons(Identifier(vs[0]), rest);
        assert vs == [vs[0]] + [];
      } else {
        var more := VariantsThen(vs[1..], finalComma, rest);
        VariantsAccepted(vs[1..], finalComma, rest);
        VariantsCons(vs[0], more, vs[1..], rest);
        assert vs == [vs[0]] + vs[1..];
      }
    }
  }

  lemma VariantsCons(v: string, more: seq<Token>, vs: seq<string>, rest: seq<Token>)
    requires ParseVariants(more) == Ok(Parsed(vs, rest))
    ensures ParseVariants([Identifier(v)] + ([Comma] + more)) == Ok(Parsed([v] + vs, rest))
  {
    Uncons(Comma, more);
    Uncons(Identifier(v), [Comma] + more);
  }

  lemma DeclarationAccepted(n: SchemaNode, finalComma: bool, prefix: Option<string>, rest: seq<Token>)
    requires CanonicalNode(n) && (n.Type? ==> n.typeDef.prefix == prefix)
    ensures ParseDeclaration(DeclarationThen(n, finalComma, rest), prefix) == Ok(Parsed(n, rest))
  {
    Uncons(RBrace, rest);
    match n {
      case Type(t) =>
        var fields := FieldsThen(t.fields, finalComma, [RBrace] + rest);
        FieldsAccepted(t.fields, finalComma, [RBrace] + rest);
        ParsePrintedHeader(t.name, fields);
        Uncons(Keyword("type"), [Identifier(t.name)] + ([LBrace] + fields));
      case Enum(e) =>
        var variants := VariantsThen(e.variants, finalComma, [RBrace] + rest);
        VariantsAccepted(e.variants, finalComma, [RBrace] + rest);
        ParsePrintedHeader(e.name, variants);
        Uncons(Keyword("enum"), [Identifier(e.name)] + ([LBrace] + variants));
    }
  }

  lemma NodeAccepted(n: SchemaNode, style: Style, rest: seq<Token>)
    requires CanonicalNode(n)
    ensures ParseNode(NodeThen(n, style, rest)) == Ok(Parsed(n, rest))
  {
    var prefix := if n.Type? then n.typeDef.prefix else style.ignoredPrefix;
    ParsePrintedPrefix(prefix, DeclarationThen(n, style.finalComma, rest));
    DeclarationAccepted(n, style.finalComma, prefix, rest);
  }

  lemma {:induction false} Accepted(ns: seq<SchemaNode>, styles: seq<Style>)
    requires CanonicalSchema(ns) && |styles| == |ns|
    ensures ParseNodes(Spelled(ns, styles)) == Ok(ns)
  {
    if ns != [] {
      var rest := Spelled(ns[1..], styles[1..]);
      assert ns[0] in ns;
      Accepted(ns[1..], styles[1..]);
      NodeAccepted(ns[0], styles[0], rest);
      ParseNodesStep(NodeThen(ns[0], styles[0], rest), ns[0], rest);
      assert ns == [ns[0]] + ns[1..];
    }
  }

  // --- What is accepted is spelled -------------------------------------------------------------------

  lemma Rejoin<T>(s: seq<T>)
    requires s != []
    ensures s == [s[0]] + s[1..]
  {
  }

  lemma {:induction false} TypeSpelled(ts: seq<Token>)
    requires ParseDataType(ts).Ok?
    ensures var p := ParseDataType(ts).value; Canonical(p.value) && ts == TypeTokens(p.value, p.rest)
    decreases |ts|
  {
    Rejoin(ts);
    if ts[0] == LBracket {
      TypeSpelled(ts[1..]);
      Rejoin(ParseDataType(ts[1..]).value.rest);
    }
  }

  /** What follows the element of a list: a comma, or the closing brace that ends the list. */
  lemma SeparatorSpelled(ts: seq<Token>)
    requires Separator(ts).Ok?
    ensures var rest := Separator(ts).value; ts == [Comma] + rest || (ts == rest && rest != [] && rest[0] == RBrace)
  {
    Rejoin(ts);
  }

  lemma FieldSpelled(ts: seq<Token>) returns (after: seq<Token>)
    requires ParseField(ts).Ok?
    ensures var p := ParseField(ts).value;
            Canonical(p.value.dataType) && ts == FieldThen(p.value, after) && Separator(after) == Ok(p.rest)
  {
    var indexed := ts != [] && ts[0] == AtIndexed;
    var body := if indexed then ts[1..] else ts;
    var name := ExpectIdentifier(body).value;
    var colon := MatchToken(name.rest, Colon).value;
    TypeSpelled(colon.rest);
    after := ParseDataType(colon.rest).value.rest;
    Rejoin(body);
    Rejoin(name.rest);
    if indexed {
      Rejoin(ts);
    } else {
      assert [] + body == body;
    }
  }

  lemma {:induction false} FieldsSpelled(ts: seq<Token>) returns (finalComma: bool)
    requires ParseFields(ts).Ok?
    ensures var p := ParseFields(ts).value;
            && (forall f <- p.value :: Canonical(f.dataType)) && p.rest != [] && p.rest[0] == RBrace
            && ts == FieldsThen(p.value, finalComma, p.rest)
    decreases |ts|
  {
    finalComma := false;
    if !(ts != [] && ts[0] == RBrace) {
      var p := ParseFields(ts).value;
      var field := ParseField(ts).value;
      var after := FieldSpelled(ts);
      SeparatorSpelled(after);
      var final := FieldsSpelled(field.rest);
      var more := ParseFields(field.rest).value;
      assert p.value[0] == field.value && p.value[1..] == more.value;
      if after == [Comma] + field.rest {
        finalComma := if more.value == [] then true else final;
        assert more.value == [] ==> FieldsThen(more.value, true, p.rest) == field.rest;
      }
    }
  }

  lemma VariantSpelled(ts: seq<Token>) returns (after: seq<Token>)
    requires ParseVariant(ts).Ok?
    ensures var p := ParseVariant(ts).value; ts == [Identifier(p.value)] + after && Separator(after) == Ok(p.rest)
  {
    after := ts[1..];
    Rejoin(ts);
  }

  lemma {:induction false} VariantsSpelled(ts: seq<Token>) returns (finalComma: bool)
    requires ParseVariants(ts).Ok?
    ensures var p := ParseVariants(ts).value;
            p.rest != [] && p.rest[0] == RBrace && ts == VariantsThen(p.value, finalComma, p.rest)
    decreases |ts|
  {
    finalComma := false;
    if !(ts != [] && ts[0] == RBrace) {
      var p := ParseVariants(ts).value;
      var variant := ParseVariant(ts).value;
      var after := VariantSpelled(ts);
      SeparatorSpelled(after);
      var final := VariantsSpelled(variant.rest);
      var more := ParseVariants(variant.rest).value;
      assert p.value[0] == variant.value && p.value[1..] == more.value;
      if after == [Comma] + variant.rest {
        finalComma := if more.value == [] then true else final;
        assert more.value == [] ==> VariantsThen(more.value, true, p.rest) == variant.rest;
      }
    }
  }

  lemma HeaderSpelled(ts: seq<Token>)
    requires ParseHeader(ts).Ok?
    ensures var p := ParseHeader(ts).value; ts == [Identifier(p.value)] + ([LBrace] + p.rest)
  {
    Rejoin(ts);
    Rejoin(ts[1..]);
  }

  lemma DeclarationSpelled(ts: seq<Token>, prefix: Option<string>) returns (finalComma: bool)
    requires ParseDeclaration(ts, prefix).Ok?
    ensures var p := ParseDeclaration(ts, prefix).value;
            && CanonicalNode(p.value) && (p.value.Type? ==> p.value.typeDef.prefix == prefix)
            && ts == DeclarationThen(p.value, finalComma, p.rest)
  {
    Rejoin(ts);
    HeaderSpelled(ts[1..]);
    var header := ParseHeader(ts[1..]).value;
    if ts[0] == Keyword("type") {
      finalComma := FieldsSpelled(header.rest);
      Rejoin(ParseFields(header.rest).value.rest);
    } else {
      finalComma := VariantsSpelled(header.rest);
      Rejoin(ParseVariants(header.rest).value.rest);
    }
  }

  lemma PrefixSpelled(ts: seq<Token>)
    requires ParsePrefix(ts).Ok?
    ensures var p := ParsePrefix(ts).value; ts == PrefixTokens(p.value, p.rest)
  {
    if ts != [] && ts[0] == AtPrefix {
      Rejoin(ts);
      Rejoin(ts[1..]);
      Rejoin(ts[2..]);
      Rejoin(ts[3..]);
    }
  }

  lemma NodeSpelled(ts: seq<Token>) returns (style: Style)
    requires ParseNode(ts).Ok?
    ensures var p := ParseNode(ts).value; CanonicalNode(p.value) && ts == NodeThen(p.value, style, p.rest)
  {
    PrefixSpelled(ts);
    var prefix := ParsePrefix(ts).value;
    var finalComma := DeclarationSpelled(prefix.rest, prefix.value);
    style := Style(finalComma, prefix.value);
  }

  lemma {:induction false} NodesSpelled(ts: seq<Token>) returns (styles: seq<Style>)
    requires ParseNodes(ts).Ok?
    ensures var ns := ParseNodes(ts).value;
            CanonicalSchema(ns) && |styles| == |ns| && ts == Spelled(ns, styles)
    decreases |ts|
  {
    styles := [];
    if ts != [] {
      var style := NodeSpelled(ts);
      var node := ParseNode(ts).value;
      var more := NodesSpelled(node.rest);
      styles := [style] + more;
      var ns := ParseNodes(ts).value;
      assert ns[0] == node.value && ns[1..] == ParseNodes(node.rest).value;
      assert styles[1..] == more;
    }
  }

  // --- Main theorems ---------------------------------------------------------------------------------------

  ghost predicate Spells(ts: seq<Token>, ns: seq<SchemaNode>) {
    exists styles :: |styles| == |ns| && ts == Spelled(ns, styles)
  }

  /** The parser returns a list of declarations if and only if the tokens spell it in some style. */
  lemma GrammarExact(ts: seq<Token>, ns: seq<SchemaNode>)
    ensures ParseNodes(ts) == Ok(ns) <==> CanonicalSchema(ns) && Spells(ts, ns)
  {
    if ParseNodes(ts) == Ok(ns) {
      var styles := NodesSpelled(ts);
      assert Spells(ts, ns);
    }
    if CanonicalSchema(ns) && Spells(ts, ns) {
      var styles :| |styles| == |ns| && ts == Spelled(ns, styles);
      Accepted(ns, styles);
    }
  }

  /** So it is for texts. */
  lemma AcceptedTexts(text: string, ns: seq<SchemaNode>)
    ensures ParseText(text) == Ok(ns) <==> CanonicalSchema(ns) && Spells(Tokens(text), ns)
  {
    GrammarExact(Tokens(text), ns);
  }

  // --- Texts in every style ----------------------------------------------------------------------------------

  ghost predicate AllLexical(ts: seq<Token>) {
    forall t <- ts :: Lexical(t)
  }

  lemma ConsLexical(t: Token, rest: seq<Token>)
    requires Lexical(t) && AllLexical(rest)
    ensures AllLexical([t] + rest)
  {
  }

  lemma FieldThenLexical(f: FieldDefinition, rest: seq<Token>)
    requires WfField(f) && AllLexical(rest)
    ensures AllLexical(FieldThen(f, rest))
  {
    TypeTokensLexical(f.dataType, rest);
    ConsLexical(Colon, TypeTokens(f.dataType, rest));
    ConsLexical(Identifier(f.name), [Colon] + TypeTokens(f.dataType, rest));
  }

  lemma {:induction false} FieldsThenLexical(fs: seq<FieldDefinition>, finalComma: bool, rest: seq<Token>)
    requires (forall f <- fs :: WfField(f)) && AllLexical(rest)
    ensures AllLexical(FieldsThen(fs, finalComma, rest))
  {
    if fs != [] {
      assert fs[0] in fs;
      if |fs| == 1 && !finalComma {
        FieldThenLexical(fs[0], rest);
      } else {
        FieldsThenLexical(fs[1..], finalComma, rest);
        ConsLexical(Comma, FieldsThen(fs[1..], finalComma, rest));
        FieldThenLexical(fs[0], [Comma] + FieldsThen(fs[1..], finalComma, rest));
      }
    }
  }

  lemma {:induction false} VariantsThenLexical(vs: seq<string>, finalComma: bool, rest: seq<Token>)
    requires (forall v <- vs :: IsName(v)) && AllLexical(rest)
    ensures AllLexical(VariantsThen(vs, finalComma, rest))
  {
    if vs != [] {
      assert vs[0] in vs;
      if |vs| > 1 || finalComma {
        VariantsThenLexical(vs[1..], finalComma, rest);
        ConsLexical(Comma, VariantsThen(vs[1..], finalComma, rest));
        ConsLexical(Identifier(vs[0]), [Comma] + VariantsThen(vs[1..], finalComma, rest));
      }
    }
  }

  lemma NodeThenLexical(n: SchemaNode, style: Style, rest: seq<Token>)
    requires WfNode(n) && AllLexical(rest) && (style.ignoredPrefix.Some? ==> IsQuotable(style.ignoredPrefix.value))
    ensures AllLexical(NodeThen(n, style, rest))
  {
    if n.Type? {
      FieldsThenLexical(n.typeDef.fields, style.finalComma, [RBrace] + rest);
    } else {
      VariantsThenLexical(n.enumDef.variants, style.finalComma, [RBrace] + rest);
    }
    assert AllLexical(DeclarationThen(n, style.finalComma, rest));
  }

  lemma {:induction false} SpelledLexical(ns: seq<SchemaNode>, styles: seq<Style>)
    requires WfSchema(ns) && |styles| == |ns|
    requires forall s <- styles :: s.ignoredPrefix.Some? ==> IsQuotable(s.ignoredPrefix.value)
    ensures AllLexical(Spelled(ns, styles))
  {
    if ns != [] {
      assert ns[0] in ns && styles[0] in styles;
      SpelledLexical(ns[1..], styles[1..]);
      NodeThenLexical(ns[0], styles[0], Spelled(ns[1..], styles[1..]));
    }
  }

  lemma {:induction false} WfIsCanonical(t: DataType)
    requires WfType(t)
    ensures Canonical(t)
  {
    if t.Array? {
      WfIsCanonical(t.element);
    }
  }

  lemma WfSchemaCanonical(ns: seq<SchemaNode>)
    requires WfSchema(ns)
    ensures CanonicalSchema(ns)
  {
    forall n <- ns | n.Type? ensures forall f <- n.typeDef.fields :: Canonical(f.dataType) {
      forall f <- n.typeDef.fields ensures Canonical(f.dataType) { WfIsCanonical(f.dataType); }
    }
  }

  /** The round trip in every style: with a final comma or without, chosen for each declaration,
      and whatever prefix stands before an enum. */
  lemma StyledRoundTrip(ns: seq<SchemaNode>, styles: seq<Style>)
    requires WfSchema(ns) && |styles| == |ns|
    requires forall s <- styles :: s.ignoredPrefix.Some? ==> IsQuotable(s.ignoredPrefix.value)
    ensures ParseText(Render(Spelled(ns, styles))) == Ok(ns)
  {
    SpelledLexical(ns, styles);
    LexRendered(Spelled(ns, styles));
    WfSchemaCanonical(ns);
    Accepted(ns, styles);
  }
}
