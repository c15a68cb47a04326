/**
 The KSL parser.  The functions read a sequence of tokens; the class pulls them one at a
 time from the lexer and computes the same results.
 */
module Parser {
  import opened Prelude
  import opened Ast
  import opened Lexer

  datatype SyntaxError =
    | ExpectedIdentifier
    | ExpectedToken(token: Token)
    | ExpectedStringLiteral
    | ExpectedCommaOrBrace
    | ExpectedTypeOrEnum

  /** A parsed piece and the tokens after it. */
  datatype Parsed<T> = Parsed(value: T, rest: seq<Token>)

  type ParseResult<T> = Result<Parsed<T>, SyntaxError>

  function ExpectIdentifier(ts: seq<Token>): (r: ParseResult<string>)
    ensures r.Ok? ==> |r.value.rest| < |ts|
  {
    if ts != [] && ts[0].Identifier? then Ok(Parsed(ts[0].name, ts[1..])) else Err(ExpectedIdentifier)
  }

  function MatchToken(ts: seq<Token>, t: Token): (r: ParseResult<()>)
    ensures r.Ok? ==> |r.value.rest| < |ts|
  {
    if ts != [] && ts[0] == t then Ok(Parsed((), ts[1..])) else Err(ExpectedToken(t))
  }

  function NamedType(name: string): DataType {
    if name == "String" then String
    else if name == "U16" then U16
    else if name == "U32" then U32
    else if name == "U64" then U64
    else if name == "I32" then I32
    else if name == "I64" then I64
    else if name == "F64" then F64
    else if name == "Boolean" then Boolean
    else Custom(name)
  }

  function ParseDataType(ts: seq<Token>): (r: ParseResult<DataType>)
    ensures r.Ok? ==> |r.value.rest| < |ts|
    decreases |ts|
  {
    if ts != [] && ts[0] == LBracket then
      var inner :- ParseDataType(ts[1..]);
      var close :- MatchToken(inner.rest, RBracket);
      Ok(Parsed(Array(inner.value), close.rest))
    else
      var name :- ExpectIdentifier(ts);
      Ok(Parsed(NamedType(name.value), name.rest))
  }

  /** After a list element: a comma is consumed, a closing brace is left in place. */
  function Separator(ts: seq<Token>): (r: Result<seq<Token>, SyntaxError>)
    ensures r.Ok? ==> |r.value| <= |ts|
  {
    if ts != [] && ts[0] == Comma then Ok(ts[1..])
    else if ts != [] && ts[0] == RBrace then Ok(ts)
    else Err(ExpectedCommaOrBrace)
  }

  function ParseFieldBody(ts: seq<Token>, isIndexed: bool): (r: ParseResult<FieldDefinition>)
    ensures r.Ok? ==> |r.value.rest| < |ts|
  {
    var name :- ExpectIdentifier(ts);
    var colon :- MatchToken(name.rest, Colon);
    var dataType :- ParseDataType(colon.rest);
    var rest :- Separator(dataType.rest);
    Ok(Parsed(FieldDefinition(name.value, dataType.value, isIndexed), rest))
  }

  function ParseField(ts: seq<Token>): (r: ParseResult<FieldDefinition>)
    ensures r.Ok? ==> |r.value.rest| < |ts|
  {
    if ts != [] && ts[0] == AtIndexed then ParseFieldBody(ts[1..], true) else ParseFieldBody(ts, false)
  }

  function ParseVariant(ts: seq<Token>): (r: ParseResult<string>)
    ensures r.Ok? ==> |r.value.rest| < |ts|
  {
    var name :- ExpectIdentifier(ts);
    var rest :- Separator(name.rest);
    Ok(Parsed(name.value, rest))
  }

  function ParseFields(ts: seq<Token>): (r: ParseResult<seq<FieldDefinition>>)
    ensures r.Ok? ==> |r.value.rest| <= |ts|
    decreases |ts|
  {
    if ts != [] && ts[0] == RBrace then Ok(Parsed([], ts))
    else
      var field :- ParseField(ts);
      var more :- ParseFields(field.rest);
      Ok(Parsed([field.value] + more.value, more.rest))
  }

  function ParseVariants(ts: seq<Token>): (r: ParseResult<seq<string>>)
    ensures r.Ok? ==> |r.value.rest| <= |ts|
    decreases |ts|
  {
    if ts != [] && ts[0] == RBrace then Ok(Parsed([], ts))
    else
      var variant :- ParseVariant(ts);
      var more :- ParseVariants(variant.rest);
      Ok(Parsed([variant.value] + more.value, more.rest))
  }

  function ParsePrefix(ts: seq<Token>): (r: ParseResult<Option<string>>)
    ensures r.Ok? ==> |r.value.rest| <= |ts|
  {
    if ts != [] && ts[0] == AtPrefix then
      var open :- MatchToken(ts[1..], LParen);
      if open.rest != [] && open.rest[0].StringLiteral? then
        var close :- MatchToken(open.rest[1..], RParen);
        Ok(Parsed(Some(open.rest[0].text), close.rest))
      else Err(ExpectedStringLiteral)
    else Ok(Parsed(None, ts))
  }

  /** The name and the opening brace that follow `type` or `enum`. */
  function ParseHeader(ts: seq<Token>): (r: ParseResult<string>)
    ensures r.Ok? ==> |r.value.rest| < |ts|
  {
    var name :- ExpectIdentifier(ts);
    var open :- MatchToken(name.rest, LBrace);
    Ok(Parsed(name.value, open.rest))
  }

  function ParseType(ts: seq<Token>, prefix: Option<string>): (r: ParseResult<SchemaNode>)
    ensures r.Ok? ==> |r.value.rest| < |ts|
  {
    var header :- ParseHeader(ts);
    var fields :- ParseFields(header.rest);
    var close :- MatchToken(fields.rest, RBrace);
    Ok(Parsed(Type(TypeDefinition(header.value, fields.value, prefix)), close.rest))
  }

  function ParseEnum(ts: seq<Token>): (r: ParseResult<SchemaNode>)
    ensures r.Ok? ==> |r.value.rest| < |ts|
  {
    var header :- ParseHeader(ts);
    var variants :- ParseVariants(header.rest);
    var close :- MatchToken(variants.rest, RBrace);
    Ok(Parsed(Enum(EnumDefinition(header.value, variants.value)), close.rest))
  }

  function ParseDeclaration(ts: seq<Token>, prefix: Option<string>): (r: ParseResult<SchemaNode>)
    ensures r.Ok? ==> |r.value.rest| < |ts|
  {
    if ts != [] && ts[0] == Keyword("type") then ParseType(ts[1..], prefix)
    else if ts != [] && ts[0] == Keyword("enum") then ParseEnum(ts[1..])
    else Err(ExpectedTypeOrEnum)
  }

  /** A prefix is accepted before an enum too, and then dropped. */
  function ParseNode(ts: seq<Token>): (r: ParseResult<SchemaNode>)
    ensures r.Ok? ==> |r.value.rest| < |ts|
  {
    var prefix :- ParsePrefix(ts);
    ParseDeclaration(prefix.rest, prefix.value)
  }

  function ParseNodes(ts: seq<Token>): Result<seq<SchemaNode>, SyntaxError>
    decreases |ts|
  {
    if ts == [] then Ok([])
    else
      var node :- ParseNode(ts);
      var more :- ParseNodes(node.rest);
      Ok([node.value] + more)
  }

  function ParseText(text: string): Result<seq<SchemaNode>, SyntaxError> {
    ParseNodes(Tokens(text))
  }

  // --- The loops accumulate what the recursive functions return ---------------------------

  function Prepend<T>(acc: seq<T>, r: ParseResult<seq<T>>): ParseResult<seq<T>> {
    if r.Ok? then Ok(Parsed(acc + r.value.value, r.value.rest)) else r
  }

  lemma PrependNothing<T>(r: ParseResult<seq<T>>)
    ensures Prepend([], r) == r
  {
    if r.Ok? {
      assert [] + r.value.value == r.value.value;
    }
  }

  lemma PrependOne<T>(acc: seq<T>, x: T, r: ParseResult<seq<T>>)
    ensures Prepend(acc, Prepend([x], r)) == Prepend(acc + [x], r)
  {
    if r.Ok? {
      assert acc + ([x] + r.value.value) == acc + [x] + r.value.value;
    }
  }

  class Parser {
    const lexer: Lexer
    var current: Option<Token>

    /** The tokens not yet consumed, the current one first. */
    ghost var remaining: seq<Token>

    ghost predicate Valid()
      reads this, lexer
    {
      && lexer.Valid()
      && current == (if remaining == [] then None else Some(remaining[0]))
      && Tokens(lexer.input[lexer.pos..]) == if remaining == [] then [] else remaining[1..]
    }

    constructor (input: string)
      ensures Valid() && fresh(lexer) && remaining == Tokens(input)
    {
      var l := new Lexer(input);
      assert l.input[l.pos..] == input;
      var token := l.NextToken();
      lexer := l;
      current := token;
      remaining := Tokens(input);
    }

    method Advance()
      requires Valid() && current.Some?
      modifies this, lexer
      ensures Valid() && remaining == old(remaining)[1..]
    {
      current := lexer.NextToken();
      remaining := remaining[1..];
    }

    method ExpectIdentifierHere() returns (r: Result<string, SyntaxError>)
      requires Valid()
      modifies this, lexer
      ensures Valid()
      ensures var e := ExpectIdentifier(old(remaining));
              if e.Ok? then r == Ok(e.value.value) && remaining == e.value.rest else r == Err(e.error)
    {
      if current.Some? && current.value.Identifier? {
        var name := current.value.name;
        Advance();
        return Ok(name);
      }
      return Err(ExpectedIdentifier);
    }

    method MatchTokenHere(expected: Token) returns (r: Result<(), SyntaxError>)
      requires Valid()
      modifies this, lexer
      ensures Valid()
      ensures var e := MatchToken(old(remaining), expected);
              if e.Ok? then r == Ok(()) && remaining == e.value.rest else r == Err(e.error)
    {
      if current == Some(expected) {
        Advance();
        return Ok(());
      }
      return Err(ExpectedToken(expected));
    }

    method ParseDataTypeHere() returns (r: Result<DataType, SyntaxError>)
      requires Valid()
      modifies this, lexer
      ensures Valid()
      ensures var e := ParseDataType(old(remaining));
              if e.Ok? then r == Ok(e.value.value) && remaining == e.value.rest else r == Err(e.error)
      decreases |remaining|
    {
      if current == Some(LBracket) {
        Advance();
        var inner :- ParseDataTypeHere();
        var _ :- MatchTokenHere(RBracket);
        return Ok(Array(inner));
      }
      var name :- ExpectIdentifierHere();
      return Ok(NamedType(name));
    }

    method SeparatorHere() returns (r: Result<(), SyntaxError>)
      requires Valid()
      modifies this, lexer
      ensures Valid()
      ensures var e := Separator(old(remaining));
              if e.Ok? then r == Ok(()) && remaining == e.value else r == Err(e.error)
    {
      if current == Some(Comma) {
        Advance();
      } else if current != Some(RBrace) {
        return Err(ExpectedCommaOrBrace);
      }
      return Ok(());
    }

    method ParseFieldBodyHere(isIndexed: bool) returns (r: Result<FieldDefinition, SyntaxError>)
      requires Valid()
      modifies this, lexer
      ensures Valid()
      ensures var e := ParseFieldBody(old(remaining), isIndexed);
              if e.Ok? then r == Ok(e.value.value) && remaining == e.value.rest else r == Err(e.error)
    {
      var name :- ExpectIdentifierHere();
      var _ :- MatchTokenHere(Colon);
      var dataType :- ParseDataTypeHere();
      var _ :- SeparatorHere();
      return Ok(FieldDefinition(name, dataType, isIndexed));
    }

    method ParseFieldHere() returns (r: Result<FieldDefinition, SyntaxError>)
      requires Valid()
      modifies this, lexer
      ensures Valid()
      ensures var e := ParseField(old(remaining));
              if e.Ok? then r == Ok(e.value.value) && remaining == e.value.rest else r == Err(e.error)
    {
      var isIndexed := false;
      if current == Some(AtIndexed) {
        isIndexed := true;
        Advance();
      }
      r := ParseFieldBodyHere(isIndexed);
    }

    /** The loop over the fields of a type, up to its closing brace. */
    method ParseFieldsHere() returns (r: Result<seq<FieldDefinition>, SyntaxError>)
      requires Valid()
      modifies this, lexer
      ensures Valid()
      ensures var e := ParseFields(old(remaining));
              if e.Ok? then r == Ok(e.value.value) && remaining == e.value.rest else r == Err(e.error)
    {
      var fields := [];
      PrependNothing(ParseFields(remaining));
      while current != Some(RBrace)
        invariant Valid()
        invariant ParseFields(old(remaining)) == Prepend(fields, ParseFields(remaining))
        decreases |remaining|
      {
        ghost var ts := remaining;
        var field :- ParseFieldHere();
        assert ParseFields(ts) == Prepend([field], ParseFields(remaining));
        PrependOne(fields, field, ParseFields(remaining));
        fields := fields + [field];
      }
      assert fields + [] == fields;
      return Ok(fields);
    }

    method ParseVariantHere() returns (r: Result<string, SyntaxError>)
      requires Valid()
      modifies this, lexer
      ensures Valid()
      ensures var e := ParseVariant(old(remaining));
              if e.Ok? then r == Ok(e.value.value) && remaining == e.value.rest else r == Err(e.error)
    {
      var variant :- ExpectIdentifierHere();
      var _ :- SeparatorHere();
      return Ok(variant);
    }

    /** The loop over the variants of an enum, up to its closing brace. */
    method ParseVariantsHere() returns (r: Result<seq<string>, SyntaxError>)
      requires Valid()
      modifies this, lexer
      ensures Valid()
      ensures var e := ParseVariants(old(remaining));
              if e.Ok? then r == Ok(e.value.value) && remaining == e.value.rest else r == Err(e.error)
    {
      var variants := [];
      PrependNothing(ParseVariants(remaining));
      while current != Some(RBrace)
        invariant Valid()
        invariant ParseVariants(old(remaining)) == Prepend(variants, ParseVariants(remaining))
        decreases |remaining|
      {
        ghost var ts := remaining;
        var variant :- ParseVariantHere();
        assert ParseVariants(ts) == Prepend([variant], ParseVariants(remaining));
        PrependOne(variants, variant, ParseVariants(remaining));
        variants := variants + [variant];
      }
      assert variants + [] == variants;
      return Ok(variants);
    }

    method ParsePrefixHere() returns (r: Result<Option<string>, SyntaxError>)
      requires Valid()
      modifies this, lexer
      ensures Valid()
      ensures var e := ParsePrefix(old(remaining));
              if e.Ok? then r == Ok(e.value.value) && remaining == e.value.rest else r == Err(e.error)
    {
      if current == Some(AtPrefix) {
        Advance();
        var _ :- MatchTokenHere(LParen);
        if current.Some? && current.value.StringLiteral? {
          var prefix := current.value.text;
          Advance();
          var _ :- MatchTokenHere(RParen);
          return Ok(Some(prefix));
        }
        return Err(ExpectedStringLiteral);
      }
      return Ok(None);
    }

    method ParseHeaderHere() returns (r: Result<string, SyntaxError>)
      requires Valid()
      modifies this, lexer
      ensures Valid()
      ensures var e := ParseHeader(old(remaining));
              if e.Ok? then r == Ok(e.value.value) && remaining == e.value.rest else r == Err(e.error)
    {
      var name :- ExpectIdentifierHere();
      var _ :- MatchTokenHere(LBrace);
      return Ok(name);
    }

    method ParseTypeHere(prefix: Option<string>) returns (r: Result<SchemaNode, SyntaxError>)
      requires Valid()
      modifies this, lexer
      ensures Valid()
      ensures var e := ParseType(old(remaining), prefix);
              if e.Ok? then r == Ok(e.value.value) && remaining == e.value.rest else r == Err(e.error)
    {
      var name :- ParseHeaderHere();
      var fields :- ParseFieldsHere();
      var _ :- MatchTokenHere(RBrace);
      return Ok(Type(TypeDefinition(name, fields, prefix)));
    }

    method ParseEnumHere() returns (r: Result<SchemaNode, SyntaxError>)
      requires Valid()
      modifies this, lexer
      ensures Valid()
      ensures var e := ParseEnum(old(remaining));
              if e.Ok? then r == Ok(e.value.value) && remaining == e.value.rest else r == Err(e.error)
    {
      var name :- ParseHeaderHere();
      var variants :- ParseVariantsHere();
      var _ :- MatchTokenHere(RBrace);
      return Ok(Enum(EnumDefinition(name, variants)));
    }

    method ParseDeclarationHere(prefix: Option<string>) returns (r: Result<SchemaNode, SyntaxError>)
      requires Valid()
      modifies this, lexer
      ensures Valid()
      ensures var e := ParseDeclaration(old(remaining), prefix);
              if e.Ok? then r == Ok(e.value.value) && remaining == e.value.rest else r == Err(e.error)
    {
      if current == Some(Keyword("type")) {
        Advance();
        r := ParseTypeHere(prefix);
      } else if current == Some(Keyword("enum")) {
        Advance();
        r := ParseEnumHere();
      } else {
        r := Err(ExpectedTypeOrEnum);
      }
    }

    method ParseNodeHere() returns (r: Result<SchemaNode, SyntaxError>)
      requires Valid()
      modifies this, lexer
      ensures Valid()
      ensures var e := ParseNode(old(remaining));
              if e.Ok? then r == Ok(e.value.value) && remaining == e.value.rest else r == Err(e.error)
    {
      var prefix :- ParsePrefixHere();
      r := ParseDeclarationHere(prefix);
    }

    /** Parses the whole text. */
    method Parse() returns (r: Result<seq<SchemaNode>, SyntaxError>)
      requires Valid()
      modifies this, lexer
      ensures r == ParseNodes(old(remaining))
    {
      var nodes := [];
      ghost var whole := ParseNodes(remaining);
      assert whole.Ok? ==> [] + whole.value == whole.value;
      while current.Some?
        invariant Valid()
        invariant var now := ParseNodes(remaining);
                  if whole.Ok? then now.Ok? && whole.value == nodes + now.value else now == whole
        decreases |remaining|
      {
        ghost var before := ParseNodes(remaining);
        var node :- ParseNodeHere();
        ghost var after := ParseNodes(remaining);
        assert before == if after.Ok? then Ok([node] + after.value) else after;
        assert after.Ok? ==> nodes + ([node] + after.value) == (nodes + [node]) + after.value;
        nodes := nodes + [node];
      }
      assert nodes + [] == nodes;
      return Ok(nodes);
    }
  }
}
