/**
 * The first TreeLDR parser, over the tokens of its lexer (`LegacyLexing`),
 * where a brace block arrives as one token holding the tokens inside it.
 * A document is a sequence of items: a type with its properties, or a
 * layout for a type with its fields, each preceded by doc comments. The
 * properties and fields themselves are read by parsers given as
 * parameters.
 */
module LegacyParsing {
  import opened Wrappers
  import Lexing
  import opened LegacyLexing
  import opened Parsing

  /** The kinds an error says were expected. */
  datatype TokenKind = BlockKind | PunctKind(punct: Punct) | KeywordKind(keyword: Keyword) | IdKind

  type Error = ParseError<Token, TokenKind>

  /** `Id::parse`: an identifier token, and nothing else (keywords included). */
  function ParseId(s: seq<Token>): (r: Result<(Id, seq<Token>), Error>)
    ensures r.Success? <==> s != [] && s[0].IdToken?
    ensures r.Success? ==> r.value == (s[0].id, s[1..])
    ensures r.Failure? ==> r.error == ParseError.Unexpected(if s == [] then None else Some(s[0]), [IdKind])
  {
    if s == [] then Failure(ParseError.Unexpected(None, [IdKind]))
    else
      match s[0]
      case IdToken(id) => Success((id, s[1..]))
      case _ => Failure(ParseError.Unexpected(Some(s[0]), [IdKind]))
  }

  /** `parse_keyword`: exactly the given keyword. */
  function ParseKeyword(s: seq<Token>, keyword: Keyword): Result<seq<Token>, Error> {
    ExpectToken(s, KeywordToken(keyword), KeywordKind(keyword))
  }

  /** `Alias`: a name only. */
  function ParseAlias(s: seq<Token>): (r: Result<(string, seq<Token>), Error>)
    ensures r.Success? <==> s != [] && s[0].IdToken? && s[0].id.Name?
    ensures r.Success? ==> r.value == (s[0].id.name, s[1..])
    ensures s != [] && s[0].IdToken? && !s[0].id.Name? ==> r == Failure(InvalidAlias(s[0].id))
    ensures s != [] && !s[0].IdToken? ==> r == Failure(ParseError.Unexpected(Some(s[0]), [IdKind]))
  {
    if s == [] then Failure(ParseError.Unexpected(None, [IdKind]))
    else
      match s[0]
      case IdToken(Name(a)) => Success((a, s[1..]))
      case IdToken(id) => Failure(InvalidAlias(id))
      case _ => Failure(ParseError.Unexpected(Some(s[0]), [IdKind]))
  }

  predicate IsComma(t: Token) {
    t == PunctToken(Comma)
  }

  /**
   * `parse_block`: a brace block token, whose inner tokens are read as a
   * strict comma list of items.
   */
  function ParseBlock<I(!new)>(p: Parser<Token, I, TokenKind>, s: seq<Token>): (r: Result<(seq<I>, seq<Token>), Error>)
    requires Consumes(p)
  {
    if s == [] then Failure(ParseError.Unexpected(None, [BlockKind]))
    else
      match s[0]
      case Block(d, inner) =>
        if d != Lexing.Brace then Failure(ParseError.Unexpected(Some(s[0]), [BlockKind]))
        else
          (match StrictCommaList(p, IsComma, PunctKind(Comma), inner)
           case Failure(e) => Failure(e)
           case Success(xs) => Success((xs, s[1..])))
      case _ => Failure(ParseError.Unexpected(Some(s[0]), [BlockKind]))
  }

  /** The doc comments as tokens. */
  function DocTokens(doc: seq<string>): (r: seq<Token>)
    ensures |r| == |doc| && forall k :: 0 <= k < |r| ==> r[k] == Doc(doc[k])
  {
    if doc == [] then [] else [Doc(doc[0])] + DocTokens(doc[1..])
  }

  /** `Documentation::parse`: the doc comments up to the first other token. */
  function ParseDocumentation(s: seq<Token>): (r: (seq<string>, seq<Token>))
    ensures s == DocTokens(r.0) + r.1
    ensures r.1 == [] || !r.1[0].Doc?
  {
    if s != [] && s[0].Doc? then
      var (doc, rest) := ParseDocumentation(s[1..]);
      assert s == [s[0]] + s[1..];
      ([s[0].doc] + doc, rest)
    else ([], s)
  }

  datatype Item<P, F> =
    | TypeDefinition(doc: seq<string>, id: Id, properties: seq<P>)
    | LayoutDefinition(doc: seq<string>, id: Id, tyId: Id, fields: seq<F>)

  const ItemFirst: seq<TokenKind> := [KeywordKind(Type), KeywordKind(Layout)]

  /** What follows `type`: the identifier and the block of properties. */
  function ParseTypeRest<P(!new), F>(property: Parser<Token, P, TokenKind>, doc: seq<string>, s: seq<Token>): Result<(Item<P, F>, seq<Token>), Error>
    requires Consumes(property)
  {
    match ParseId(s)
    case Failure(e) => Failure(e)
    case Success((id, s1)) =>
      match ParseBlock(property, s1)
      case Failure(e) => Failure(e)
      case Success((properties, s2)) => Success((TypeDefinition(doc, id, properties), s2))
  }

  /** What follows `layout`: the identifier, `for`, the type's identifier and the block of fields. */
  function ParseLayoutRest<P, F(!new)>(field: Parser<Token, F, TokenKind>, doc: seq<string>, s: seq<Token>): Result<(Item<P, F>, seq<Token>), Error>
    requires Consumes(field)
  {
    match ParseId(s)
    case Failure(e) => Failure(e)
    case Success((id, s1)) =>
      match ParseKeyword(s1, For)
      case Failure(e) => Failure(e)
      case Success(s2) =>
        match ParseId(s2)
        case Failure(e) => Failure(e)
        case Success((tyId, s3)) =>
          match ParseBlock(field, s3)
          case Failure(e) => Failure(e)
          case Success((fields, s4)) => Success((LayoutDefinition(doc, id, tyId, fields), s4))
  }

  /**
   * `Item::parse`: doc comments, then `type` with an identifier and a
   * block of properties, or `layout` with an identifier, `for`, the type's
   * identifier and a block of fields.
   */
  function ParseItem<P(!new), F(!new)>(property: Parser<Token, P, TokenKind>, field: Parser<Token, F, TokenKind>,
                                       s: seq<Token>): Result<(Item<P, F>, seq<Token>), Error>
    requires Consumes(property) && Consumes(field)
  {
    var (doc, s1) := ParseDocumentation(s);
    if s1 == [] then Failure(ParseError.Unexpected(None, ItemFirst))
    else if s1[0] == KeywordToken(Type) then ParseTypeRest(property, doc, s1[1..])
    else if s1[0] == KeywordToken(Layout) then ParseLayoutRest(field, doc, s1[1..])
    else Failure(ParseError.Unexpected(Some(s1[0]), ItemFirst))
  }

  /** Prints an item as the tokens it was read from, with commas between the block's entries. */
  function PrintItem<P(!new), F(!new)>(renderProperty: P -> seq<Token>, renderField: F -> seq<Token>, item: Item<P, F>): seq<Token> {
    match item
    case TypeDefinition(doc, id, properties) =>
      DocTokens(doc) + [KeywordToken(Type), IdToken(id), Block(Lexing.Brace, PrintList(renderProperty, PunctToken(Comma), properties))]
    case LayoutDefinition(doc, id, tyId, fields) =>
      DocTokens(doc) + [KeywordToken(Layout), IdToken(id), KeywordToken(For), IdToken(tyId),
                        Block(Lexing.Brace, PrintList(renderField, PunctToken(Comma), fields))]
  }

  /** Reading the doc comments of printed doc comments gives them back. */
  lemma {:induction false} DocumentationRoundTrip(doc: seq<string>, rest: seq<Token>)
    requires rest == [] || !rest[0].Doc?
    ensures ParseDocumentation(DocTokens(doc) + rest) == (doc, rest)
  {
    if doc != [] {
      DocumentationRoundTrip(doc[1..], rest);
      var s := DocTokens(doc) + rest;
      assert s[1..] == DocTokens(doc[1..]) + rest;
      assert [doc[0]] + doc[1..] == doc;
    } else {
      assert DocTokens(doc) + rest == rest;
    }
  }

  lemma BlockRoundTrip<I(!new)>(p: Parser<Token, I, TokenKind>, render: I -> seq<Token>, starts: Token -> bool,
                                xs: seq<I>, rest: seq<Token>)
    requires Consumes(p) && Inverts(p, render, starts)
    ensures ParseBlock(p, [Block(Lexing.Brace, PrintList(render, PunctToken(Comma), xs))] + rest) == Success((xs, rest))
  {
    StrictCommaListRoundTrip(p, render, starts, IsComma, PunctToken(Comma), PunctKind(Comma), xs);
    assert ([Block(Lexing.Brace, PrintList(render, PunctToken(Comma), xs))] + rest)[1..] == rest;
  }

  lemma TypeRoundTrip<P(!new), F(!new)>(property: Parser<Token, P, TokenKind>, renderProperty: P -> seq<Token>, startsProperty: Token -> bool,
                                        field: Parser<Token, F, TokenKind>, renderField: F -> seq<Token>,
                                        doc: seq<string>, id: Id, properties: seq<P>, rest: seq<Token>)
    requires Consumes(property) && Inverts(property, renderProperty, startsProperty) && Consumes(field)
    ensures var item := TypeDefinition(doc, id, properties);
            ParseItem(property, field, PrintItem(renderProperty, renderField, item) + rest) == Success((item, rest))
  {
    var block := Block(Lexing.Brace, PrintList(renderProperty, PunctToken(Comma), properties));
    var body := [KeywordToken(Type), IdToken(id), block] + rest;
    assert PrintItem(renderProperty, renderField, TypeDefinition(doc, id, properties)) + rest == DocTokens(doc) + body;
    DocumentationRoundTrip(doc, body);
    assert body[1..] == [IdToken(id)] + ([block] + rest);
    BlockRoundTrip(property, renderProperty, startsProperty, properties, rest);
  }

  lemma LayoutRoundTrip<P(!new), F(!new)>(property: Parser<Token, P, TokenKind>, renderProperty: P -> seq<Token>,
                                          field: Parser<Token, F, TokenKind>, renderField: F -> seq<Token>, startsField: Token -> bool,
                                          doc: seq<string>, id: Id, tyId: Id, fields: seq<F>, rest: seq<Token>)
    requires Consumes(property) && Consumes(field) && Inverts(field, renderField, startsField)
    ensures var item := LayoutDefinition(doc, id, tyId, fields);
            ParseItem(property, field, PrintItem(renderProperty, renderField, item) + rest) == Success((item, rest))
  {
    var block := Block(Lexing.Brace, PrintList(renderField, PunctToken(Comma), fields));
    var s4 := [block] + rest;
    var s3 := [IdToken(tyId)] + s4;
    var s2 := [KeywordToken(For)] + s3;
    var body := [KeywordToken(Layout), IdToken(id)] + s2;
    assert PrintItem(renderProperty, renderField, LayoutDefinition(doc, id, tyId, fields)) + rest == DocTokens(doc) + body;
    DocumentationRoundTrip(doc, body);
    assert body[1..] == [IdToken(id)] + s2;
    assert ParseId(body[1..]) == Success((id, s2));
    assert ParseKeyword(s2, For) == Success(s3);
    assert ParseId(s3) == Success((tyId, s4));
    BlockRoundTrip(field, renderField, startsField, fields, rest);
  }

  /**
   * Every printed item reads back as itself, leaving what follows, given
   * property and field parsers that read back their own printing.
   */
  lemma ItemRoundTrip<P(!new), F(!new)>(property: Parser<Token, P, TokenKind>, renderProperty: P -> seq<Token>, startsProperty: Token -> bool,
                                        field: Parser<Token, F, TokenKind>, renderField: F -> seq<Token>, startsField: Token -> bool,
                                        item: Item<P, F>, rest: seq<Token>)
    requires Consumes(property) && Inverts(property, renderProperty, startsProperty)
    requires Consumes(field) && Inverts(field, renderField, startsField)
    ensures ParseItem(property, field, PrintItem(renderProperty, renderField, item) + rest) == Success((item, rest))
  {
    match item
    case TypeDefinition(doc, id, properties) =>
      TypeRoundTrip(property, renderProperty, startsProperty, field, renderField, doc, id, properties, rest);
    case LayoutDefinition(doc, id, tyId, fields) =>
      LayoutRoundTrip(property, renderProperty, field, renderField, startsField, doc, id, tyId, fields, rest);
  }

  /** Without a `type` or `layout` keyword after its doc comments, an item is an error naming the token found. */
  lemma ItemUnexpected<P(!new), F(!new)>(property: Parser<Token, P, TokenKind>, field: Parser<Token, F, TokenKind>,
                                         doc: seq<string>, t: Token, rest: seq<Token>)
    requires Consumes(property) && Consumes(field)
    requires !t.Doc? && t != KeywordToken(Type) && t != KeywordToken(Layout)
    ensures ParseItem(property, field, DocTokens(doc) + [t] + rest) == Failure(ParseError.Unexpected(Some(t), ItemFirst))
  {
    assert DocTokens(doc) + [t] + rest == DocTokens(doc) + ([t] + rest);
    DocumentationRoundTrip(doc, [t] + rest);
  }

  /** `Document::parse`: items until the end of the stream. */
  function ParseDocument<P(!new), F(!new)>(property: Parser<Token, P, TokenKind>, field: Parser<Token, F, TokenKind>,
                                           s: seq<Token>): Result<seq<Item<P, F>>, Error>
    requires Consumes(property) && Consumes(field)
    decreases |s|
  {
    if s == [] then Success([])
    else
      match ParseItem(property, field, s)
      case Failure(e) => Failure(e)
      case Success((item, rest)) =>
        if |rest| >= |s| then Failure(ParseError.Unexpected(Some(s[0]), ItemFirst))
        else
          match ParseDocument(property, field, rest)
          case Failure(e) => Failure(e)
          case Success(items) => Success([item] + items)
  }

  function PrintDocument<P(!new), F(!new)>(renderProperty: P -> seq<Token>, renderField: F -> seq<Token>, items: seq<Item<P, F>>): seq<Token> {
    if items == [] then [] else PrintItem(renderProperty, renderField, items[0]) + PrintDocument(renderProperty, renderField, items[1..])
  }

  /** A printed document reads back as its items. */
  lemma {:induction false} DocumentRoundTrip<P(!new), F(!new)>(property: Parser<Token, P, TokenKind>, renderProperty: P -> seq<Token>, startsProperty: Token -> bool,
                                                               field: Parser<Token, F, TokenKind>, renderField: F -> seq<Token>, startsField: Token -> bool,
                                                               items: seq<Item<P, F>>)
    requires Consumes(property) && Inverts(property, renderProperty, startsProperty)
    requires Consumes(field) && Inverts(field, renderField, startsField)
    ensures ParseDocument(property, field, PrintDocument(renderProperty, renderField, items)) == Success(items)
    decreases |items|
  {
    if items != [] {
      var tail := PrintDocument(renderProperty, renderField, items[1..]);
      ItemRoundTrip(property, renderProperty, startsProperty, field, renderField, startsField, items[0], tail);
      DocumentRoundTrip(property, renderProperty, startsProperty, field, renderField, startsField, items[1..]);
      assert |PrintItem(renderProperty, renderField, items[0])| > 0;
      assert [items[0]] + items[1..] == items;
    }
  }
}
