/**
 * The TreeLDR core crate's parser. Its lexer is not part of this model:
 * the tokens below are the ones the parser reads, shaped like the first
 * lexer's (a brace or parenthesis block is one token holding its inner
 * tokens) with an `import` keyword and an `&` mark added.
 *
 * A document is a sequence of items: an import of an IRI under a prefix,
 * a type with its properties, or a layout for a type with its fields. Type
 * and layout expressions are an identifier behind any number of `&`
 * (reference) marks, with annotations (`required`, `multiple`) before or
 * after them.
 */
module CoreParsing {
  import opened Wrappers
  import Lexing
  import opened Parsing

  datatype Keyword = Import | Type | Layout | As | For | Annotation(annotation: Lexing.Annotation)

  datatype Punct = Comma | Colon | Ampersand

  datatype Token =
    | Doc(doc: string)
    | PunctToken(punct: Punct)
    | Block(delimiter: Lexing.Delimiter, tokens: seq<Token>)
    | KeywordToken(keyword: Keyword)
    | IdToken(id: Lexing.Id)

  datatype TokenKind = BlockKind | PunctKind(punct: Punct) | KeywordKind(keyword: Keyword) | IdKind

  type Error = ParseError<Token, TokenKind>

  /** `Id::parse`: an identifier token only. */
  function ParseId(s: seq<Token>): (r: Result<(Lexing.Id, seq<Token>), Error>)
    ensures r.Success? <==> s != [] && s[0].IdToken?
    ensures r.Success? ==> r.value == (s[0].id, s[1..])
    ensures r.Failure? ==> r.error == ParseError.Unexpected(if s == [] then None else Some(s[0]), [IdKind])
  {
    if s == [] then Failure(ParseError.Unexpected(None, [IdKind]))
    else
      match s[0]
      case IdToken(id) => Success((id, s[1..]))
      case _ => Failure(ParseError.Unexpected(Some(s[0]), [IdKind]))
  }

  /** `parse_keyword`: exactly the given keyword. */
  function ParseKeyword(s: seq<Token>, keyword: Keyword): Result<seq<Token>, Error> {
    ExpectToken(s, KeywordToken(keyword), KeywordKind(keyword))
  }

  /**
   * The IRI of an import: an IRI reference that is an absolute IRI
   * (`isIri`); any other identifier is `InvalidImportId`.
   */
  function ParseImportIri(isIri: string -> bool, s: seq<Token>): (r: Result<(string, seq<Token>), Error>)
    ensures r.Success? <==> s != [] && s[0].IdToken? && s[0].id.IriRef? && isIri(s[0].id.iri)
    ensures r.Success? ==> r.value == (s[0].id.iri, s[1..])
    ensures s != [] && s[0].IdToken? && !(s[0].id.IriRef? && isIri(s[0].id.iri)) ==> r == Failure(InvalidImportId(s[0].id))
    ensures (s == [] || !s[0].IdToken?) ==> r.Failure? && r.error.Unexpected?
  {
    match ParseId(s)
    case Failure(e) => Failure(e)
    case Success((id, rest)) =>
      if id.IriRef? && isIri(id.iri) then Success((id.iri, rest)) else Failure(InvalidImportId(id))
  }

  /** `Prefix`: a name only. */
  function ParsePrefix(s: seq<Token>): (r: Result<(string, seq<Token>), Error>)
    ensures r.Success? <==> s != [] && s[0].IdToken? && s[0].id.Name?
    ensures r.Success? ==> r.value == (s[0].id.name, s[1..])
    ensures s != [] && s[0].IdToken? && !s[0].id.Name? ==> r == Failure(InvalidPrefix(s[0].id))
    ensures s != [] && !s[0].IdToken? ==> r == Failure(ParseError.Unexpected(Some(s[0]), [IdKind]))
  {
    if s == [] then Failure(ParseError.Unexpected(None, [IdKind]))
    else
      match s[0]
      case IdToken(id) => if id.Name? then Success((id.name, s[1..])) else Failure(InvalidPrefix(id))
      case _ => Failure(ParseError.Unexpected(Some(s[0]), [IdKind]))
  }

  /** `Alias`: a name only. */
  function ParseAlias(s: seq<Token>): (r: Result<(string, seq<Token>), Error>)
    ensures r.Success? <==> s != [] && s[0].IdToken? && s[0].id.Name?
    ensures r.Success? ==> r.value == (s[0].id.name, s[1..])
    ensures s != [] && s[0].IdToken? && !s[0].id.Name? ==> r == Failure(InvalidAlias(s[0].id))
  {
    if s == [] then Failure(ParseError.Unexpected(None, [IdKind]))
    else
      match s[0]
      case IdToken(id) => if id.Name? then Success((id.name, s[1..])) else Failure(InvalidAlias(id))
      case _ => Failure(ParseError.Unexpected(Some(s[0]), [IdKind]))
  }

  /** A type or layout expression: an identifier, or a reference to an expression. */
  datatype Expr = Id(id: Lexing.Id) | Reference(arg: Expr)

  /** `TypeExpr::parse` and `LayoutExpr::parse`, which read the same grammar. */
  function ParseExpr(s: seq<Token>): (r: Result<(Expr, seq<Token>), Error>)
    ensures r.Success? ==> |r.value.1| < |s|
    decreases |s|
  {
    if s == [] then Failure(ParseError.Unexpected(None, [IdKind, PunctKind(Ampersand)]))
    else
      match s[0]
      case IdToken(id) => Success((Id(id), s[1..]))
      case PunctToken(Ampersand) =>
        (match ParseExpr(s[1..])
         case Failure(e) => Failure(e)
         case Success((arg, rest)) => Success((Reference(arg), rest)))
      case _ => Failure(ParseError.Unexpected(Some(s[0]), [IdKind, PunctKind(Ampersand)]))
  }

  function PrintExpr(e: Expr): (r: seq<Token>)
    ensures |r| > 0
  {
    match e
    case Id(id) => [IdToken(id)]
    case Reference(arg) => [PunctToken(Ampersand)] + PrintExpr(arg)
  }

  /** An expression reads back from its printing, whatever follows it. */
  lemma {:induction false} ExprRoundTrip(e: Expr, rest: seq<Token>)
    ensures ParseExpr(PrintExpr(e) + rest) == Success((e, rest))
  {
    match e
    case Id(id) =>
      assert (PrintExpr(e) + rest)[1..] == rest;
    case Reference(arg) =>
      ExprRoundTrip(arg, rest);
      assert (PrintExpr(e) + rest)[1..] == PrintExpr(arg) + rest;
  }

  /** The annotation keywords at the head of the stream, and what follows them. */
  function ParseAnnotations(s: seq<Token>): (r: (seq<Lexing.Annotation>, seq<Token>))
    ensures |r.1| <= |s|
    ensures r.1 == [] || !(r.1[0].KeywordToken? && r.1[0].keyword.Annotation?)
  {
    if s != [] && s[0].KeywordToken? && s[0].keyword.Annotation? then
      var (annotations, rest) := ParseAnnotations(s[1..]);
      ([s[0].keyword.annotation] + annotations, rest)
    else ([], s)
  }

  /** The annotations read are a prefix of the stream, and the rest follows them. */
  lemma {:induction false} AnnotationsSplit(s: seq<Token>)
    ensures s == AnnotationTokens(ParseAnnotations(s).0) + ParseAnnotations(s).1
  {
    if s != [] && s[0].KeywordToken? && s[0].keyword.Annotation? {
      AnnotationsSplit(s[1..]);
      assert s == [s[0]] + s[1..];
    }
  }

  function AnnotationTokens(annotations: seq<Lexing.Annotation>): seq<Token> {
    if annotations == [] then []
    else [KeywordToken(Annotation(annotations[0]))] + AnnotationTokens(annotations[1..])
  }

  lemma {:induction false} AnnotationsRoundTrip(annotations: seq<Lexing.Annotation>, rest: seq<Token>)
    requires rest == [] || !(rest[0].KeywordToken? && rest[0].keyword.Annotation?)
    ensures ParseAnnotations(AnnotationTokens(annotations) + rest) == (annotations, rest)
  {
    if annotations != [] {
      AnnotationsRoundTrip(annotations[1..], rest);
      assert (AnnotationTokens(annotations) + rest)[1..] == AnnotationTokens(annotations[1..]) + rest;
      assert [annotations[0]] + annotations[1..] == annotations;
    } else {
      assert AnnotationTokens(annotations) + rest == rest;
    }
  }

  lemma {:induction false} AnnotationTokensAppend(a: seq<Lexing.Annotation>, b: seq<Lexing.Annotation>)
    ensures AnnotationTokens(a + b) == AnnotationTokens(a) + AnnotationTokens(b)
  {
    if a != [] {
      AnnotationTokensAppend(a[1..], b);
      assert (a + b)[1..] == a[1..] + b;
    } else {
      assert a + b == b;
    }
  }

  datatype Annotated = Annotated(expr: Expr, annotations: seq<Lexing.Annotation>)

  /**
   * `AnnotatedTypeExpr::parse` and `AnnotatedLayoutExpr::parse`:
   * annotations, the expression, then more annotations, all gathered in
   * the order they were read.
   */
  function ParseAnnotated(s: seq<Token>): Result<(Annotated, seq<Token>), Error> {
    var (before, s1) := ParseAnnotations(s);
    match ParseExpr(s1)
    case Failure(e) => Failure(e)
    case Success((expr, s2)) =>
      var (after, s3) := ParseAnnotations(s2);
      Success((Annotated(expr, before + after), s3))
  }

  /**
   * Annotations written before and after an expression are gathered into
   * one list, in order: the annotated expression does not record which
   * side each was on.
   */
  lemma AnnotatedRoundTrip(before: seq<Lexing.Annotation>, e: Expr, after: seq<Lexing.Annotation>, rest: seq<Token>)
    requires rest == [] || !(rest[0].KeywordToken? && rest[0].keyword.Annotation?)
    ensures ParseAnnotated(AnnotationTokens(before) + PrintExpr(e) + AnnotationTokens(after) + rest)
            == Success((Annotated(e, before + after), rest))
  {
    var after' := AnnotationTokens(after) + rest;
    var tail := PrintExpr(e) + after';
    assert AnnotationTokens(before) + PrintExpr(e) + AnnotationTokens(after) + rest == AnnotationTokens(before) + tail;
    assert tail[0] == PrintExpr(e)[0];
    AnnotationsRoundTrip(before, tail);
    ExprRoundTrip(e, after');
    AnnotationsRoundTrip(after, rest);
    assert ParseAnnotations(AnnotationTokens(before) + tail) == (before, tail);
    assert ParseExpr(tail) == Success((e, after'));
    assert ParseAnnotations(after') == (after, rest);
  }

  predicate IsComma(t: Token) {
    t == PunctToken(Comma)
  }

  /** `parse_block`: a brace block token, whose inner tokens are read as a strict comma list. */
  function ParseBlock<I(!new)>(p: Parser<Token, I, TokenKind>, s: seq<Token>): (r: Result<(seq<I>, seq<Token>), Error>)
    requires Consumes(p)
    ensures r.Success? ==> s != [] && s[0].Block? && s[0].delimiter == Lexing.Brace && r.value.1 == s[1..]
    ensures (s == [] || !s[0].Block? || s[0].delimiter != Lexing.Brace) ==>
              r == Failure(ParseError.Unexpected(if s == [] then None else Some(s[0]), [BlockKind]))
  {
    if s == [] then Failure(ParseError.Unexpected(None, [BlockKind]))
    else
      match s[0]
      case Block(d, inner) =>
        if d != Lexing.Brace then Failure(ParseError.Unexpected(Some(s[0]), [BlockKind]))
        else
          (match StrictCommaList(p, IsComma, PunctKind(Comma), inner)
           case Failure(e) => Failure(e)
           case Success(xs) => Success((xs, s[1..])))
      case _ => Failure(ParseError.Unexpected(Some(s[0]), [BlockKind]))
  }

  lemma BlockRoundTrip<I(!new)>(p: Parser<Token, I, TokenKind>, render: I -> seq<Token>, starts: Token -> bool,
                                xs: seq<I>, rest: seq<Token>)
    requires Consumes(p) && Inverts(p, render, starts)
    ensures ParseBlock(p, [Block(Lexing.Brace, PrintList(render, PunctToken(Comma), xs))] + rest) == Success((xs, rest))
  {
    StrictCommaListRoundTrip(p, render, starts, IsComma, PunctToken(Comma), PunctKind(Comma), xs);
    assert ([Block(Lexing.Brace, PrintList(render, PunctToken(Comma), xs))] + rest)[1..] == rest;
  }

  /** The doc comments as tokens. */
  function DocTokens(doc: seq<string>): seq<Token> {
    if doc == [] then [] else [Doc(doc[0])] + DocTokens(doc[1..])
  }

  /** `Documentation::parse`: the doc comments up to the first other token. */
  function ParseDocumentation(s: seq<Token>): (r: (seq<string>, seq<Token>))
    ensures |r.1| <= |s|
    ensures r.1 == [] || !r.1[0].Doc?
  {
    if s != [] && s[0].Doc? then
      var (doc, rest) := ParseDocumentation(s[1..]);
      ([s[0].doc] + doc, rest)
    else ([], s)
  }

  /** The doc comments read are a prefix of the stream, and the rest follows them. */
  lemma {:induction false} DocumentationSplit(s: seq<Token>)
    ensures s == DocTokens(ParseDocumentation(s).0) + ParseDocumentation(s).1
  {
    if s != [] && s[0].Doc? {
      DocumentationSplit(s[1..]);
      assert s == [s[0]] + s[1..];
    }
  }

  lemma {:induction false} DocumentationRoundTrip(doc: seq<string>, rest: seq<Token>)
    requires rest == [] || !rest[0].Doc?
    ensures ParseDocumentation(DocTokens(doc) + rest) == (doc, rest)
  {
    if doc != [] {
      DocumentationRoundTrip(doc[1..], rest);
      var s := DocTokens(doc) + rest;
      assert s[1..] == DocTokens(doc[1..]) + rest;
      assert [doc[0]] + doc[1..] == doc;
    } else {
      assert DocTokens(doc) + rest == rest;
    }
  }

  /** A property: its doc comments, identifier and optional annotated type. */
  datatype Property = Property(doc: seq<string>, id: Lexing.Id, ty: Option<Annotated>)

  /** `PropertyDefinition::parse`: doc comments, an identifier, then `:` and a type if a colon follows. */
  function ParseProperty(s: seq<Token>): (r: Result<(Property, seq<Token>), Error>)
    ensures r.Success? ==> |r.value.1| < |s|
  {
    var (doc, s1) := ParseDocumentation(s);
    match ParseId(s1)
    case Failure(e) => Failure(e)
    case Success((id, s2)) => ParsePropertyType(doc, id, s2)
  }

  /** The optional `:` and annotated type after a property's identifier. */
  function ParsePropertyType(doc: seq<string>, id: Lexing.Id, s: seq<Token>): (r: Result<(Property, seq<Token>), Error>)
    ensures r.Success? ==> |r.value.1| <= |s|
  {
    if s != [] && s[0] == PunctToken(Colon) then
      match ParseAnnotated(s[1..])
      case Failure(e) => Failure(e)
      case Success((ty, s1)) => Success((Property(doc, id, Some(ty)), s1))
    else Success((Property(doc, id, None), s))
  }

  /** A property with a type prints its annotations after the expression. */
  function PrintProperty(p: Property): seq<Token> {
    DocTokens(p.doc) + [IdToken(p.id)]
    + (match p.ty
       case None => []
       case Some(Annotated(e, annotations)) => [PunctToken(Colon)] + PrintExpr(e) + AnnotationTokens(annotations))
  }

  lemma UntypedPropertyRoundTrip(doc: seq<string>, id: Lexing.Id, rest: seq<Token>)
    requires rest == [] || rest[0] != PunctToken(Colon)
    ensures ParseProperty(PrintProperty(Property(doc, id, None)) + rest) == Success((Property(doc, id, None), rest))
  {
    var body := [IdToken(id)] + rest;
    assert PrintProperty(Property(doc, id, None)) + rest == DocTokens(doc) + body;
    DocumentationRoundTrip(doc, body);
    assert ParseId(body) == Success((id, rest));
  }

  /** An expression followed by all its annotations reads back as that annotated expression. */
  lemma AnnotatedTrailing(e: Expr, annotations: seq<Lexing.Annotation>, rest: seq<Token>)
    requires rest == [] || !(rest[0].KeywordToken? && rest[0].keyword.Annotation?)
    ensures ParseAnnotated(PrintExpr(e) + AnnotationTokens(annotations) + rest) == Success((Annotated(e, annotations), rest))
  {
    var after := AnnotationTokens(annotations) + rest;
    var s := PrintExpr(e) + after;
    assert PrintExpr(e) + AnnotationTokens(annotations) + rest == s;
    assert s[0] == PrintExpr(e)[0];
    assert ParseAnnotations(s) == ([], s);
    ExprRoundTrip(e, after);
    AnnotationsRoundTrip(annotations, rest);
    assert [] + annotations == annotations;
  }

  lemma TypedPropertyRoundTrip(doc: seq<string>, id: Lexing.Id, e: Expr, annotations: seq<Lexing.Annotation>, rest: seq<Token>)
    requires rest == [] || !(rest[0].KeywordToken? && rest[0].keyword.Annotation?)
    ensures var p := Property(doc, id, Some(Annotated(e, annotations)));
            ParseProperty(PrintProperty(p) + rest) == Success((p, rest))
  {
    var p := Property(doc, id, Some(Annotated(e, annotations)));
    var ty := PrintExpr(e) + AnnotationTokens(annotations) + rest;
    var s2 := [PunctToken(Colon)] + ty;
    var body := [IdToken(id)] + s2;
    assert PrintProperty(p) + rest == DocTokens(doc) + body;
    DocumentationRoundTrip(doc, body);
    assert ParseId(body) == Success((id, s2));
    assert s2[1..] == ty;
    AnnotatedTrailing(e, annotations, rest);
    assert ParsePropertyType(doc, id, s2) == Success((p, rest));
  }

  /**
   * A printed property reads back as itself when what follows it is not a
   * colon (for an untyped property) and not an annotation (for a typed
   * one) — a comma or the end of the block, say.
   */
  lemma PropertyRoundTrip(p: Property, rest: seq<Token>)
    requires rest == [] || (!(rest[0].KeywordToken? && rest[0].keyword.Annotation?) && rest[0] != PunctToken(Colon))
    ensures ParseProperty(PrintProperty(p) + rest) == Success((p, rest))
  {
    match p.ty
    case None => UntypedPropertyRoundTrip(p.doc, p.id, rest);
    case Some(Annotated(e, annotations)) => TypedPropertyRoundTrip(p.doc, p.id, e, annotations, rest);
  }

  /** A field: its doc comments, identifier, optional alias and annotated layout. */
  datatype Field = Field(doc: seq<string>, id: Lexing.Id, alias: Option<string>, layout: Annotated)

  /** `FieldDefinition::parse`: doc comments, an identifier, an optional `as` alias, then `:` and a layout. */
  function ParseField(s: seq<Token>): (r: Result<(Field, seq<Token>), Error>)
    ensures r.Success? ==> |r.value.1| < |s|
  {
    var (doc, s1) := ParseDocumentation(s);
    match ParseId(s1)
    case Failure(e) => Failure(e)
    case Success((id, s2)) =>
      var aliased: Result<(Option<string>, seq<Token>), Error> :=
        if s2 != [] && s2[0] == KeywordToken(As) then
          match ParseAlias(s2[1..])
          case Failure(e) => Failure(e)
          case Success((a, s3)) => Success((Some(a), s3))
        else Success((None, s2));
      match aliased
      case Failure(e) => Failure(e)
      case Success((alias, s3)) =>
        if s3 == [] then Failure(ParseError.Unexpected(None, [PunctKind(Colon)]))
        else if s3[0] != PunctToken(Colon) then Failure(ParseError.Unexpected(Some(s3[0]), [PunctKind(Colon)]))
        else
          match ParseAnnotated(s3[1..])
          case Failure(e) => Failure(e)
          case Success((layout, s4)) => Success((Field(doc, id, alias, layout), s4))
  }

  /** A field without a colon after its name (and alias) is an error naming the token found. */
  lemma FieldNeedsLayout(doc: seq<string>, id: Lexing.Id, t: Token, rest: seq<Token>)
    requires t != PunctToken(Colon) && t != KeywordToken(As)
    ensures ParseField(DocTokens(doc) + [IdToken(id), t] + rest) == Failure(ParseError.Unexpected(Some(t), [PunctKind(Colon)]))
  {
    var body := [IdToken(id), t] + rest;
    assert DocTokens(doc) + [IdToken(id), t] + rest == DocTokens(doc) + body;
    DocumentationRoundTrip(doc, body);
    assert body[1..] == [t] + rest;
  }

  datatype Item<P, F> =
    | ImportItem(doc: seq<string>, iri: string, prefix: string)
    | TypeDefinition(doc: seq<string>, id: Lexing.Id, properties: seq<P>)
    | LayoutDefinition(doc: seq<string>, id: Lexing.Id, tyId: Lexing.Id, fields: seq<F>)

  /** The kinds an item's error says were expected: `import` is accepted but not listed. */
  const ItemFirst: seq<TokenKind> := [KeywordKind(Type), KeywordKind(Layout)]

  function ParseImportRest<P, F>(isIri: string -> bool, doc: seq<string>, s: seq<Token>): Result<(Item<P, F>, seq<Token>), Error> {
    match ParseImportIri(isIri, s)
    case Failure(e) => Failure(e)
    case Success((iri, s1)) =>
      match ParseKeyword(s1, As)
      case Failure(e) => Failure(e)
      case Success(s2) =>
        match ParsePrefix(s2)
        case Failure(e) => Failure(e)
        case Success((prefix, s3)) => Success((ImportItem(doc, iri, prefix), s3))
  }

  function ParseTypeRest<P(!new), F>(property: Parser<Token, P, TokenKind>, doc: seq<string>, s: seq<Token>): Result<(Item<P, F>, seq<Token>), Error>
    requires Consumes(property)
  {
    match ParseId(s)
    case Failure(e) => Failure(e)
    case Success((id, s1)) =>
      match ParseBlock(property, s1)
      case Failure(e) => Failure(e)
      case Success((properties, s2)) => Success((TypeDefinition(doc, id, properties), s2))
  }

  function ParseLayoutRest<P, F(!new)>(field: Parser<Token, F, TokenKind>, doc: seq<string>, s: seq<Token>): Result<(Item<P, F>, seq<Token>), Error>
    requires Consumes(field)
  {
    match ParseId(s)
    case Failure(e) => Failure(e)
    case Success((id, s1)) =>
      match ParseKeyword(s1, For)
      case Failure(e) => Failure(e)
      case Success(s2) =>
        match ParseId(s2)
        case Failure(e) => Failure(e)
        case Success((tyId, s3)) =>
          match ParseBlock(field, s3)
          case Failure(e) => Failure(e)
          case Success((fields, s4)) => Success((LayoutDefinition(doc, id, tyId, fields), s4))
  }

  /**
   * `Item::parse`: doc comments, then `import` with an IRI, `as` and a
   * prefix; `type` with an identifier and a block of properties; or
   * `layout` with an identifier, `for`, the type's identifier and a block
   * of fields.
   */
  function ParseItem<P(!new), F(!new)>(isIri: string -> bool, property: Parser<Token, P, TokenKind>, field: Parser<Token, F, TokenKind>,
                                       s: seq<Token>): Result<(Item<P, F>, seq<Token>), Error>
    requires Consumes(property) && Consumes(field)
  {
    var (doc, s1) := ParseDocumentation(s);
    ParseItemBody(isIri, property, field, doc, s1)
  }

  /** An item after its doc comments: the keyword chooses what follows. */
  function ParseItemBody<P(!new), F(!new)>(isIri: string -> bool, property: Parser<Token, P, TokenKind>, field: Parser<Token, F, TokenKind>,
                                           doc: seq<string>, s: seq<Token>): Result<(Item<P, F>, seq<Token>), Error>
    requires Consumes(property) && Consumes(field)
  {
    if s == [] then Failure(ParseError.Unexpected(None, ItemFirst))
    else if s[0] == KeywordToken(Import) then ParseImportRest(isIri, doc, s[1..])
    else if s[0] == KeywordToken(Type) then ParseTypeRest(property, doc, s[1..])
    else if s[0] == KeywordToken(Layout) then ParseLayoutRest(field, doc, s[1..])
    else Failure(ParseError.Unexpected(Some(s[0]), ItemFirst))
  }

  lemma ItemAfterDoc<P(!new), F(!new)>(isIri: string -> bool, property: Parser<Token, P, TokenKind>, field: Parser<Token, F, TokenKind>,
                                       doc: seq<string>, body: seq<Token>)
    requires Consumes(property) && Consumes(field)
    requires body == [] || !body[0].Doc?
    ensures ParseItem(isIri, property, field, DocTokens(doc) + body) == ParseItemBody(isIri, property, field, doc, body)
  {
    DocumentationRoundTrip(doc, body);
  }

  function PrintItem<P(!new), F(!new)>(renderProperty: P -> seq<Token>, renderField: F -> seq<Token>, item: Item<P, F>): (r: seq<Token>)
    ensures |r| > 0
  {
    match item
    case ImportItem(doc, iri, prefix) =>
      DocTokens(doc) + [KeywordToken(Import), IdToken(Lexing.IriRef(iri)), KeywordToken(As), IdToken(Lexing.Name(prefix))]
    case TypeDefinition(doc, id, properties) =>
      DocTokens(doc) + [KeywordToken(Type), IdToken(id), Block(Lexing.Brace, PrintList(renderProperty, PunctToken(Comma), properties))]
    case LayoutDefinition(doc, id, tyId, fields) =>
      DocTokens(doc) + [KeywordToken(Layout), IdToken(id), KeywordToken(For), IdToken(tyId),
                        Block(Lexing.Brace, PrintList(renderField, PunctToken(Comma), fields))]
  }

  /** An import's IRI is absolute. */
  predicate WellFormed<P, F>(isIri: string -> bool, item: Item<P, F>) {
    item.ImportItem? ==> isIri(item.iri)
  }

  lemma ImportRoundTrip<P(!new), F(!new)>(isIri: string -> bool, property: Parser<Token, P, TokenKind>, renderProperty: P -> seq<Token>,
                                          field: Parser<Token, F, TokenKind>, renderField: F -> seq<Token>,
                                          doc: seq<string>, iri: string, prefix: string, rest: seq<Token>)
    requires Consumes(property) && Consumes(field) && isIri(iri)
    ensures var item := ImportItem(doc, iri, prefix);
            ParseItem(isIri, property, field, PrintItem(renderProperty, renderField, item) + rest) == Success((item, rest))
  {
    var s3 := [IdToken(Lexing.Name(prefix))] + rest;
    var s2 := [KeywordToken(As)] + s3;
    var body := [KeywordToken(Import), IdToken(Lexing.IriRef(iri))] + s2;
    assert PrintItem(renderProperty, renderField, ImportItem(doc, iri, prefix)) + rest == DocTokens(doc) + body;
    ItemAfterDoc(isIri, property, field, doc, body);
    assert body[1..] == [IdToken(Lexing.IriRef(iri))] + s2;
    assert ParseImportIri(isIri, body[1..]) == Success((iri, s2));
    assert ParseKeyword(s2, As) == Success(s3);
    assert ParsePrefix(s3) == Success((prefix, rest));
    assert ParseImportRest<P, F>(isIri, doc, body[1..]) == Success((ImportItem(doc, iri, prefix), rest));
    assert body[0] == KeywordToken(Import);
    assert ParseItemBody(isIri, property, field, doc, body) == ParseImportRest(isIri, doc, body[1..]);
  }

  lemma TypeRoundTrip<P(!new), F(!new)>(isIri: string -> bool, property: Parser<Token, P, TokenKind>, renderProperty: P -> seq<Token>, startsProperty: Token -> bool,
                                        field: Parser<Token, F, TokenKind>, renderField: F -> seq<Token>,
                                        doc: seq<string>, id: Lexing.Id, properties: seq<P>, rest: seq<Token>)
    requires Consumes(property) && Inverts(property, renderProperty, startsProperty) && Consumes(field)
    ensures var item := TypeDefinition(doc, id, properties);
            ParseItem(isIri, property, field, PrintItem(renderProperty, renderField, item) + rest) == Success((item, rest))
  {
    var block := Block(Lexing.Brace, PrintList(renderProperty, PunctToken(Comma), properties));
    var body := [KeywordToken(Type), IdToken(id), block] + rest;
    assert PrintItem(renderProperty, renderField, TypeDefinition(doc, id, properties)) + rest == DocTokens(doc) + body;
    ItemAfterDoc(isIri, property, field, doc, body);
    assert body[1..] == [IdToken(id)] + ([block] + rest);
    BlockRoundTrip(property, renderProperty, startsProperty, properties, rest);
  }

  lemma LayoutRestRoundTrip<P, F(!new)>(field: Parser<Token, F, TokenKind>, renderField: F -> seq<Token>, startsField: Token -> bool,
                                        doc: seq<string>, id: Lexing.Id, tyId: Lexing.Id, fields: seq<F>, rest: seq<Token>)
    requires Consumes(field) && Inverts(field, renderField, startsField)
    ensures var block := Block(Lexing.Brace, PrintList(renderField, PunctToken(Comma), fields));
            ParseLayoutRest<P, F>(field, doc, [IdToken(id), KeywordToken(For), IdToken(tyId), block] + rest)
            == Success((LayoutDefinition(doc, id, tyId, fields), rest))
  {
    var block := Block(Lexing.Brace, PrintList(renderField, PunctToken(Comma), fields));
    var s3 := [block] + rest;
    var s2 := [IdToken(tyId)] + s3;
    var s1 := [KeywordToken(For)] + s2;
    assert [IdToken(id), KeywordToken(For), IdToken(tyId), block] + rest == [IdToken(id)] + s1;
    assert ParseKeyword(s1, For) == Success(s2);
    BlockRoundTrip(field, renderField, startsField, fields, rest);
  }

  lemma LayoutRoundTrip<P(!new), F(!new)>(isIri: string -> bool, property: Parser<Token, P, TokenKind>, renderProperty: P -> seq<Token>,
                                          field: Parser<Token, F, TokenKind>, renderField: F -> seq<Token>, startsField: Token -> bool,
                                          doc: seq<string>, id: Lexing.Id, tyId: Lexing.Id, fields: seq<F>, rest: seq<Token>)
    requires Consumes(property) && Consumes(field) && Inverts(field, renderField, startsField)
    ensures var item := LayoutDefinition(doc, id, tyId, fields);
            ParseItem(isIri, property, field, PrintItem(renderProperty, renderField, item) + rest) == Success((item, rest))
  {
    var block := Block(Lexing.Brace, PrintList(renderField, PunctToken(Comma), fields));
    var after := [IdToken(id), KeywordToken(For), IdToken(tyId), block] + rest;
    var body := [KeywordToken(Layout)] + after;
    assert PrintItem(renderProperty, renderField, LayoutDefinition(doc, id, tyId, fields)) + rest == DocTokens(doc) + body;
    ItemAfterDoc(isIri, property, field, doc, body);
    assert body[1..] == after;
    LayoutRestRoundTrip<P, F>(field, renderField, startsField, doc, id, tyId, fields, rest);
    assert ParseItemBody(isIri, property, field, doc, body) == ParseLayoutRest(field, doc, after);
  }

  /**
   * Every well-formed printed item reads back as itself, leaving what
   * follows, given property and field parsers that read back their own
   * printing.
   */
  lemma ItemRoundTrip<P(!new), F(!new)>(isIri: string -> bool,
                                        property: Parser<Token, P, TokenKind>, renderProperty: P -> seq<Token>, startsProperty: Token -> bool,
                                        field: Parser<Token, F, TokenKind>, renderField: F -> seq<Token>, startsField: Token -> bool,
                                        item: Item<P, F>, rest: seq<Token>)
    requires Consumes(property) && Inverts(property, renderProperty, startsProperty)
    requires Consumes(field) && Inverts(field, renderField, startsField)
    requires WellFormed(isIri, item)
    ensures ParseItem(isIri, property, field, PrintItem(renderProperty, renderField, item) + rest) == Success((item, rest))
  {
    match item
    case ImportItem(doc, iri, prefix) =>
      ImportRoundTrip(isIri, property, renderProperty, field, renderField, doc, iri, prefix, rest);
    case TypeDefinition(doc, id, properties) =>
      TypeRoundTrip(isIri, property, renderProperty, startsProperty, field, renderField, doc, id, properties, rest);
    case LayoutDefinition(doc, id, tyId, fields) =>
      LayoutRoundTrip(isIri, property, renderProperty, field, renderField, startsField, doc, id, tyId, fields, rest);
  }

  /** An import whose identifier is not an absolute IRI is refused with that identifier. */
  lemma ImportInvalidIri<P(!new), F(!new)>(isIri: string -> bool, property: Parser<Token, P, TokenKind>, field: Parser<Token, F, TokenKind>,
                                           doc: seq<string>, id: Lexing.Id, rest: seq<Token>)
    requires Consumes(property) && Consumes(field)
    requires !(id.IriRef? && isIri(id.iri))
    ensures ParseItem(isIri, property, field, DocTokens(doc) + [KeywordToken(Import), IdToken(id)] + rest) == Failure(InvalidImportId(id))
  {
    var body := [KeywordToken(Import), IdToken(id)] + rest;
    assert DocTokens(doc) + [KeywordToken(Import), IdToken(id)] + rest == DocTokens(doc) + body;
    ItemAfterDoc(isIri, property, field, doc, body);
    assert body[1..] == [IdToken(id)] + rest;
    assert ParseImportIri(isIri, body[1..]) == Failure(InvalidImportId(id));
    assert ParseImportRest<P, F>(isIri, doc, body[1..]) == Failure(InvalidImportId(id));
    assert body[0] == KeywordToken(Import);
    assert ParseItemBody(isIri, property, field, doc, body) == ParseImportRest(isIri, doc, body[1..]);
  }

  datatype Document<P, F> = Document(imports: seq<Item<P, F>>, types: seq<Item<P, F>>, layouts: seq<Item<P, F>>)

  /** `Document::parse`: items until the end of the stream, each added to the list of its kind. */
  function ParseDocument<P(!new), F(!new)>(isIri: string -> bool, property: Parser<Token, P, TokenKind>, field: Parser<Token, F, TokenKind>,
                                           s: seq<Token>): Result<Document<P, F>, Error>
    requires Consumes(property) && Consumes(field)
    decreases |s|
  {
    if s == [] then Success(Document([], [], []))
    else
      match ParseItem(isIri, property, field, s)
      case Failure(e) => Failure(e)
      case Success((item, rest)) =>
        if |rest| >= |s| then Failure(ParseError.Unexpected(Some(s[0]), ItemFirst))
        else
          match ParseDocument(isIri, property, field, rest)
          case Failure(e) => Failure(e)
          case Success(d) =>
            Success(match item
                    case ImportItem(_, _, _) => d.(imports := [item] + d.imports)
                    case TypeDefinition(_, _, _) => d.(types := [item] + d.types)
                    case LayoutDefinition(_, _, _, _) => d.(layouts := [item] + d.layouts))
  }

  function PrintDocument<P(!new), F(!new)>(renderProperty: P -> seq<Token>, renderField: F -> seq<Token>, items: seq<Item<P, F>>): seq<Token> {
    if items == [] then [] else PrintItem(renderProperty, renderField, items[0]) + PrintDocument(renderProperty, renderField, items[1..])
  }

  predicate IsImport<P, F>(item: Item<P, F>) { item.ImportItem? }
  predicate IsType<P, F>(item: Item<P, F>) { item.TypeDefinition? }
  predicate IsLayout<P, F>(item: Item<P, F>) { item.LayoutDefinition? }

  /** The items satisfying `keep`, in order. */
  function Filter<P, F>(items: seq<Item<P, F>>, keep: Item<P, F> -> bool): (r: seq<Item<P, F>>)
    ensures forall k :: 0 <= k < |r| ==> keep(r[k]) && r[k] in items
  {
    if items == [] then []
    else (if keep(items[0]) then [items[0]] else []) + Filter(items[1..], keep)
  }

  lemma FilterCons<P, F>(items: seq<Item<P, F>>, keep: Item<P, F> -> bool)
    requires items != []
    ensures keep(items[0]) ==> Filter(items, keep) == [items[0]] + Filter(items[1..], keep)
    ensures !keep(items[0]) ==> Filter(items, keep) == Filter(items[1..], keep)
  {
  }

  /**
   * A printed document reads back with its imports, types and layouts
   * each listed in the order they were written.
   */
  lemma {:induction false} DocumentRoundTrip<P(!new), F(!new)>(isIri: string -> bool,
                                                               property: Parser<Token, P, TokenKind>, renderProperty: P -> seq<Token>, startsProperty: Token -> bool,
                                                               field: Parser<Token, F, TokenKind>, renderField: F -> seq<Token>, startsField: Token -> bool,
                                                               items: seq<Item<P, F>>)
    requires Consumes(property) && Inverts(property, renderProperty, startsProperty)
    requires Consumes(field) && Inverts(field, renderField, startsField)
    requires forall k :: 0 <= k < |items| ==> WellFormed(isIri, items[k])
    ensures ParseDocument(isIri, property, field, PrintDocument(renderProperty, renderField, items))
            == Success(Document(Filter(items, IsImport), Filter(items, IsType), Filter(items, IsLayout)))
    decreases |items|
  {
    if items != [] {
      var tail := PrintDocument(renderProperty, renderField, items[1..]);
      var s := PrintDocument(renderProperty, renderField, items);
      assert s == PrintItem(renderProperty, renderField, items[0]) + tail;
      ItemRoundTrip(isIri, property, renderProperty, startsProperty, field, renderField, startsField, items[0], tail);
      DocumentRoundTrip(isIri, property, renderProperty, startsProperty, field, renderField, startsField, items[1..]);
      var d := Document(Filter(items[1..], IsImport), Filter(items[1..], IsType), Filter(items[1..], IsLayout));
      assert ParseDocument(isIri, property, field, tail) == Success(d);
      assert ParseItem(isIri, property, field, s) == Success((items[0], tail));
      assert |tail| < |s|;
      var pushed := match items[0]
                    case ImportItem(_, _, _) => d.(imports := [items[0]] + d.imports)
                    case TypeDefinition(_, _, _) => d.(types := [items[0]] + d.types)
                    case LayoutDefinition(_, _, _, _) => d.(layouts := [items[0]] + d.layouts);
      assert ParseDocument(isIri, property, field, s) == Success(pushed);
      FilterCons(items, IsImport);
      FilterCons(items, IsType);
      FilterCons(items, IsLayout);
      assert Filter(items, IsImport) == (if IsImport(items[0]) then [items[0]] else []) + Filter(items[1..], IsImport);
      assert Filter(items, IsType) == (if IsType(items[0]) then [items[0]] else []) + Filter(items[1..], IsType);
      assert Filter(items, IsLayout) == (if IsLayout(items[0]) then [items[0]] else []) + Filter(items[1..], IsLayout);
    }
  }
}
