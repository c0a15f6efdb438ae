/**
 * The newest TreeLDR parser (the `syntax` crate) over the tokens of its
 * lexer: identifiers (where a keyword stands for its own name), aliases,
 * prefixes, the IRI of a `use`/`base` item, optional parsing guarded by
 * FIRST sets, and the document, which sorts its items by kind.
 *
 * The parser also refers to a `;` mark and to `property` and `with`
 * keywords that its lexer's tables do not list; the items that need them
 * are parameters here (`Document` takes the item parser).
 */
module SyntaxParsing {
  import opened Wrappers
  import opened Lexing
  import opened Parsing

  type Error = ParseError<Token, TokenKind>

  /** The next token's kind matches one of the kinds in `first`. */
  function Starts(first: seq<TokenKind>): Token -> bool {
    t => MatchesAny(Kind(t), first)
  }

  const IdFirst: seq<TokenKind> := [IdKind]

  /** `Id::parse_in`: an identifier, or a keyword read as its own name. */
  function ParseId(s: seq<Token>): (r: Result<(Id, seq<Token>), Error>)
    ensures r.Success? <==> s != [] && Matches(Kind(s[0]), IdKind)
    ensures r.Success? ==> r.value == (NoKeyword(s[0]).id, s[1..])
    ensures r.Failure? ==> r.error == ParseError.Unexpected(if s == [] then None else Some(s[0]), [IdKind])
  {
    if s == [] then Failure(ParseError.Unexpected(None, IdFirst))
    else
      match s[0]
      case IdToken(id) => Success((id, s[1..]))
      case KeywordToken(kw) => Success((Name(KeywordAsStr(kw)), s[1..]))
      case _ => Failure(ParseError.Unexpected(Some(s[0]), [IdKind]))
  }

  /** `try_parse` for identifiers: nothing is read unless the next token matches. */
  lemma TryParseId(s: seq<Token>)
    ensures s == [] || !Matches(Kind(s[0]), IdKind) ==> TryParse(ParseId, Starts(IdFirst), s) == Success((None, s))
    ensures s != [] && Matches(Kind(s[0]), IdKind) ==>
              TryParse(ParseId, Starts(IdFirst), s) == Success((Some(NoKeyword(s[0]).id), s[1..]))
  {
  }

  /** `Alias`: a name or a string literal. */
  function ParseAlias(s: seq<Token>): (r: Result<(string, seq<Token>), Error>)
    ensures r.Success? <==>
              s != [] && ((s[0].IdToken? && s[0].id.Name?) || (s[0].LiteralToken? && s[0].literal.StringLiteral?))
    ensures r.Success? ==>
              r.value.1 == s[1..] && r.value.0 == (if s[0].IdToken? then s[0].id.name else s[0].literal.text)
    ensures s != [] && s[0].IdToken? && !s[0].id.Name? ==> r == Failure(InvalidAlias(s[0].id))
  {
    if s == [] then Failure(ParseError.Unexpected(None, [IdKind, LiteralKind]))
    else
      match s[0]
      case IdToken(Name(a)) => Success((a, s[1..]))
      case IdToken(id) => Failure(InvalidAlias(id))
      case LiteralToken(StringLiteral(a)) => Success((a, s[1..]))
      case _ => Failure(ParseError.Unexpected(Some(s[0]), [IdKind]))
  }

  /** `Prefix`: a name only. */
  function ParsePrefix(s: seq<Token>): (r: Result<(string, seq<Token>), Error>)
    ensures r.Success? <==> s != [] && s[0].IdToken? && s[0].id.Name?
    ensures r.Success? ==> r.value == (s[0].id.name, s[1..])
    ensures s != [] && s[0].IdToken? && !s[0].id.Name? ==> r == Failure(InvalidPrefix(s[0].id))
    ensures s != [] && !s[0].IdToken? ==> r == Failure(ParseError.Unexpected(Some(s[0]), [IdKind]))
  {
    if s == [] then Failure(ParseError.Unexpected(None, [IdKind]))
    else
      match s[0]
      case IdToken(Name(a)) => Success((a, s[1..]))
      case IdToken(id) => Failure(InvalidPrefix(id))
      case _ => Failure(ParseError.Unexpected(Some(s[0]), [IdKind]))
  }

  /**
   * The IRI after `use` (or `base`): an identifier that is an IRI
   * reference and an absolute IRI (`isIri`); any other identifier fails
   * with `InvalidUseId`.
   */
  function ParseUseIri(isIri: string -> bool, s: seq<Token>): (r: Result<(string, seq<Token>), Error>)
    ensures r.Success? <==> s != [] && s[0].IdToken? && s[0].id.IriRef? && isIri(s[0].id.iri)
    ensures r.Success? ==> r.value == (s[0].id.iri, s[1..])
    ensures s != [] && s[0].IdToken? && !(s[0].id.IriRef? && isIri(s[0].id.iri)) ==> r == Failure(InvalidUseId(s[0].id))
    ensures s != [] && s[0].KeywordToken? ==> r == Failure(InvalidUseId(Name(KeywordAsStr(s[0].keyword))))
  {
    match ParseId(s)
    case Failure(e) => Failure(e)
    case Success((IriRef(iri), rest)) =>
      if isIri(iri) then Success((iri, rest)) else Failure(InvalidUseId(IriRef(iri)))
    case Success((id, _)) => Failure(InvalidUseId(id))
  }

  predicate IsComma(t: Token) {
    t == PunctToken(Comma)
  }

  /**
   * `parse_block`, once the opening brace is read: a comma list of items,
   * then the closing brace; anything else where the brace should be is
   * unexpected, where a comma or the brace was expected.
   */
  function ParseBlock<I(!new)>(p: Parser<Token, I, TokenKind>, starts: Token -> bool, s: seq<Token>): (r: Result<(seq<I>, seq<Token>), Error>)
    requires Consumes(p)
  {
    match CommaList(p, starts, IsComma, s)
    case Failure(e) => Failure(e)
    case Success((xs, rest)) =>
      if rest != [] && rest[0] == End(Brace) then Success((xs, rest[1..]))
      else Failure(ParseError.Unexpected(if rest == [] then None else Some(rest[0]), [PunctKind(Comma), EndKind(Brace)]))
  }

  /** The closing brace after a list of items: the block is those items. */
  lemma ParseBlockClose<I(!new)>(p: Parser<Token, I, TokenKind>, starts: Token -> bool,
                                 printed: seq<Token>, xs: seq<I>, rest: seq<Token>)
    requires Consumes(p)
    requires CommaList(p, starts, IsComma, printed + ([End(Brace)] + rest)) == Success((xs, [End(Brace)] + rest))
    ensures ParseBlock(p, starts, printed + [End(Brace)] + rest) == Success((xs, rest))
  {
    assert printed + [End(Brace)] + rest == printed + ([End(Brace)] + rest);
    assert ([End(Brace)] + rest)[1..] == rest;
  }

  /**
   * A block printed as its items, separated by commas or each followed by
   * one, and a closing brace reads back as those items, leaving what
   * follows the brace.
   */
  lemma ParseBlockRoundTrip<I(!new)>(p: Parser<Token, I, TokenKind>, render: I -> seq<Token>, starts: Token -> bool,
                                     xs: seq<I>, rest: seq<Token>)
    requires Consumes(p) && Inverts(p, render, starts) && !starts(End(Brace))
    ensures ParseBlock(p, starts, PrintList(render, PunctToken(Comma), xs) + [End(Brace)] + rest) == Success((xs, rest))
    ensures ParseBlock(p, starts, PrintTerminated(render, PunctToken(Comma), xs) + [End(Brace)] + rest) == Success((xs, rest))
  {
    CommaListRoundTrip(p, render, starts, IsComma, PunctToken(Comma), xs, [End(Brace)] + rest);
    ParseBlockClose(p, starts, PrintList(render, PunctToken(Comma), xs), xs, rest);
    CommaListTerminatedRoundTrip(p, render, starts, IsComma, PunctToken(Comma), xs, [End(Brace)] + rest);
    ParseBlockClose(p, starts, PrintTerminated(render, PunctToken(Comma), xs), xs, rest);
  }

  /** A block whose items are followed by neither a comma nor the brace is an error naming that token. */
  lemma ParseBlockUnclosed<I(!new)>(p: Parser<Token, I, TokenKind>, render: I -> seq<Token>, starts: Token -> bool,
                                    xs: seq<I>, t: Token, rest: seq<Token>)
    requires Consumes(p) && Inverts(p, render, starts) && !starts(t) && !IsComma(t) && t != End(Brace)
    ensures ParseBlock(p, starts, PrintList(render, PunctToken(Comma), xs) + [t] + rest)
            == Failure(ParseError.Unexpected(Some(t), [PunctKind(Comma), EndKind(Brace)]))
  {
    CommaListRoundTrip(p, render, starts, IsComma, PunctToken(Comma), xs, [t] + rest);
    assert PrintList(render, PunctToken(Comma), xs) + [t] + rest == PrintList(render, PunctToken(Comma), xs) + ([t] + rest);
  }

  datatype ItemKind = BaseItem | UseItem | TypeItem | PropertyItem | LayoutItem

  /** A top-level item: its kind and its (unmodelled) content. */
  datatype Item<A> = Item(kind: ItemKind, content: A)

  datatype Document<A> = Document(bases: seq<A>, uses: seq<A>, types: seq<A>, properties: seq<A>, layouts: seq<A>)

  function EmptyDocument<A(!new)>(): Document<A> {
    Document([], [], [], [], [])
  }

  /** Adds an item to the list of its kind, as the document parser does. */
  function Push<A(!new)>(d: Document<A>, item: Item<A>): Document<A> {
    match item.kind
    case BaseItem => d.(bases := d.bases + [item.content])
    case UseItem => d.(uses := d.uses + [item.content])
    case TypeItem => d.(types := d.types + [item.content])
    case PropertyItem => d.(properties := d.properties + [item.content])
    case LayoutItem => d.(layouts := d.layouts + [item.content])
  }

  /** The items, pushed one by one into an empty document. */
  function Sort<A(!new)>(items: seq<Item<A>>): Document<A> {
    if items == [] then EmptyDocument()
    else Push(Sort(items[..|items| - 1]), items[|items| - 1])
  }

  /** The contents of the items of kind `k`, in order. */
  function Select<A(!new)>(items: seq<Item<A>>, k: ItemKind): seq<A> {
    if items == [] then []
    else Select(items[..|items| - 1], k) + (if items[|items| - 1].kind == k then [items[|items| - 1].content] else [])
  }

  /** Each list of the document holds exactly the items of its kind, in their order. */
  lemma {:induction false} SortSelects<A(!new)>(items: seq<Item<A>>)
    ensures var d := Sort(items);
            d.bases == Select(items, BaseItem) && d.uses == Select(items, UseItem)
            && d.types == Select(items, TypeItem) && d.properties == Select(items, PropertyItem)
            && d.layouts == Select(items, LayoutItem)
  {
    if items != [] {
      SortSelects(items[..|items| - 1]);
    }
  }

  /** Items until the end of the stream. */
  function Items<A(!new)>(item: Parser<Token, Item<A>, TokenKind>, s: seq<Token>): (r: Result<seq<Item<A>>, Error>)
    requires Consumes(item)
    decreases |s|
  {
    if s == [] then Success([])
    else
      match item(s)
      case Failure(e) => Failure(e)
      case Success((x, rest)) =>
        match Items(item, rest)
        case Failure(e) => Failure(e)
        case Success(xs) => Success([x] + xs)
  }

  /**
   * `Document::parse_in`: items until the end of the stream, each added
   * to the list of its kind. An empty stream is an empty document.
   */
  function ParseDocument<A(!new)>(item: Parser<Token, Item<A>, TokenKind>, s: seq<Token>): (r: Result<Document<A>, Error>)
    requires Consumes(item)
  {
    match Items(item, s)
    case Failure(e) => Failure(e)
    case Success(xs) => Success(Sort(xs))
  }

  /**
   * The document of an empty stream has no items; otherwise every parsed
   * item lands in the list of its kind, in order.
   */
  lemma ParseDocumentSpec<A(!new)>(item: Parser<Token, Item<A>, TokenKind>, s: seq<Token>)
    requires Consumes(item)
    ensures s == [] ==> ParseDocument(item, s) == Success(EmptyDocument())
    ensures ParseDocument(item, s).Success? ==>
              Items(item, s).Success?
              && var (d, xs) := (ParseDocument(item, s).value, Items(item, s).value);
                 d.bases == Select(xs, BaseItem) && d.uses == Select(xs, UseItem)
                 && d.types == Select(xs, TypeItem) && d.properties == Select(xs, PropertyItem)
                 && d.layouts == Select(xs, LayoutItem)
  {
    if Items(item, s).Success? {
      SortSelects(Items(item, s).value);
    }
  }
}
