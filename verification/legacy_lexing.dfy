/**
 * The lexer of the first-generation TreeLDR syntax: blocks are single
 * tokens holding the tokens between a delimiter and its closing partner,
 * identifiers are names or `<...>` IRIs (possibly compact), and
 * documentation comments start with `///`.
 *
 * The delimiter table, the annotation names and whitespace/comment
 * skipping are the same as in the newer lexer and are shared with it.
 * Unicode `is_alphabetic`/`is_alphanumeric` and the IRI-reference grammar
 * are not part of this model: they are parameters (`Classes`).
 */
module LegacyLexing {
  import opened Wrappers
  import Lexing

  datatype Keyword = Type | Layout | As | For | Annotation(annotation: Lexing.Annotation)

  function KeywordFromName(name: string): Option<Keyword> {
    if name == "type" then Some(Type)
    else if name == "layout" then Some(Layout)
    else if name == "as" then Some(As)
    else if name == "for" then Some(For)
    else
      match Lexing.AnnotationFromName(name)
      case Some(a) => Some(Annotation(a))
      case None => None
  }

  function KeywordAsStr(k: Keyword): string {
    match k
    case Type => "type"
    case Layout => "layout"
    case As => "as"
    case For => "for"
    case Annotation(a) => Lexing.AnnotationAsStr(a)
  }

  /**
   * Every keyword is read back from its name, a recognised name is the
   * name of the keyword found, and `base` and `use` are plain names here.
   */
  lemma KeywordRoundTrip(k: Keyword, name: string)
    ensures KeywordFromName(KeywordAsStr(k)) == Some(k)
    ensures KeywordFromName(name).Some? ==> KeywordAsStr(KeywordFromName(name).value) == name
    ensures KeywordFromName("base").None? && KeywordFromName("use").None?
  {
  }

  datatype Punct = Comma | Colon

  function PunctFromChar(c: char): Option<Punct> {
    match c
    case ',' => Some(Comma)
    case ':' => Some(Colon)
    case _ => None
  }

  type Id = Lexing.Id

  datatype Token =
    | Doc(doc: string)
    | PunctToken(punct: Punct)
    | Block(delimiter: Lexing.Delimiter, tokens: seq<Token>)
    | KeywordToken(keyword: Keyword)
    | IdToken(id: Id)

  /**
   * The character classes and the IRI-reference check the lexer relies on:
   * `char::is_alphabetic`, `char::is_alphanumeric` and `IriRef::new`.
   */
  datatype Classes = Classes(alphabetic: char -> bool, alphanumeric: char -> bool, iriRef: string -> bool)

  /** `next_doc`: drops the two characters after the first `/`, then reads to the end of the line. */
  function NextDoc(s: string, i: nat): (r: (string, nat))
    requires i <= |s|
    ensures var start, e := (if i + 2 <= |s| then i + 2 else |s|), r.1;
            e == Lexing.LineEnd(s, start)
            && r.0 == s[start..if e > start && s[e - 1] == '\n' then e - 1 else e]
  {
    var start := if i + 2 <= |s| then i + 2 else |s|;
    var e := Lexing.LineEnd(s, start);
    (s[start..if e > start && s[e - 1] == '\n' then e - 1 else e], e)
  }

  /** `next_name`: the first character, then every alphanumeric character after it. */
  function NextName(cls: Classes, s: string, i: nat): (e: nat)
    requires i <= |s|
    ensures i <= e <= |s|
    ensures forall k :: i <= k < e ==> cls.alphanumeric(s[k])
    ensures e == |s| || !cls.alphanumeric(s[e])
    decreases |s| - i
  {
    if i < |s| && cls.alphanumeric(s[i]) then NextName(cls, s, i + 1) else i
  }

  /** The position of the first `c` in `s` at or after `i`, or `|s|`. */
  function Find(s: string, i: nat, c: char): (k: nat)
    requires i <= |s|
    ensures i <= k <= |s|
    ensures forall m :: i <= m < k ==> s[m] != c
    ensures k == |s| || s[k] == c
    decreases |s| - i
  {
    if i == |s| || s[i] == c then i else Find(s, i + 1, c)
  }

  predicate StartsWith(s: string, prefix: string) {
    |prefix| <= |s| && s[..|prefix|] == prefix
  }

  /**
   * Classifies the text between `<` and `>`: a compact IRI when it has a
   * colon and the text after the first colon does not start with `//`,
   * otherwise an IRI reference.
   */
  function IdOfIriText(cls: Classes, text: string): (r: Result<Id, Lexing.LexError>)
  {
    var colon := Find(text, 0, ':');
    if colon < |text| && !StartsWith(text[colon + 1..], "//") then
      var suffix := text[colon + 1..];
      if cls.iriRef(suffix) then Success(Lexing.Compact(text[..colon], suffix))
      else Failure(Lexing.InvalidId(text))
    else if cls.iriRef(text) then Success(Lexing.IriRef(text))
    else Failure(Lexing.InvalidId(text))
  }

  /**
   * A compact identifier splits its text at the first colon, and its
   * suffix does not start with `//`; a text with such a colon is never
   * read as a full IRI reference.
   */
  lemma IdOfIriTextSpec(cls: Classes, text: string)
    ensures var r := IdOfIriText(cls, text);
            r.Success? && r.value.Compact? ==>
              text == r.value.prefix + [':'] + r.value.suffix
              && ':' !in r.value.prefix && !StartsWith(r.value.suffix, "//")
    ensures var r := IdOfIriText(cls, text);
            r.Success? && r.value.IriRef? ==>
              r.value.iri == text && (':' in text ==> StartsWith(text[Find(text, 0, ':') + 1..], "//"))
    ensures IdOfIriText(cls, text).Failure? ==> IdOfIriText(cls, text).error == Lexing.InvalidId(text)
  {
    var r := IdOfIriText(cls, text);
    var colon := Find(text, 0, ':');
    if r.Success? && r.value.Compact? {
      assert text == text[..colon] + [':'] + text[colon + 1..];
      assert forall m :: 0 <= m < colon ==> text[..colon][m] == text[m];
    }
  }

  /** `next_iri`: reads up to `>` (or the end of the text) and classifies the text. */
  function NextIri(cls: Classes, s: string, i: nat): (r: Result<(Id, nat), Lexing.LexError>)
    requires i <= |s|
    ensures var k := Find(s, i, '>');
            && (r.Success? <==> IdOfIriText(cls, s[i..k]).Success?)
            && (r.Success? ==> r.value.1 == k + 1 && (k < |s| ==> s[k] == '>'))
            && (forall m :: i <= m < k ==> s[m] != '>')
  {
    var k := Find(s, i, '>');
    match IdOfIriText(cls, s[i..k])
    case Success(id) => Success((id, k + 1))
    case Failure(e) => Failure(e)
  }

  /** The position after a token, clamped to the end of the text. */
  function Clamp(s: string, k: nat): nat {
    if k <= |s| then k else |s|
  }

  /**
   * `consume`: skips blank text and reads one token, or `None` at the end
   * of the text; returns the position after the token.
   */
  function Consume(cls: Classes, s: string, i: nat): (r: Result<Option<(Token, nat)>, Lexing.LexError>)
    requires i <= |s|
    ensures r.Success? && r.value.Some? ==> i < r.value.value.1 <= |s|
    ensures r.Success? && r.value.None? ==> Lexing.SkipWhitespaces(s, i) == |s|
    decreases |s| - i, 0
  {
    var j := Lexing.SkipWhitespaces(s, i);
    if j == |s| then Success(None)
    else
      var c := s[j];
      if c == '/' then
        var (doc, e) := NextDoc(s, j + 1);
        Success(Some((Doc(doc), e)))
      else if c == '<' then
        match NextIri(cls, s, j + 1)
        case Success((id, e)) => Success(Some((IdToken(id), Clamp(s, e))))
        case Failure(err) => Failure(err)
      else if cls.alphabetic(c) then
        var e := NextName(cls, s, j + 1);
        var name := s[j..e];
        match KeywordFromName(name)
        case Some(kw) => Success(Some((KeywordToken(kw), e)))
        case None => Success(Some((IdToken(Lexing.Name(name)), e)))
      else if Lexing.DelimiterFromStart(c).Some? then
        var d := Lexing.DelimiterFromStart(c).value;
        match NextBlock(cls, s, j + 1, d)
        case Success((tokens, e)) => Success(Some((Block(d, tokens), e)))
        case Failure(err) => Failure(err)
      else if PunctFromChar(c).Some? then
        Success(Some((PunctToken(PunctFromChar(c).value), j + 1)))
      else Failure(Lexing.Unexpected(Some(c)))
  }

  /**
   * `next_block`: reads tokens until the closing character of `d`; the end
   * of the text before it is `Unexpected(None)`.
   */
  function NextBlock(cls: Classes, s: string, i: nat, d: Lexing.Delimiter): (r: Result<(seq<Token>, nat), Lexing.LexError>)
    requires i <= |s|
    ensures r.Success? ==> i < r.value.1 <= |s| && s[r.value.1 - 1] == Lexing.DelimiterEnd(d)
    decreases |s| - i, 1
  {
    var j := Lexing.SkipWhitespaces(s, i);
    if j < |s| && s[j] == Lexing.DelimiterEnd(d) then Success(([], j + 1))
    else
      match Consume(cls, s, j)
      case Failure(err) => Failure(err)
      case Success(None) => Failure(Lexing.Unexpected(None))
      case Success(Some((t, k))) =>
        match NextBlock(cls, s, k, d)
        case Failure(err) => Failure(err)
        case Success((rest, e)) => Success(([t] + rest, e))
  }

  /** A block that reaches the end of the text fails with `Unexpected(None)`. */
  lemma BlockAtEnd(cls: Classes, s: string, i: nat, d: Lexing.Delimiter)
    requires i <= |s| && Lexing.SkipWhitespaces(s, i) == |s|
    ensures NextBlock(cls, s, i, d) == Failure(Lexing.Unexpected(None))
  {
    assert Consume(cls, s, |s|) == Success(None);
  }

  /** A `//` comment is skipped, but `///` starts a documentation token. */
  lemma DocCommentToken(cls: Classes)
    ensures Consume(cls, "// c\n/// d\n", 0) == Success(Some((Doc(" d"), 11)))
  {
    var s := "// c\n/// d\n";
    assert Lexing.CommentStart(s, 0);
    assert Lexing.LineEnd(s, 4) == 5;
    assert Lexing.LineEnd(s, 3) == 5;
    assert Lexing.LineEnd(s, 2) == 5;
    assert Lexing.Stopped(s, 5);
    assert Lexing.SkipWhitespaces(s, 5) == 5;
    assert Lexing.SkipWhitespaces(s, 0) == 5;
    assert Lexing.LineEnd(s, 10) == 11;
    assert Lexing.LineEnd(s, 9) == 11;
    assert Lexing.LineEnd(s, 8) == 11;
    assert s[8..10] == " d";
  }

  /** Lower-case ASCII names and any IRI text: enough for the examples. */
  function AsciiClasses(): Classes {
    Classes(c => 'a' <= c <= 'z', c => 'a' <= c <= 'z' || '0' <= c <= '9', t => true)
  }

  /** A block holds the tokens up to its closing delimiter. */
  lemma BlockExample()
    ensures Consume(AsciiClasses(), "{a,b}", 0)
            == Success(Some((Block(Lexing.Brace, [IdToken(Lexing.Name("a")), PunctToken(Comma), IdToken(Lexing.Name("b"))]), 5)))
  {
    var s := "{a,b}";
    assert Lexing.SkipWhitespaces(s, 0) == 0;
    BlockExampleBody();
  }

  lemma BlockExampleBody()
    ensures NextBlock(AsciiClasses(), "{a,b}", 1, Lexing.Brace)
            == Success(([IdToken(Lexing.Name("a")), PunctToken(Comma), IdToken(Lexing.Name("b"))], 5))
  {
    var cls := AsciiClasses();
    var s := "{a,b}";
    BlockExampleMiddle();
    BlockExampleName();
    assert Lexing.SkipWhitespaces(s, 1) == 1;
    assert s[1] != '}';
    assert [IdToken(Lexing.Name("a"))] + [PunctToken(Comma), IdToken(Lexing.Name("b"))]
        == [IdToken(Lexing.Name("a")), PunctToken(Comma), IdToken(Lexing.Name("b"))];
  }

  lemma BlockExampleName()
    ensures Consume(AsciiClasses(), "{a,b}", 1) == Success(Some((IdToken(Lexing.Name("a")), 2)))
  {
    var cls := AsciiClasses();
    var s := "{a,b}";
    assert Lexing.SkipWhitespaces(s, 1) == 1;
    assert NextName(cls, s, 2) == 2 && s[1..2] == "a";
  }

  lemma BlockExampleMiddle()
    ensures NextBlock(AsciiClasses(), "{a,b}", 2, Lexing.Brace) == Success(([PunctToken(Comma), IdToken(Lexing.Name("b"))], 5))
  {
    var cls := AsciiClasses();
    var s := "{a,b}";
    BlockExampleTail();
    assert Lexing.SkipWhitespaces(s, 2) == 2;
    assert Consume(cls, s, 2) == Success(Some((PunctToken(Comma), 3)));
    assert s[2] != '}';
    assert [PunctToken(Comma)] + [IdToken(Lexing.Name("b"))] == [PunctToken(Comma), IdToken(Lexing.Name("b"))];
  }

  lemma BlockExampleTail()
    ensures NextBlock(AsciiClasses(), "{a,b}", 3, Lexing.Brace) == Success(([IdToken(Lexing.Name("b"))], 5))
  {
    var cls := AsciiClasses();
    var s := "{a,b}";
    assert Lexing.SkipWhitespaces(s, 3) == 3 && Lexing.SkipWhitespaces(s, 4) == 4;
    assert NextName(cls, s, 4) == 4 && s[3..4] == "b";
    assert Consume(cls, s, 3) == Success(Some((IdToken(Lexing.Name("b")), 4)));
    assert NextBlock(cls, s, 4, Lexing.Brace) == Success(([], 5));
    assert s[3] != '}';
    assert [IdToken(Lexing.Name("b"))] + [] == [IdToken(Lexing.Name("b"))];
  }

  /** An unclosed block fails at the end of the text. */
  lemma UnclosedBlockExample()
    ensures Consume(AsciiClasses(), "(a", 0) == Failure(Lexing.Unexpected(None))
  {
    var cls := AsciiClasses();
    var s := "(a";
    assert Lexing.SkipWhitespaces(s, 0) == 0 && Lexing.SkipWhitespaces(s, 1) == 1;
    assert NextName(cls, s, 2) == 2 && s[1..2] == "a";
    assert Consume(cls, s, 1) == Success(Some((IdToken(Lexing.Name("a")), 2)));
    BlockAtEnd(cls, s, 2, Lexing.Parenthesis);
  }
}
