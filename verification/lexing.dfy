/**
 * The lexer of the TreeLDR schema language (the `syntax` crate): token
 * kinds and their matching rule, the keyword, delimiter and punctuation
 * tables, whitespace and comment skipping, escape sequences, hexadecimal
 * code points and the label counter.
 *
 * The character stream is a sequence of characters read from a position;
 * the stream's own read errors are not modelled.
 */
module Lexing {
  import opened Wrappers

  /** Field annotations, which are also keywords. */
  datatype Annotation = Required | Multiple

  function AnnotationFromName(name: string): Option<Annotation> {
    if name == "required" then Some(Required)
    else if name == "multiple" then Some(Multiple)
    else None
  }

  function AnnotationAsStr(a: Annotation): string {
    match a
    case Required => "required"
    case Multiple => "multiple"
  }

  datatype Keyword = Base | Use | Type | Layout | As | For | Annotation(annotation: Annotation)

  function KeywordFromName(name: string): Option<Keyword> {
    if name == "base" then Some(Base)
    else if name == "use" then Some(Use)
    else if name == "type" then Some(Type)
    else if name == "layout" then Some(Layout)
    else if name == "as" then Some(As)
    else if name == "for" then Some(For)
    else
      match AnnotationFromName(name)
      case Some(a) => Some(Annotation(a))
      case None => None
  }

  function KeywordAsStr(k: Keyword): string {
    match k
    case Base => "base"
    case Use => "use"
    case Type => "type"
    case Layout => "layout"
    case As => "as"
    case For => "for"
    case Annotation(a) => AnnotationAsStr(a)
  }

  /** Every keyword is recognised by its own name. */
  lemma KeywordRoundTrip(k: Keyword)
    ensures KeywordFromName(KeywordAsStr(k)) == Some(k)
  {
  }

  /** A name is recognised exactly when it is the name of the keyword found. */
  lemma KeywordFromNameInverse(name: string)
    ensures KeywordFromName(name).Some? ==> KeywordAsStr(KeywordFromName(name).value) == name
    ensures KeywordFromName(name).None? ==> forall k: Keyword :: KeywordAsStr(k) != name
  {
    if KeywordFromName(name).None? {
      forall k: Keyword ensures KeywordAsStr(k) != name {
        KeywordRoundTrip(k);
      }
    }
  }

  datatype Delimiter = Brace | Parenthesis | Bracket

  function DelimiterFromStart(c: char): Option<Delimiter> {
    match c
    case '{' => Some(Brace)
    case '(' => Some(Parenthesis)
    case '[' => Some(Bracket)
    case _ => None
  }

  function DelimiterFromEnd(c: char): Option<Delimiter> {
    match c
    case '}' => Some(Brace)
    case ')' => Some(Parenthesis)
    case ']' => Some(Bracket)
    case _ => None
  }

  function DelimiterStart(d: Delimiter): char {
    match d
    case Brace => '{'
    case Parenthesis => '('
    case Bracket => '['
  }

  function DelimiterEnd(d: Delimiter): char {
    match d
    case Brace => '}'
    case Parenthesis => ')'
    case Bracket => ']'
  }

  /** `from_start` and `start`, and `from_end` and `end`, are mutually inverse. */
  lemma DelimiterRoundTrip(d: Delimiter, c: char)
    ensures DelimiterFromStart(DelimiterStart(d)) == Some(d)
    ensures DelimiterFromEnd(DelimiterEnd(d)) == Some(d)
    ensures DelimiterFromStart(c) == Some(d) <==> DelimiterStart(d) == c
    ensures DelimiterFromEnd(c) == Some(d) <==> DelimiterEnd(d) == c
    ensures DelimiterFromStart(c).None? <==> c !in {'{', '(', '['}
    ensures DelimiterFromEnd(c).None? <==> c !in {'}', ')', ']'}
  {
  }

  datatype Punct = Comma | Colon | Ampersand | Pipe | Equal | Underscore

  function PunctFromChar(c: char): Option<Punct> {
    match c
    case ',' => Some(Comma)
    case ':' => Some(Colon)
    case '&' => Some(Ampersand)
    case '|' => Some(Pipe)
    case '=' => Some(Punct.Equal)
    case _ => None
  }

  /** The character a punctuation mark is displayed as. */
  function PunctChar(p: Punct): char {
    match p
    case Comma => ','
    case Colon => ':'
    case Ampersand => '&'
    case Pipe => '|'
    case Equal => '='
    case Underscore => '_'
  }

  /**
   * `from_char` recognises exactly `, : & | =`, each as the mark displayed
   * by that character, and never produces `Underscore`.
   */
  lemma PunctFromCharSpec(c: char)
    ensures PunctFromChar(c).Some? <==> c in {',', ':', '&', '|', '='}
    ensures PunctFromChar(c).Some? ==> PunctChar(PunctFromChar(c).value) == c
    ensures PunctFromChar(c) != Some(Underscore)
  {
  }

  /** Every mark but `Underscore` is read back from its character. */
  lemma PunctRoundTrip(p: Punct)
    ensures p != Underscore <==> PunctFromChar(PunctChar(p)) == Some(p)
  {
  }

  /** Identifiers; IRI references are kept as their text. */
  datatype Id = Name(name: string) | IriRef(iri: string) | Compact(prefix: string, suffix: string)

  datatype Literal = StringLiteral(text: string) | RegExpLiteral(source: string)

  datatype TokenKind =
    | DocKind
    | PunctKind(punct: Punct)
    | KeywordKind(keyword: Keyword)
    | BeginKind(begin: Delimiter)
    | EndKind(end: Delimiter)
    | IdKind
    | LiteralKind

  datatype Token =
    | Doc(doc: string)
    | PunctToken(punct: Punct)
    | Begin(begin: Delimiter)
    | End(end: Delimiter)
    | KeywordToken(keyword: Keyword)
    | IdToken(id: Id)
    | LiteralToken(literal: Literal)

  function Kind(t: Token): TokenKind {
    match t
    case Doc(_) => DocKind
    case PunctToken(p) => PunctKind(p)
    case Begin(d) => BeginKind(d)
    case End(d) => EndKind(d)
    case KeywordToken(k) => KeywordKind(k)
    case IdToken(_) => IdKind
    case LiteralToken(_) => LiteralKind
  }

  /** A keyword may stand where an identifier is expected. */
  function Matches(a: TokenKind, b: TokenKind): bool {
    match (a, b)
    case (KeywordKind(_), IdKind) => true
    case _ => a == b
  }

  function MatchesAny(a: TokenKind, list: seq<TokenKind>): (r: bool)
    ensures r <==> exists i :: 0 <= i < |list| && Matches(a, list[i])
  {
    if list == [] then false
    else Matches(a, list[0]) || MatchesAny(a, list[1..])
  }

  /**
   * Matching is equality, extended only by keywords matching identifiers:
   * it is reflexive, and two distinct kinds match exactly when the first is
   * a keyword and the second the identifier kind.
   */
  lemma MatchesSpec(a: TokenKind, b: TokenKind)
    ensures Matches(a, a)
    ensures Matches(a, b) <==> a == b || (a.KeywordKind? && b == IdKind)
    ensures b.KeywordKind? && Matches(a, b) ==> a == b
  {
  }

  /** A keyword turned into the identifier of the same name. */
  function NoKeyword(t: Token): Token {
    match t
    case KeywordToken(k) => IdToken(Name(KeywordAsStr(k)))
    case _ => t
  }

  /**
   * After `no_keyword` no keyword is left: a keyword becomes a name that is
   * read back as that keyword, any other token is unchanged, and the kind
   * still matches the original one.
   */
  lemma NoKeywordKind(t: Token)
    ensures !NoKeyword(t).KeywordToken?
    ensures t.KeywordToken? ==>
              NoKeyword(t).IdToken? && NoKeyword(t).id.Name?
              && KeywordFromName(NoKeyword(t).id.name) == Some(t.keyword)
    ensures !t.KeywordToken? ==> NoKeyword(t) == t
    ensures Matches(Kind(t), Kind(NoKeyword(t)))
    ensures NoKeyword(NoKeyword(t)) == NoKeyword(t)
  {
    if t.KeywordToken? {
      KeywordRoundTrip(t.keyword);
    }
  }

  /** The characters with the Unicode `White_Space` property, as `char::is_whitespace`. */
  predicate IsWhitespace(c: char) {
    '\U{0009}' <= c <= '\U{000D}' || c == ' ' || c == '\U{0085}' || c == '\U{00A0}'
    || c == '\U{1680}' || '\U{2000}' <= c <= '\U{200A}' || c == '\U{2028}' || c == '\U{2029}'
    || c == '\U{202F}' || c == '\U{205F}' || c == '\U{3000}'
  }

  /** A `//` line comment, not a `///` documentation comment, starts at `i`. */
  predicate CommentStart(s: string, i: nat) {
    i + 1 < |s| && s[i] == '/' && s[i + 1] == '/' && !(i + 2 < |s| && s[i + 2] == '/')
  }

  /** The skipping stops at `j`: the end of the text, or the start of a token. */
  predicate Stopped(s: string, j: nat) {
    j <= |s| && (j == |s| || (!IsWhitespace(s[j]) && !CommentStart(s, j)))
  }

  /** The position just after the first newline at or after `k`, or the end. */
  function LineEnd(s: string, k: nat): (e: nat)
    requires k <= |s|
    ensures k <= e <= |s|
    ensures forall m :: k <= m < e - 1 ==> s[m] != '\n'
    ensures e == |s| || (e > k && s[e - 1] == '\n')
    decreases |s| - k
  {
    if k == |s| then k
    else if s[k] == '\n' then k + 1
    else LineEnd(s, k + 1)
  }

  /**
   * `s[i..j]` is blank: whitespace characters and complete line comments,
   * each comment running through its newline (or to the end of the text).
   */
  ghost predicate Blank(s: string, i: nat, j: nat)
    decreases j - i
  {
    i <= j <= |s|
    && (i == j
        || (IsWhitespace(s[i]) && Blank(s, i + 1, j))
        || (CommentStart(s, i) && LineEnd(s, i + 2) <= j && Blank(s, LineEnd(s, i + 2), j)))
  }

  /**
   * `skip_whitespaces`: skips whitespace and `//` comments, and stops
   * before a `///` documentation comment or any other character.
   */
  function SkipWhitespaces(s: string, i: nat): (j: nat)
    requires i <= |s|
    ensures i <= j <= |s|
    ensures Blank(s, i, j)
    ensures Stopped(s, j)
    decreases |s| - i
  {
    if i == |s| then i
    else if IsWhitespace(s[i]) then SkipWhitespaces(s, i + 1)
    else if CommentStart(s, i) then SkipWhitespaces(s, LineEnd(s, i + 2))
    else i
  }

  /** Blank text followed by a stopping point is exactly what is skipped. */
  lemma {:induction false} SkipWhitespacesUnique(s: string, i: nat, j: nat)
    requires Blank(s, i, j) && Stopped(s, j)
    ensures SkipWhitespaces(s, i) == j
    decreases j - i
  {
    if i < j {
      if IsWhitespace(s[i]) {
        assert !CommentStart(s, i);
        SkipWhitespacesUnique(s, i + 1, j);
      } else {
        SkipWhitespacesUnique(s, LineEnd(s, i + 2), j);
      }
    }
  }

  /** A documentation comment is never skipped. */
  lemma DocCommentKept(s: string, i: nat)
    requires i + 2 < |s| && s[i] == '/' && s[i + 1] == '/' && s[i + 2] == '/'
    ensures SkipWhitespaces(s, i) == i
  {
  }

  /** A line comment is skipped through its newline. */
  lemma LineCommentSkipped()
    ensures SkipWhitespaces(" // c\nx", 0) == 6
  {
    var s := " // c\nx";
    assert IsWhitespace(s[0]) && CommentStart(s, 1);
    assert LineEnd(s, 5) == 6;
    assert LineEnd(s, 3) == 6;
    assert Stopped(s, 6);
  }

  datatype LexError =
    | InvalidId(id: string)
    | InvalidCodepoint(codepoint: nat)
    | InvalidSuffix(suffix: string)
    | Unexpected(found: Option<char>)

  /** The characters `next_escape` accepts after a backslash. */
  const EscapableChars: set<char> :=
    {'_', '~', '.', '-', '!', '$', '&', '\'', '(', ')', '*', '+', ',', ';', '=', '/', '?', '#', '@', '%'}

  /** Reads the character after a backslash; returns it and the next position. */
  function NextEscape(s: string, i: nat): (r: Result<(char, nat), LexError>)
    requires i <= |s|
    ensures r.Success? <==> i < |s| && s[i] in EscapableChars
    ensures r.Success? ==> r.value == (s[i], i + 1)
    ensures r.Failure? ==> r.error == Unexpected(if i < |s| then Some(s[i]) else None)
  {
    if i < |s| && s[i] in EscapableChars then Success((s[i], i + 1))
    else Failure(Unexpected(if i < |s| then Some(s[i]) else None))
  }

  /** The escapable characters are ASCII punctuation: no letter, digit, space or quote. */
  lemma EscapesArePunctuation(c: char)
    requires c in EscapableChars
    ensures c < '\U{0080}' && !IsWhitespace(c)
    ensures !('a' <= c <= 'z' || 'A' <= c <= 'Z' || '0' <= c <= '9')
    ensures c != '"' && c != '\\'
  {
  }

  predicate IsHexDigit(c: char) {
    '0' <= c <= '9' || 'a' <= c <= 'f' || 'A' <= c <= 'F'
  }

  function HexDigitValue(c: char): (d: nat)
    requires IsHexDigit(c)
    ensures d < 16
  {
    if '0' <= c <= '9' then c as nat - '0' as nat
    else if 'a' <= c <= 'f' then c as nat - 'a' as nat + 10
    else c as nat - 'A' as nat + 10
  }

  /** The value of a string of hexadecimal digits, most significant first. */
  function HexValue(digits: string): nat
    requires forall k :: 0 <= k < |digits| ==> IsHexDigit(digits[k])
  {
    if digits == [] then 0
    else HexValue(digits[..|digits| - 1]) * 16 + HexDigitValue(digits[|digits| - 1])
  }

  const U32_MODULUS: nat := 0x1_0000_0000

  /** A Unicode scalar value: what `char::try_from(u32)` accepts. */
  predicate IsScalarValue(n: nat) {
    n < 0xD800 || 0xE000 <= n <= 0x10FFFF
  }

  /** Shifting in a hex digit on a 32-bit register is the value modulo 2^32. */
  lemma ShiftDigit(h: nat, d: nat)
    requires d < 16
    ensures ((h % U32_MODULUS) * 16) % U32_MODULUS + d == (h * 16 + d) % U32_MODULUS
  {
    var q := h / U32_MODULUS;
    var r := h % U32_MODULUS;
    assert h * 16 + d == q * 16 * U32_MODULUS + (r * 16 + d);
    var q2 := (r * 16) / U32_MODULUS;
    var r2 := (r * 16) % U32_MODULUS;
    assert r * 16 == q2 * U32_MODULUS + r2;
    assert r2 % 16 == 0;
    assert r2 + d < U32_MODULUS;
    assert h * 16 + d == (q * 16 + q2) * U32_MODULUS + (r2 + d);
  }

  /**
   * `next_hex_char`: reads `len` hexadecimal digits into a 32-bit code
   * point (shifting left by four bits per digit, so higher digits fall off)
   * and converts it to a character.
   */
  method NextHexChar(s: string, i: nat, len: nat) returns (r: Result<(char, nat), LexError>)
    requires i <= |s| && len < 256
    ensures r.Success? <==>
              i + len <= |s| && (forall k :: i <= k < i + len ==> IsHexDigit(s[k]))
              && IsScalarValue(HexValue(s[i..i + len]) % U32_MODULUS)
    ensures r.Success? ==> r.value.0 as nat == HexValue(s[i..i + len]) % U32_MODULUS
                           && r.value.1 == i + len
    ensures r.Failure? && r.error.Unexpected? && r.error.found.Some? ==>
              exists k :: i <= k < i + len && k < |s| && s[k] == r.error.found.value && !IsHexDigit(s[k])
                          && forall m :: i <= m < k ==> IsHexDigit(s[m])
    ensures r.Failure? && r.error == Unexpected(None) ==>
              |s| < i + len && forall m :: i <= m < |s| ==> IsHexDigit(s[m])
    ensures r.Failure? && r.error.InvalidCodepoint? ==>
              i + len <= |s| && (forall k :: i <= k < i + len ==> IsHexDigit(s[k]))
              && r.error.codepoint == HexValue(s[i..i + len]) % U32_MODULUS
    ensures r.Failure? ==> r.error.Unexpected? || r.error.InvalidCodepoint?
  {
    var codepoint: nat := 0;
    var k := i;
    while k < i + len
      invariant i <= k <= i + len && k <= |s|
      invariant forall m :: i <= m < k ==> IsHexDigit(s[m])
      invariant codepoint == HexValue(s[i..k]) % U32_MODULUS
    {
      if k == |s| {
        return Failure(Unexpected(None));
      }
      var c := s[k];
      if !IsHexDigit(c) {
        return Failure(Unexpected(Some(c)));
      }
      var d := HexDigitValue(c);
      assert s[i..k + 1][..k - i] == s[i..k];
      ShiftDigit(HexValue(s[i..k]), d);
      codepoint := (codepoint * 16) % U32_MODULUS + d;
      k := k + 1;
    }
    if IsScalarValue(codepoint) {
      r := Success((codepoint as char, k));
    } else {
      r := Failure(InvalidCodepoint(codepoint));
    }
  }

  /** The lexer's label counter: each new label is the number handed out before it. */
  datatype LabelCounter = LabelCounter(count: nat)

  function NextLabel(l: LabelCounter): (r: (nat, LabelCounter))
    ensures r.0 == l.count && r.1.count == r.0 + 1
  {
    (l.count, LabelCounter(l.count + 1))
  }

  /** The labels of `n` successive `next_label` calls, and the counter after them. */
  function NextLabels(l: LabelCounter, n: nat): (r: (seq<nat>, LabelCounter))
    ensures |r.0| == n
    ensures forall a, b :: 0 <= a < b < n ==> r.0[a] < r.0[b]
    ensures forall a :: 0 <= a < n ==> l.count <= r.0[a] < r.1.count
    ensures r.1.count == l.count + n
    decreases n
  {
    if n == 0 then ([], l)
    else
      var (first, l') := NextLabel(l);
      var (rest, l'') := NextLabels(l', n - 1);
      ([first] + rest, l'')
  }
}
