/**
 * The recursive-descent machinery shared by the three generations of the
 * TreeLDR parser, over an abstract stream of tokens: the "expected ..."
 * note, single-token expectations, optional parsing guarded by a FIRST
 * set, and the two styles of comma-separated lists.
 *
 * A stream is the sequence of tokens not read yet; a parser returns what
 * it read and the rest of the stream. The lexer's own errors are not
 * modelled.
 */
module Parsing {
  import opened Wrappers
  import Lexing

  /** Parse errors, over token type `T` and token-kind type `K`. */
  datatype ParseError<T, K> =
    | Unexpected(found: Option<T>, expected: seq<K>)
    | InvalidUseId(id: Lexing.Id)
    | InvalidImportId(id: Lexing.Id)
    | InvalidPrefix(id: Lexing.Id)
    | InvalidAlias(id: Lexing.Id)

  /** The first line of the error message. */
  function ErrorMessage<T, K>(e: ParseError<T, K>, showToken: T -> string, showId: Lexing.Id -> string): string {
    match e
    case Unexpected(None, _) => "unexpected end of text"
    case Unexpected(Some(t), _) => "unexpected " + showToken(t)
    case InvalidUseId(id) => "invalid use IRI `" + showId(id) + "`"
    case InvalidImportId(id) => "invalid import IRI `" + showId(id) + "`"
    case InvalidPrefix(id) => "invalid prefix `" + showId(id) + "`"
    case InvalidAlias(id) => "invalid alias `" + showId(id) + "`"
  }

  /** The end of the text is reported as such, whatever was expected. */
  lemma EndOfTextMessage<T, K>(expected: seq<K>, showToken: T -> string, showId: Lexing.Id -> string)
    ensures ErrorMessage(Unexpected(None, expected), showToken, showId) == "unexpected end of text"
    ensures forall t :: ErrorMessage(Unexpected(Some(t), expected), showToken, showId)
                        == "unexpected " + showToken(t)
  {
  }

  /** The items of `items` joined with `sep`. */
  function Join(items: seq<string>, sep: string): string {
    if items == [] then []
    else if |items| == 1 then items[0]
    else Join(items[..|items| - 1], sep) + sep + items[|items| - 1]
  }

  /**
   * The reference rendering of a list of expected kinds: commas between
   * the kinds, and `lastSep` before the last one.
   */
  function Enumerate(kinds: seq<string>, lastSep: string): string {
    if |kinds| <= 1 then Join(kinds, ", ")
    else Join(kinds[..|kinds| - 1], ", ") + lastSep + kinds[|kinds| - 1]
  }

  /**
   * The diagnostic note of an `Unexpected` error, built as the parsers
   * build it: one pass over the kinds, pushing `", "` before each kind but
   * the first and `lastSep` before the last one. The newest parser uses
   * `" or "`; the two older ones use `"or "`.
   */
  method ExpectedNote(kinds: seq<string>, lastSep: string) returns (notes: seq<string>)
    ensures kinds == [] ==> notes == []
    ensures kinds != [] ==> notes == ["expected " + Enumerate(kinds, lastSep)]
  {
    if kinds == [] {
      return [];
    }
    var note := "expected ";
    var len := |kinds|;
    var i := 0;
    while i < len
      invariant 0 <= i <= len
      invariant i < len ==> note == "expected " + Join(kinds[..i], ", ")
      invariant i == len ==> note == "expected " + Enumerate(kinds, lastSep)
    {
      if i > 0 {
        if i + 1 == len {
          note := note + lastSep;
        } else {
          note := note + ", ";
        }
      }
      note := note + kinds[i];
      assert kinds[..i + 1][..i] == kinds[..i];
      if i + 1 == len {
        assert kinds[..i] == kinds[..|kinds| - 1];
      }
      i := i + 1;
    }
    assert kinds[..len] == kinds;
    return [note];
  }

  lemma JoinOne(a: string, sep: string)
    ensures Join([a], sep) == a
  {
  }

  lemma JoinTwo(a: string, b: string, sep: string)
    ensures Join([a, b], sep) == a + sep + b
  {
    assert [a, b][..1] == [a];
  }

  /**
   * The renderings the parsers produce: one kind alone, and three kinds;
   * the older parsers' separator leaves no space before `or`.
   */
  lemma EnumerateExamples()
    ensures Enumerate(["a"], " or ") == "a"
    ensures Enumerate(["a", "b", "c"], " or ") == "a, b or c"
    ensures Enumerate(["a", "b", "c"], "or ") == "a, bor c"
  {
    assert ["a", "b", "c"][..2] == ["a", "b"];
    JoinTwo("a", "b", ", ");
  }

  /**
   * Reads one token that must be `expected`; otherwise the error names
   * the token found (or the end of the text) and the expected kind. This
   * is `parse_keyword`, `parse_punct` and `parse_end`.
   */
  function ExpectToken<T(==), K>(s: seq<T>, expected: T, kind: K): (r: Result<seq<T>, ParseError<T, K>>)
    ensures r.Success? <==> |s| > 0 && s[0] == expected
    ensures r.Success? ==> r.value == s[1..]
    ensures r.Failure? ==> r.error == Unexpected(if s == [] then None else Some(s[0]), [kind])
  {
    if s == [] then Failure(Unexpected(None, [kind]))
    else if s[0] == expected then Success(s[1..])
    else Failure(Unexpected(Some(s[0]), [kind]))
  }

  /** A parser: the value read and the rest of the stream. */
  type Parser<!T, I, K> = seq<T> -> Result<(I, seq<T>), ParseError<T, K>>

  /** A parser that succeeds reads at least one token. */
  ghost predicate Consumes<T(!new), I(!new), K>(p: Parser<T, I, K>) {
    forall s :: p(s).Success? ==> |p(s).value.1| < |s|
  }

  /**
   * `try_parse`: parses only when the next token starts an item (its kind
   * matches the FIRST set); otherwise reads nothing and returns `None`.
   */
  function TryParse<T(!new), I(!new), K>(p: Parser<T, I, K>, starts: T -> bool, s: seq<T>): (r: Result<(Option<I>, seq<T>), ParseError<T, K>>)
    ensures s == [] || !starts(s[0]) ==> r == Success((None, s))
    ensures s != [] && starts(s[0]) ==>
              (r.Success? <==> p(s).Success?)
              && (r.Success? ==> r.value == (Some(p(s).value.0), p(s).value.1))
              && (r.Failure? ==> r.error == p(s).error)
  {
    if s == [] || !starts(s[0]) then Success((None, s))
    else
      match p(s)
      case Success((x, rest)) => Success((Some(x), rest))
      case Failure(e) => Failure(e)
  }

  /**
   * The newest parser's list: items while the next token starts one, each
   * optionally followed by a comma; the list ends after an item that is
   * not followed by a comma, or when no item starts.
   */
  function CommaList<T(!new), I(!new), K>(p: Parser<T, I, K>, starts: T -> bool, isComma: T -> bool, s: seq<T>): (r: Result<(seq<I>, seq<T>), ParseError<T, K>>)
    requires Consumes(p)
    ensures r.Success? ==> |r.value.1| <= |s|
    decreases |s|
  {
    match TryParse(p, starts, s)
    case Failure(e) => Failure(e)
    case Success((None, rest)) => Success(([], rest))
    case Success((Some(x), rest)) =>
      if rest != [] && isComma(rest[0]) then
        match CommaList(p, starts, isComma, rest[1..])
        case Failure(e) => Failure(e)
        case Success((xs, rest')) => Success(([x] + xs, rest'))
      else Success(([x], rest))
  }

  /**
   * `render` is a printer that `p` inverts: an item prints as a non-empty
   * token sequence that starts an item and that `p` reads back, whatever
   * follows it.
   */
  ghost predicate Inverts<T(!new), I(!new), K>(p: Parser<T, I, K>, render: I -> seq<T>, starts: T -> bool) {
    && (forall x, rest :: p(render(x) + rest) == Success((x, rest)))
    && (forall x :: |render(x)| > 0 && starts(render(x)[0]))
  }

  /** Items printed with a comma between each two. */
  function PrintList<T(!new), I(!new)>(render: I -> seq<T>, comma: T, xs: seq<I>): seq<T> {
    if xs == [] then []
    else if |xs| == 1 then render(xs[0])
    else render(xs[0]) + [comma] + PrintList(render, comma, xs[1..])
  }

  /** Items printed each followed by a comma. */
  function PrintTerminated<T(!new), I(!new)>(render: I -> seq<T>, comma: T, xs: seq<I>): seq<T> {
    if xs == [] then [] else render(xs[0]) + [comma] + PrintTerminated(render, comma, xs[1..])
  }

  /** An item printed in front of a comma reads back, and the list goes on
    * after the comma. */
  lemma CommaStep<T(!new), I(!new), K>(p: Parser<T, I, K>, render: I -> seq<T>, starts: T -> bool,
                                       isComma: T -> bool, comma: T, x: I, tail: seq<T>, ys: seq<I>, rest: seq<T>)
    requires Consumes(p) && Inverts(p, render, starts) && isComma(comma)
    requires CommaList(p, starts, isComma, tail) == Success((ys, rest))
    ensures CommaList(p, starts, isComma, render(x) + [comma] + tail) == Success(([x] + ys, rest))
  {
    var after := [comma] + tail;
    var s := render(x) + after;
    assert render(x) + [comma] + tail == s;
    assert s[0] == render(x)[0];
    assert p(s) == Success((x, after));
    assert after[1..] == tail;
  }

  lemma PrependComma<T>(item: seq<T>, comma: T, tail: seq<T>, rest: seq<T>)
    ensures item + [comma] + tail + rest == item + [comma] + (tail + rest)
  {
  }

  /** An item printed without a comma after it ends the list. */
  lemma CommaLast<T(!new), I(!new), K>(p: Parser<T, I, K>, render: I -> seq<T>, starts: T -> bool,
                                       isComma: T -> bool, x: I, rest: seq<T>)
    requires Consumes(p) && Inverts(p, render, starts)
    requires rest == [] || (!starts(rest[0]) && !isComma(rest[0]))
    ensures CommaList(p, starts, isComma, render(x) + rest) == Success(([x], rest))
  {
    var s := render(x) + rest;
    assert s[0] == render(x)[0];
    assert p(s) == Success((x, rest));
  }

  /**
   * The comma-separated list reads back the items it was printed from,
   * and stops before whatever follows (which neither starts an item nor is
   * a comma).
   */
  lemma {:induction false} CommaListRoundTrip<T(!new), I(!new), K>(p: Parser<T, I, K>, render: I -> seq<T>, starts: T -> bool,
                                                       isComma: T -> bool, comma: T, xs: seq<I>, rest: seq<T>)
    requires Consumes(p) && Inverts(p, render, starts) && isComma(comma)
    requires rest == [] || (!starts(rest[0]) && !isComma(rest[0]))
    ensures CommaList(p, starts, isComma, PrintList(render, comma, xs) + rest) == Success((xs, rest))
    decreases |xs|
  {
    if xs == [] {
      assert PrintList(render, comma, xs) + rest == rest;
    } else if |xs| == 1 {
      assert xs == [xs[0]];
      assert PrintList(render, comma, xs) == render(xs[0]);
      CommaLast(p, render, starts, isComma, xs[0], rest);
    } else {
      var tail := PrintList(render, comma, xs[1..]);
      CommaListRoundTrip(p, render, starts, isComma, comma, xs[1..], rest);
      CommaStep(p, render, starts, isComma, comma, xs[0], tail + rest, xs[1..], rest);
      PrependComma(render(xs[0]), comma, tail, rest);
      assert [xs[0]] + xs[1..] == xs;
    }
  }

  /** With a comma after every item, the list reads up to the first non-item. */
  lemma {:induction false} CommaListTerminatedRoundTrip<T(!new), I(!new), K>(p: Parser<T, I, K>, render: I -> seq<T>, starts: T -> bool,
                                                                 isComma: T -> bool, comma: T, xs: seq<I>, rest: seq<T>)
    requires Consumes(p) && Inverts(p, render, starts) && isComma(comma)
    requires rest == [] || !starts(rest[0])
    ensures CommaList(p, starts, isComma, PrintTerminated(render, comma, xs) + rest) == Success((xs, rest))
    decreases |xs|
  {
    if xs == [] {
      assert PrintTerminated(render, comma, xs) + rest == rest;
    } else {
      var tail := PrintTerminated(render, comma, xs[1..]);
      CommaListTerminatedRoundTrip(p, render, starts, isComma, comma, xs[1..], rest);
      CommaStep(p, render, starts, isComma, comma, xs[0], tail + rest, xs[1..], rest);
      PrependComma(render(xs[0]), comma, tail, rest);
      assert [xs[0]] + xs[1..] == xs;
    }
  }

  /**
   * The older parsers' list, which reads a whole block's tokens: after an
   * item the next token must be a comma (or the end), and an item follows
   * every comma that is not the last token.
   */
  function StrictCommaList<T(!new), I(!new), K>(p: Parser<T, I, K>, isComma: T -> bool, commaKind: K, s: seq<T>): (r: Result<seq<I>, ParseError<T, K>>)
    requires Consumes(p)
    decreases |s|
  {
    if s == [] then Success([])
    else
      match p(s)
      case Failure(e) => Failure(e)
      case Success((x, rest)) =>
        if rest == [] then Success([x])
        else if !isComma(rest[0]) then Failure(Unexpected(Some(rest[0]), [commaKind]))
        else
          match StrictCommaList(p, isComma, commaKind, rest[1..])
          case Failure(e) => Failure(e)
          case Success(xs) => Success([x] + xs)
  }

  /** The strict list reads back what was printed, with or without a trailing comma. */
  lemma StrictCommaListRoundTrip<T(!new), I(!new), K>(p: Parser<T, I, K>, render: I -> seq<T>, starts: T -> bool,
                                                      isComma: T -> bool, comma: T, commaKind: K, xs: seq<I>)
    requires Consumes(p) && Inverts(p, render, starts) && isComma(comma)
    ensures StrictCommaList(p, isComma, commaKind, PrintList(render, comma, xs)) == Success(xs)
    ensures StrictCommaList(p, isComma, commaKind, PrintTerminated(render, comma, xs)) == Success(xs)
  {
    StrictSeparatedRoundTrip(p, render, starts, isComma, comma, commaKind, xs);
    StrictTerminatedRoundTrip(p, render, starts, isComma, comma, commaKind, xs);
  }

  /** An item printed in front of a comma reads back, and the strict list
    * goes on after the comma. */
  lemma StrictCommaStep<T(!new), I(!new), K>(p: Parser<T, I, K>, render: I -> seq<T>, starts: T -> bool,
                                             isComma: T -> bool, comma: T, commaKind: K, x: I, tail: seq<T>, ys: seq<I>)
    requires Consumes(p) && Inverts(p, render, starts) && isComma(comma)
    requires StrictCommaList(p, isComma, commaKind, tail) == Success(ys)
    ensures StrictCommaList(p, isComma, commaKind, render(x) + [comma] + tail) == Success([x] + ys)
  {
    var after := [comma] + tail;
    assert render(x) + [comma] + tail == render(x) + after;
    assert p(render(x) + after) == Success((x, after));
    assert after[1..] == tail;
  }

  lemma {:induction false} StrictSeparatedRoundTrip<T(!new), I(!new), K>(p: Parser<T, I, K>, render: I -> seq<T>, starts: T -> bool,
                                                                isComma: T -> bool, comma: T, commaKind: K, xs: seq<I>)
    requires Consumes(p) && Inverts(p, render, starts) && isComma(comma)
    ensures StrictCommaList(p, isComma, commaKind, PrintList(render, comma, xs)) == Success(xs)
    decreases |xs|
  {
    if |xs| == 1 {
      var x := xs[0];
      assert xs == [x];
      assert PrintList(render, comma, xs) == render(x);
      assert p(render(x) + []) == Success((x, []));
      assert render(x) + [] == render(x);
      assert |render(x)| > 0;
    } else if |xs| > 1 {
      StrictSeparatedRoundTrip(p, render, starts, isComma, comma, commaKind, xs[1..]);
      StrictCommaStep(p, render, starts, isComma, comma, commaKind, xs[0], PrintList(render, comma, xs[1..]), xs[1..]);
      assert [xs[0]] + xs[1..] == xs;
    }
  }

  lemma {:induction false} StrictTerminatedRoundTrip<T(!new), I(!new), K>(p: Parser<T, I, K>, render: I -> seq<T>, starts: T -> bool,
                                                                 isComma: T -> bool, comma: T, commaKind: K, xs: seq<I>)
    requires Consumes(p) && Inverts(p, render, starts) && isComma(comma)
    ensures StrictCommaList(p, isComma, commaKind, PrintTerminated(render, comma, xs)) == Success(xs)
    decreases |xs|
  {
    if xs != [] {
      StrictTerminatedRoundTrip(p, render, starts, isComma, comma, commaKind, xs[1..]);
      StrictCommaStep(p, render, starts, isComma, comma, commaKind, xs[0], PrintTerminated(render, comma, xs[1..]), xs[1..]);
      assert [xs[0]] + xs[1..] == xs;
    }
  }

  /** After an item, a token other than a comma is an error naming it. */
  lemma StrictCommaListMissingComma<T(!new), I(!new), K>(p: Parser<T, I, K>, render: I -> seq<T>, starts: T -> bool,
                                             isComma: T -> bool, commaKind: K, x: I, t: T, rest: seq<T>)
    requires Consumes(p) && Inverts(p, render, starts) && !isComma(t)
    ensures StrictCommaList(p, isComma, commaKind, render(x) + [t] + rest) == Failure(Unexpected(Some(t), [commaKind]))
  {
    assert render(x) + [t] + rest == render(x) + ([t] + rest);
    assert p(render(x) + ([t] + rest)) == Success((x, [t] + rest));
  }
}
