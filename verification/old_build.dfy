/**
 * The first-generation builder of the TreeLDR language
 * (`syntax/src/build-old.rs`): documentation comments, prefix
 * declarations, the document's base IRI, literal types and RDF
 * collections.
 */
module OldBuild {
  import opened Wrappers
  import Lexing
  import Parsing

  datatype Error =
    | AlreadyDefinedPrefix(prefix: string)
    | UndefinedPrefix(prefix: string)
    | InvalidExpandedCompactIri(text: string)
    | NoBaseIri
    | BaseIriMismatch(expected: string, found: string)

  // ---------------------------------------------------------------------------
  // Trimming
  // ---------------------------------------------------------------------------

  /** The number of whitespace characters `s` starts with. */
  function Leading(s: string): (n: nat)
    ensures n <= |s|
  {
    if s == [] || !Lexing.IsWhitespace(s[0]) then 0 else 1 + Leading(s[1..])
  }

  lemma {:induction false} LeadingSpec(s: string)
    ensures forall i :: 0 <= i < Leading(s) ==> Lexing.IsWhitespace(s[i])
    ensures Leading(s) < |s| ==> !Lexing.IsWhitespace(s[Leading(s)])
  {
    if s != [] && Lexing.IsWhitespace(s[0]) {
      LeadingSpec(s[1..]);
    }
  }

  /** The number of whitespace characters `s` ends with. */
  function Trailing(s: string): (n: nat)
    ensures n <= |s|
  {
    if s == [] || !Lexing.IsWhitespace(s[|s| - 1]) then 0 else 1 + Trailing(s[..|s| - 1])
  }

  lemma {:induction false} TrailingSpec(s: string)
    ensures forall i :: |s| - Trailing(s) <= i < |s| ==> Lexing.IsWhitespace(s[i])
    ensures Trailing(s) < |s| ==> !Lexing.IsWhitespace(s[|s| - Trailing(s) - 1])
  {
    if s != [] && Lexing.IsWhitespace(s[|s| - 1]) {
      TrailingSpec(s[..|s| - 1]);
    }
  }

  /** `s` without its leading and trailing whitespace, as `str::trim`. */
  function Trim(s: string): (r: string)
    ensures |r| <= |s|
  {
    var rest := s[Leading(s)..];
    rest[..|rest| - Trailing(rest)]
  }

  /** The trimmed string is the slice of `s` after its leading whitespace,
    * followed in `s` only by whitespace, and it neither starts nor ends
    * with whitespace. */
  lemma TrimSpec(s: string)
    ensures Leading(s) + |Trim(s)| <= |s| && Trim(s) == s[Leading(s)..Leading(s) + |Trim(s)|]
    ensures forall i :: 0 <= i < Leading(s) ==> Lexing.IsWhitespace(s[i])
    ensures forall i :: Leading(s) + |Trim(s)| <= i < |s| ==> Lexing.IsWhitespace(s[i])
    ensures Trim(s) != [] ==> !Lexing.IsWhitespace(Trim(s)[0]) && !Lexing.IsWhitespace(Trim(s)[|Trim(s)| - 1])
  {
    LeadingSpec(s);
    TrimTail(s);
    TrimEnds(s);
  }

  /** What follows the trimmed slice is whitespace. */
  lemma TrimTail(s: string)
    ensures Leading(s) + |Trim(s)| <= |s| && Trim(s) == s[Leading(s)..Leading(s) + |Trim(s)|]
    ensures forall i :: Leading(s) + |Trim(s)| <= i < |s| ==> Lexing.IsWhitespace(s[i])
  {
    var a := Leading(s);
    var rest := s[a..];
    TrailingSpec(rest);
    forall i | a + |Trim(s)| <= i < |s| ensures Lexing.IsWhitespace(s[i]) {
      assert s[i] == rest[i - a];
    }
  }

  /** The trimmed slice neither starts nor ends with whitespace. */
  lemma TrimEnds(s: string)
    ensures Trim(s) != [] ==> !Lexing.IsWhitespace(Trim(s)[0]) && !Lexing.IsWhitespace(Trim(s)[|Trim(s)| - 1])
  {
    var a := Leading(s);
    var rest := s[a..];
    var t := Trim(s);
    if t != [] {
      LeadingSpec(s);
      TrailingSpec(rest);
      assert t[0] == rest[0] == s[a];
      assert t[|t| - 1] == rest[|rest| - Trailing(rest) - 1];
    }
  }

  /** A line trims to nothing exactly when it is all whitespace. */
  lemma TrimEmpty(s: string)
    ensures Trim(s) == [] <==> forall i :: 0 <= i < |s| ==> Lexing.IsWhitespace(s[i])
  {
    TrimSpec(s);
    if Trim(s) != [] {
      assert s[Leading(s)] == Trim(s)[0];
    }
  }

  /** Trimming twice trims nothing more. */
  lemma TrimIdempotent(s: string)
    ensures Trim(Trim(s)) == Trim(s)
  {
    var t := Trim(s);
    TrimSpec(s);
    if t != [] {
      assert Leading(t) == 0;
      assert Trailing(t) == 0;
    }
  }

  // ---------------------------------------------------------------------------
  // Documentation comments
  // ---------------------------------------------------------------------------

  function TrimAll(lines: seq<string>): (r: seq<string>)
    ensures |r| == |lines| && forall i :: 0 <= i < |lines| ==> r[i] == Trim(lines[i])
  {
    seq(|lines|, i requires 0 <= i < |lines| => Trim(lines[i]))
  }

  /** The strings of `xs`, concatenated. */
  function Concat(xs: seq<string>): string {
    if xs == [] then [] else Concat(xs[..|xs| - 1]) + xs[|xs| - 1]
  }

  /** The index of the first empty line, or the number of lines. */
  function FirstEmpty(ts: seq<string>): (k: nat)
    ensures k <= |ts|
    ensures forall i :: 0 <= i < k ==> ts[i] != []
    ensures k < |ts| ==> ts[k] == []
  {
    if ts == [] then 0
    else if ts[0] == [] then 0
    else 1 + FirstEmpty(ts[1..])
  }

  /** `xs` without its leading empty strings. */
  function DropLeadingEmpty(xs: seq<string>): (r: seq<string>)
    ensures r == [] || r[0] != []
    ensures |r| <= |xs|
  {
    if xs == [] then [] else if xs[0] == [] then DropLeadingEmpty(xs[1..]) else xs
  }

  /** The label of trimmed documentation lines: the lines before the first
    * empty one, concatenated without separator. */
  function LabelOf(ts: seq<string>): string {
    Concat(ts[..FirstEmpty(ts)])
  }

  /** The description of trimmed documentation lines: the lines after the
    * first empty one, joined with newlines, leading empty lines dropped. */
  function DescriptionOf(ts: seq<string>): string {
    if FirstEmpty(ts) == |ts| then []
    else Parsing.Join(DropLeadingEmpty(ts[FirstEmpty(ts) + 1..]), "\n")
  }

  /** The label and description of a documentation comment's lines. */
  function DocLabel(lines: seq<string>): string {
    LabelOf(TrimAll(lines))
  }

  function DocDescription(lines: seq<string>): string {
    DescriptionOf(TrimAll(lines))
  }

  lemma {:induction false} DropLeadingEmptySnoc(xs: seq<string>, x: string)
    ensures DropLeadingEmpty(xs + [x]) ==
      if DropLeadingEmpty(xs) == [] then (if x == [] then [] else [x]) else DropLeadingEmpty(xs) + [x]
  {
    if xs == [] {
      assert xs + [x] == [x];
      assert [x][1..] == [];
    } else {
      assert (xs + [x])[1..] == xs[1..] + [x];
      DropLeadingEmptySnoc(xs[1..], x);
    }
  }

  /** A join is empty exactly when the items are, once the leading empty
    * items are gone. */
  lemma {:induction false} JoinEmpty(ys: seq<string>)
    requires ys == [] || ys[0] != []
    ensures Parsing.Join(ys, "\n") == [] <==> ys == []
    decreases |ys|
  {
    if |ys| > 1 {
      JoinEmpty(ys[..|ys| - 1]);
    }
  }

  /** Appending a line to the description: a newline first unless the
    * description is still empty. */
  lemma DescriptionStep(before: seq<string>, line: string, description: string)
    requires description == Parsing.Join(DropLeadingEmpty(before), "\n")
    ensures (if description != [] then description + "\n" + line else description + line)
      == Parsing.Join(DropLeadingEmpty(before + [line]), "\n")
  {
    DropLeadingEmptySnoc(before, line);
    JoinEmpty(DropLeadingEmpty(before));
    if description != [] {
      var ys := DropLeadingEmpty(before) + [line];
      assert ys[..|ys| - 1] == DropLeadingEmpty(before);
    }
  }

  lemma ConcatSnoc(xs: seq<string>, x: string)
    ensures Concat(xs + [x]) == Concat(xs) + x
  {
    assert (xs + [x])[..|xs|] == xs;
  }

  /** One line of the label, before the first empty line. */
  lemma LabelStep(ts: seq<string>, i: nat, title: string)
    requires i < FirstEmpty(ts) && title == Concat(ts[..i])
    ensures title + ts[i] == Concat(ts[..i + 1])
    ensures ts[..FirstEmpty(ts)] == ts[..i + 1] ==> title + ts[i] == LabelOf(ts)
  {
    ConcatSnoc(ts[..i], ts[i]);
    assert ts[..i + 1] == ts[..i] + [ts[i]];
  }

  /** One line of the description, after the first empty line. */
  lemma DescriptionLine(ts: seq<string>, k: nat, i: nat, description: string)
    requires k < i < |ts| && description == Parsing.Join(DropLeadingEmpty(ts[k + 1..i]), "\n")
    ensures (if description != [] then description + "\n" + ts[i] else description + ts[i])
      == Parsing.Join(DropLeadingEmpty(ts[k + 1..i + 1]), "\n")
  {
    SliceSnoc(ts, k + 1, i);
    DescriptionStep(ts[k + 1..i], ts[i], description);
  }

  /** A slice extended by one is the slice followed by that item. */
  lemma SliceSnoc<X>(xs: seq<X>, a: nat, b: nat)
    requires a <= b < |xs|
    ensures xs[a..b + 1] == xs[a..b] + [xs[b]]
  {
  }

  /** At the first empty line the label is complete and the description
    * still empty. */
  lemma SeparatorStep(ts: seq<string>, title: string)
    requires FirstEmpty(ts) < |ts| && title == Concat(ts[..FirstEmpty(ts)])
    ensures title == LabelOf(ts)
    ensures [] == Parsing.Join(DropLeadingEmpty(ts[FirstEmpty(ts) + 1..FirstEmpty(ts) + 1]), "\n")
  {
    var k := FirstEmpty(ts);
    assert ts[k + 1..k + 1] == [];
    assert DropLeadingEmpty([]) == [];
  }

  /** A trimmed line is empty exactly when trimming it again gives nothing. */
  lemma TrimmedBlank(line: string, t: string)
    requires t == Trim(line)
    ensures Trim(t) == [] <==> t == []
  {
    TrimIdempotent(line);
  }

  /** What the pass over the lines has built after the first `i` of the
    * trimmed lines `ts`. */
  ghost predicate DocPassed(ts: seq<string>, i: nat, separated: bool, title: string, description: string) {
    i <= |ts|
    && (separated <==> FirstEmpty(ts) < i)
    && (!separated ==> title == Concat(ts[..i]) && description == [])
    && (separated ==> title == LabelOf(ts))
    && (separated ==> description == Parsing.Join(DropLeadingEmpty(ts[FirstEmpty(ts) + 1..i]), "\n"))
  }

  /** Handles one line of a documentation comment. */
  method DocLine(ts: seq<string>, i: nat, line: string, separated: bool, title: string, description: string)
    returns (separated': bool, title': string, description': string)
    requires i < |ts| && ts[i] == line && (Trim(line) == [] <==> line == [])
    requires DocPassed(ts, i, separated, title, description)
    ensures DocPassed(ts, i + 1, separated', title', description')
  {
    separated', title', description' := separated, title, description;
    if separated {
      DescriptionLine(ts, FirstEmpty(ts), i, description);
      if description != [] {
        description' := description' + "\n";
      }
      description' := description' + line;
    } else if Trim(line) == [] {
      SeparatorStep(ts, title);
      separated' := true;
    } else {
      LabelStep(ts, i, title);
      title' := title' + line;
    }
  }

  /** Splits a documentation comment into its label and description, in one
    * pass over the lines, trimming each. */
  method DocParts(lines: seq<string>) returns (title: string, description: string)
    ensures title == DocLabel(lines)
    ensures description == DocDescription(lines)
  {
    var ts := TrimAll(lines);
    title := [];
    description := [];
    var separated := false;
    var i := 0;
    while i < |lines|
      invariant |ts| == |lines|
      invariant DocPassed(ts, i, separated, title, description)
    {
      var line := Trim(lines[i]);
      TrimmedBlank(lines[i], line);
      separated, title, description := DocLine(ts, i, line, separated, title, description);
      i := i + 1;
    }
    if !separated {
      assert ts[..i] == ts[..FirstEmpty(ts)];
    } else {
      assert ts[FirstEmpty(ts) + 1..i] == ts[FirstEmpty(ts) + 1..];
    }
  }

  datatype DocQuad = LabelQuad(subject: string, text: string) | CommentQuad(subject: string, text: string)

  /** The quads of a documentation comment: a label quad when the label is
    * not empty, then a comment quad when the description is not empty. */
  method BuildDoc(lines: seq<string>, subject: string) returns (quads: seq<DocQuad>)
    ensures quads == (if DocLabel(lines) != [] then [LabelQuad(subject, DocLabel(lines))] else [])
      + (if DocDescription(lines) != [] then [CommentQuad(subject, DocDescription(lines))] else [])
  {
    var title, description := DocParts(lines);
    quads := [];
    if title != [] {
      quads := quads + [LabelQuad(subject, title)];
    }
    if description != [] {
      quads := quads + [CommentQuad(subject, description)];
    }
  }

  /** Lines before the first empty one form the label; empty lines right
    * after the separator do not start the description with a newline,
    * later ones do. */
  lemma DocExample()
    ensures LabelOf(["A", "person."]) == "Aperson."
    ensures DescriptionOf(["A", "person."]) == []
    ensures DescriptionOf(["Title", "", "", "Body", "", "End"]) == "Body\n\nEnd"
  {
    assert FirstEmpty(["A", "person."]) == 2 by {
      assert ["A", "person."][1..] == ["person."];
      assert ["person."][1..] == [];
    }
    assert ["A", "person."][..2] == ["A", "person."];
    assert Concat(["A", "person."]) == "Aperson." by { assert ["A", "person."][..1] == ["A"]; assert ["A"][..0] == []; }
    var body := ["Title", "", "", "Body", "", "End"];
    assert FirstEmpty(body) == 1 by { assert body[1..] == ["", "", "Body", "", "End"]; }
    var rest := body[2..];
    assert rest == ["", "Body", "", "End"];
    assert DropLeadingEmpty(rest) == ["Body", "", "End"] by { assert rest[1..] == ["Body", "", "End"]; }
    var ys := ["Body", "", "End"];
    assert ys[..2] == ["Body", ""];
    assert ys[..2][..1] == ["Body"];
    assert Parsing.Join(["Body"], "\n") == "Body";
    assert Parsing.Join(["Body", ""], "\n") == "Body\n" + "";
    assert Parsing.Join(ys, "\n") == "Body\n" + "\n" + "End";
  }

  /** Trimming strips spaces on both sides. */
  lemma TrimExample()
    ensures Trim(" A ") == "A"
  {
    assert Leading(" A ") == 1 by { assert " A "[1..] == "A "; }
    assert " A "[1..] == "A ";
    assert Trailing("A ") == 1 by { assert "A "[..1] == "A"; }
    assert "A "[..1] == "A";
  }

  // ---------------------------------------------------------------------------
  // Prefixes and the base IRI
  // ---------------------------------------------------------------------------

  /** Declares a prefix; a prefix is declared at most once. */
  function DeclarePrefix(prefixes: map<string, string>, prefix: string, iri: string): (r: Result<map<string, string>, Error>)
    ensures r.Failure? <==> prefix in prefixes
    ensures r.Failure? ==> r.error == AlreadyDefinedPrefix(prefix)
    ensures r.Success? ==> r.value.Keys == prefixes.Keys + {prefix} && r.value[prefix] == iri
    ensures r.Success? ==> forall p :: p in prefixes ==> r.value[p] == prefixes[p]
  {
    if prefix in prefixes then Failure(AlreadyDefinedPrefix(prefix)) else Success(prefixes[prefix := iri])
  }

  /** Expands `prefix:suffix` by concatenation; the result must be an IRI. */
  function ExpandCompactIri(prefixes: map<string, string>, isIri: string -> bool, prefix: string, suffix: string): (r: Result<string, Error>)
    ensures prefix !in prefixes <==> r == Failure(UndefinedPrefix(prefix))
    ensures r.Success? <==> prefix in prefixes && isIri(prefixes[prefix] + suffix)
    ensures r.Success? ==> r.value == prefixes[prefix] + suffix
    ensures prefix in prefixes && r.Failure? ==> r.error == InvalidExpandedCompactIri(prefixes[prefix] + suffix)
  {
    if prefix in prefixes then
      var expanded := prefixes[prefix] + suffix;
      if isIri(expanded) then Success(expanded) else Failure(InvalidExpandedCompactIri(expanded))
    else Failure(UndefinedPrefix(prefix))
  }

  /** A freshly declared prefix expands to its IRI followed by the suffix. */
  lemma DeclareThenExpand(prefixes: map<string, string>, isIri: string -> bool, prefix: string, iri: string, suffix: string)
    requires prefix !in prefixes && isIri(iri + suffix)
    ensures ExpandCompactIri(DeclarePrefix(prefixes, prefix, iri).value, isIri, prefix, suffix) == Success(iri + suffix)
  {
  }

  /** The base IRI relative references resolve against: the enclosing
    * definition's IRI with its path opened as a directory, or else the
    * document's base. */
  function BaseIri(scope: Option<string>, base: Option<string>, openPath: string -> string): (r: Result<string, Error>)
    ensures r.Failure? <==> scope.None? && base.None?
    ensures r.Failure? ==> r.error == NoBaseIri
    ensures scope.Some? ==> r == Success(openPath(scope.value))
    ensures scope.None? && base.Some? ==> r == Success(base.value)
  {
    match scope
    case Some(iri) => Success(openPath(iri))
    case None => if base.Some? then Success(base.value) else Failure(NoBaseIri)
  }

  /** The document's `base` declarations as checked: the declared base is
    * taken out of its slot when a later declaration is compared with it and
    * only put back when the slot was empty.  Returns the final base IRI. */
  function CheckBasesAsWritten(bases: seq<string>, declared: Option<string>, base: Option<string>): (r: Result<Option<string>, Error>)
    ensures r.Failure? ==> r.error.BaseIriMismatch? && r.error.found in bases && r.error.expected != r.error.found
    ensures (declared.Some? ==> base == declared) && r.Success? ==>
      r.value == (if bases == [] then base else Some(bases[|bases| - 1]))
    decreases |bases|
  {
    if bases == [] then Success(base)
    else match declared
      case Some(d) =>
        if d != bases[0] then Failure(BaseIriMismatch(d, bases[0]))
        else CheckBasesAsWritten(bases[1..], None, base)
      case None => CheckBasesAsWritten(bases[1..], Some(bases[0]), Some(bases[0]))
  }

  /** Declaring the same base twice empties the slot, so a third, different
    * base is accepted and replaces it. */
  lemma SameBaseTwiceThenOther()
    ensures CheckBasesAsWritten(["a", "a", "b"], None, None) == Success(Some("b"))
    ensures CheckBases(["a", "a", "b"]) == Failure(BaseIriMismatch("a", "b"))
  {
    assert ["a", "a", "b"][1..] == ["a", "b"];
    assert ["a", "b"][1..] == ["b"];
    assert ["b"][1..] == [];
    assert CheckBasesFrom(["a", "b"], "a") == Failure(BaseIriMismatch("a", "b"));
  }

  /** The comparison the check means to make: every later base against the
    * first one. */
  function CheckBasesFrom(bases: seq<string>, first: string): (r: Result<Option<string>, Error>)
    ensures r.Success? <==> forall i :: 0 <= i < |bases| ==> bases[i] == first
    ensures r.Success? ==> r.value == Some(first)
    ensures r.Failure? ==> r.error.BaseIriMismatch? && r.error.expected == first && r.error.found in bases && r.error.found != first
  {
    if bases == [] then Success(Some(first))
    else if bases[0] != first then Failure(BaseIriMismatch(first, bases[0]))
    else CheckBasesFrom(bases[1..], first)
  }

  /** Accepts the base declarations when they all agree, and reports the
    * first that differs from the first one otherwise. */
  function CheckBases(bases: seq<string>): (r: Result<Option<string>, Error>)
    ensures bases == [] ==> r == Success(None)
    ensures bases != [] ==> (r.Success? <==> forall i :: 0 <= i < |bases| ==> bases[i] == bases[0])
    ensures bases != [] && r.Success? ==> r.value == Some(bases[0])
  {
    if bases == [] then Success(None) else CheckBasesFrom(bases[1..], bases[0])
  }

  /** The two agree on up to two declarations. */
  lemma CheckBasesShort(bases: seq<string>)
    requires |bases| <= 2
    ensures CheckBasesAsWritten(bases, None, None) == CheckBases(bases)
  {
    if |bases| == 2 {
      assert bases[1..] == [bases[1]];
      assert [bases[1]][1..] == [];
      assert CheckBasesAsWritten(bases, None, None) == CheckBasesAsWritten([bases[1]], Some(bases[0]), Some(bases[0]));
      assert CheckBases(bases) == CheckBasesFrom([bases[1]], bases[0]);
    } else if |bases| == 1 {
      assert bases[1..] == [];
    }
  }

  // ---------------------------------------------------------------------------
  // Literal types
  // ---------------------------------------------------------------------------

  datatype Literal = StringLiteral(text: string) | RegExpLiteral(source: string)

  /** A node identifier: an IRI, or a blank node label. */
  datatype NodeId = IriId(iri: string) | BlankId(index: nat)

  /** The statements emitted for a literal type. */
  datatype LiteralQuad =
    | TypeIsClass(id: NodeId)
    | TypeIsLayout(id: NodeId)
    | LayoutFor(id: NodeId)
    | Singleton(id: NodeId, text: string)
    | MatchesRegExp(id: NodeId, source: string)

  /** The literal types defined so far, the id reserved for the next
    * definition, and the blank node generator. */
  datatype LiteralContext = LiteralContext(literals: map<Literal, NodeId>, nextId: Option<NodeId>, blanks: nat)

  ghost predicate BlanksFresh(c: LiteralContext) {
    (forall l :: l in c.literals && c.literals[l].BlankId? ==> c.literals[l].index < c.blanks)
    && (c.nextId.Some? && c.nextId.value.BlankId? ==> c.nextId.value.index < c.blanks)
  }

  /** The id of a literal type: the existing one when the literal was seen
    * before, otherwise the reserved id or a fresh blank node, with the type
    * declared as a class and layout when it is blank.  The reserved id is
    * used up in both cases. */
  function InsertLiteral(c: LiteralContext, lit: Literal): (r: (LiteralContext, NodeId, seq<LiteralQuad>))
    ensures r.0.nextId.None?
    ensures lit in c.literals ==> r.1 == c.literals[lit] && r.2 == [] && r.0.literals == c.literals
    ensures lit !in c.literals ==> r.0.literals == c.literals[lit := r.1]
    ensures lit !in c.literals && c.nextId.Some? ==> r.1 == c.nextId.value
    ensures lit !in c.literals && r.1.BlankId? ==> |r.2| == 4 && r.2[..3] == [TypeIsClass(r.1), TypeIsLayout(r.1), LayoutFor(r.1)]
    ensures lit !in c.literals && r.1.IriId? ==> |r.2| == 1
    ensures lit !in c.literals ==> r.2[|r.2| - 1] == (if lit.StringLiteral? then Singleton(r.1, lit.text) else MatchesRegExp(r.1, lit.source))
    ensures BlanksFresh(c) ==> BlanksFresh(r.0)
  {
    if lit in c.literals then (c.(nextId := None), c.literals[lit], [])
    else
      var (id, blanks) := if c.nextId.Some? then (c.nextId.value, c.blanks) else (BlankId(c.blanks), c.blanks + 1);
      var header := if id.BlankId? then [TypeIsClass(id), TypeIsLayout(id), LayoutFor(id)] else [];
      var body := match lit
        case StringLiteral(s) => Singleton(id, s)
        case RegExpLiteral(e) => MatchesRegExp(id, e);
      (LiteralContext(c.literals[lit := id], None, blanks), id, header + [body])
  }

  /** Inserting a literal twice yields the same id and no new statements. */
  lemma InsertLiteralTwice(c: LiteralContext, lit: Literal)
    ensures var (c1, id1, _) := InsertLiteral(c, lit);
      InsertLiteral(c1, lit).1 == id1 && InsertLiteral(c1, lit).2 == []
  {
  }

  /** A fresh literal's blank id differs from every other literal's. */
  lemma InsertLiteralFresh(c: LiteralContext, lit: Literal, other: Literal)
    requires BlanksFresh(c) && lit !in c.literals && c.nextId.None? && other in c.literals
    ensures InsertLiteral(c, lit).1 != c.literals[other]
  {
  }

  // ---------------------------------------------------------------------------
  // RDF collections
  // ---------------------------------------------------------------------------

  /** The objects of a collection statement. */
  datatype Term<O> = Nil | ListClass | Blank(index: nat) | Value(value: O)

  datatype ListProperty = RdfType | RdfFirst | RdfRest

  datatype ListQuad<O> = ListQuad(subject: nat, property: ListProperty, target: Term<O>)

  /** The three statements of the collection node labelled `node`. */
  function NodeQuads<O>(node: nat, first: O, rest: Term<O>): seq<ListQuad<O>> {
    [ListQuad(node, RdfType, ListClass), ListQuad(node, RdfFirst, Value(first)), ListQuad(node, RdfRest, rest)]
  }

  /** The statements of the `j`-th node built. */
  function NodeAt<O>(quads: seq<ListQuad<O>>, j: nat): seq<ListQuad<O>>
    requires 3 * j + 3 <= |quads|
  {
    quads[3 * j..3 * j + 3]
  }

  /** The first `k` nodes of the collection of `items` are in `quads`:
    * nodes are built from the last item backwards, the `j`-th one holding
    * `items[|items| - 1 - j]` under blank label `next + j` and pointing to
    * the node built before it, or to `rdf:nil`. */
  ghost predicate BuiltNodes<O>(quads: seq<ListQuad<O>>, items: seq<O>, next: nat, k: nat)
    requires k <= |items| && |quads| == 3 * k
  {
    forall j :: 0 <= j < k ==>
      NodeAt(quads, j) == NodeQuads(next + j, items[|items| - 1 - j], if j == 0 then Nil else Blank(next + j - 1))
  }

  /** Builds an RDF collection of `items` (section 5.2 of RDF Schema 1.1),
    * from the last item to the first; returns the head and the next free
    * blank label. */
  method RdfList<O>(items: seq<O>, next: nat) returns (head: Term<O>, quads: seq<ListQuad<O>>, next': nat)
    ensures next' == next + |items|
    ensures |quads| == 3 * |items|
    ensures items == [] ==> head == Nil
    ensures items != [] ==> head == Blank(next + |items| - 1)
    ensures BuiltNodes(quads, items, next, |items|)
  {
    var n := |items|;
    head := Nil;
    quads := [];
    next' := next;
    var k := 0;
    while k < n
      invariant 0 <= k <= n
      invariant next' == next + k
      invariant |quads| == 3 * k
      invariant k == 0 ==> head == Nil
      invariant k > 0 ==> head == Blank(next + k - 1)
      invariant BuiltNodes(quads, items, next, k)
    {
      var created := next';
      var node := NodeQuads(created, items[n - 1 - k], head);
      var before := quads;
      quads := quads + node;
      forall j | 0 <= j < k + 1
        ensures NodeAt(quads, j) == NodeQuads(next + j, items[n - 1 - j], if j == 0 then Nil else Blank(next + j - 1))
      {
        if j < k {
          assert NodeAt(quads, j) == NodeAt(before, j);
        } else {
          assert NodeAt(quads, j) == node;
        }
      }
      head := Blank(created);
      next' := next' + 1;
      k := k + 1;
    }
  }

  /** The first object of a statement about `subject` with `property`. */
  function Lookup<O>(quads: seq<ListQuad<O>>, subject: nat, property: ListProperty): Option<Term<O>> {
    if quads == [] then None
    else if quads[0].subject == subject && quads[0].property == property then Some(quads[0].target)
    else Lookup(quads[1..], subject, property)
  }

  /** A lookup finds a statement of `quads`, and fails only when there is
    * none about `subject` with `property`. */
  lemma {:induction false} LookupSpec<O>(quads: seq<ListQuad<O>>, subject: nat, property: ListProperty)
    ensures Lookup(quads, subject, property).Some? ==> ListQuad(subject, property, Lookup(quads, subject, property).value) in quads
    ensures Lookup(quads, subject, property).None? <==> forall q :: q in quads ==> q.subject != subject || q.property != property
  {
    if quads != [] {
      LookupSpec(quads[1..], subject, property);
      assert forall q :: q in quads ==> q == quads[0] || q in quads[1..];
    }
  }

  /** Reads a collection back from its statements by following `rdf:rest`
    * from `head` to `rdf:nil`, for at most `fuel` nodes. */
  function ReadList<O>(quads: seq<ListQuad<O>>, head: Term<O>, fuel: nat): Option<seq<O>>
    decreases fuel
  {
    if head == Nil then Some([])
    else if !head.Blank? || fuel == 0 then None
    else
      var first := Lookup(quads, head.index, RdfFirst);
      var rest := Lookup(quads, head.index, RdfRest);
      if first.Some? && first.value.Value? && rest.Some? then
        match ReadList(quads, rest.value, fuel - 1)
        case Some(tail) => Some([first.value.value] + tail)
        case None => None
      else None
  }

  lemma {:induction false} LookupSkip<O>(quads: seq<ListQuad<O>>, p: nat, subject: nat, property: ListProperty)
    requires p <= |quads| && forall q :: 0 <= q < p ==> quads[q].subject != subject
    ensures Lookup(quads, subject, property) == Lookup(quads[p..], subject, property)
    decreases p
  {
    if p > 0 {
      assert quads[1..][p - 1..] == quads[p..];
      LookupSkip(quads[1..], p - 1, subject, property);
    }
  }

  /** Every statement of a built collection is about the label of the node
    * it belongs to. */
  lemma NodeSubject<O>(quads: seq<ListQuad<O>>, items: seq<O>, next: nat, q: nat)
    requires |quads| == 3 * |items| && BuiltNodes(quads, items, next, |items|) && q < |quads|
    ensures quads[q].subject == next + q / 3
  {
    var m := q / 3;
    assert NodeAt(quads, m) == NodeQuads(next + m, items[|items| - 1 - m], if m == 0 then Nil else Blank(next + m - 1));
    assert quads[q] == NodeAt(quads, m)[q - 3 * m];
  }

  /** The first statements about `s` are those of a node at `p`. */
  lemma LookupAt<O>(quads: seq<ListQuad<O>>, p: nat, s: nat, first: O, rest: Term<O>)
    requires p + 3 <= |quads|
    requires quads[p] == ListQuad(s, RdfType, ListClass)
    requires quads[p + 1] == ListQuad(s, RdfFirst, Value(first))
    requires quads[p + 2] == ListQuad(s, RdfRest, rest)
    requires forall q :: 0 <= q < p ==> quads[q].subject != s
    ensures Lookup(quads, s, RdfFirst) == Some(Value(first))
    ensures Lookup(quads, s, RdfRest) == Some(rest)
  {
    LookupSkip(quads, p, s, RdfFirst);
    LookupSkip(quads, p, s, RdfRest);
    var tail := quads[p..];
    assert tail[1..] == quads[p + 1..];
    assert tail[1..][1..] == quads[p + 2..];
    assert Lookup(tail[1..][1..], s, RdfRest) == Some(rest);
    assert Lookup(tail[1..], s, RdfRest) == Lookup(tail[1..][1..], s, RdfRest);
    assert Lookup(tail, s, RdfRest) == Lookup(tail[1..], s, RdfRest);
  }

  /** In a built collection, the first statements about a node's label are
    * the node's own. */
  lemma LookupNode<O>(quads: seq<ListQuad<O>>, items: seq<O>, next: nat, j: nat)
    requires |quads| == 3 * |items| && BuiltNodes(quads, items, next, |items|) && j < |items|
    ensures Lookup(quads, next + j, RdfFirst) == Some(Value(items[|items| - 1 - j]))
    ensures Lookup(quads, next + j, RdfRest) == Some(if j == 0 then Nil else Blank(next + j - 1))
  {
    forall q | 0 <= q < 3 * j ensures quads[q].subject != next + j {
      NodeSubject(quads, items, next, q);
    }
    var node := NodeAt(quads, j);
    assert node == NodeQuads(next + j, items[|items| - 1 - j], if j == 0 then Nil else Blank(next + j - 1));
    assert quads[3 * j] == node[0] && quads[3 * j + 1] == node[1] && quads[3 * j + 2] == node[2];
    LookupAt(quads, 3 * j, next + j, items[|items| - 1 - j], if j == 0 then Nil else Blank(next + j - 1));
  }

  lemma {:induction false} ReadFrom<O>(quads: seq<ListQuad<O>>, items: seq<O>, next: nat, j: nat)
    requires |quads| == 3 * |items| && BuiltNodes(quads, items, next, |items|) && j < |items|
    ensures ReadList(quads, Blank(next + j), j + 1) == Some(items[|items| - 1 - j..])
  {
    LookupNode(quads, items, next, j);
    var n := |items|;
    if j == 0 {
      assert ReadList(quads, Nil, 0) == Some([]);
      assert items[n - 1..] == [items[n - 1]] + [];
    } else {
      ReadFrom(quads, items, next, j - 1);
      assert next + j - 1 == next + (j - 1);
      assert items[n - 1 - j..] == [items[n - 1 - j]] + items[n - 1 - (j - 1)..];
    }
  }

  /** Following `rdf:rest` from the head of a built collection reads back
    * exactly the items, in order. */
  method RdfListRoundTrip<O>(items: seq<O>, next: nat) returns (head: Term<O>, quads: seq<ListQuad<O>>)
    ensures ReadList(quads, head, |items|) == Some(items)
    ensures |quads| == 3 * |items|
  {
    var next';
    head, quads, next' := RdfList(items, next);
    if items != [] {
      ReadFrom(quads, items, next, |items| - 1);
      assert items[0..] == items;
    }
  }
}
