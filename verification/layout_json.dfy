/**
 * Reading the JSON form of the layout abstract syntax: JSON values carrying
 * the offset they were read at, the errors (each carrying an offset), the
 * diagnostic hints, the unique-entry lookup, the `type` entry, the
 * `OneOrMany` wrapper and the string-or-object dispatch shared by value
 * formats and list nodes.
 */
module LayoutJson {
  import opened Wrappers
  import Parsing
  import Scopes

  // ---------------------------------------------------------------------------
  // JSON values
  // ---------------------------------------------------------------------------

  datatype Kind = NullKind | BooleanKind | NumberKind | StringKind | ArrayKind | ObjectKind

  /** A JSON value with the offset of its first character. */
  datatype Json = Json(offset: nat, value: JsonValue)

  datatype JsonValue =
    | Null
    | Boolean(b: bool)
    | Number(text: string)
    | String(s: string)
    | Array(items: seq<Json>)
    | Object(entries: seq<Entry>)

  /** An object entry with the offset of its key. */
  datatype Entry = Entry(keyOffset: nat, key: string, value: Json)

  function KindOf(v: JsonValue): Kind {
    match v
    case Null => NullKind
    case Boolean(_) => BooleanKind
    case Number(_) => NumberKind
    case String(_) => StringKind
    case Array(_) => ArrayKind
    case Object(_) => ObjectKind
  }

  // ---------------------------------------------------------------------------
  // Errors
  // ---------------------------------------------------------------------------

  /** The hint listing the accepted `type` values. */
  datatype ExpectedType = One(name: string) | Many(names: seq<string>)

  datatype Error =
    | Unexpected(offset: nat, expected: set<Kind>, found: Kind)
    | MissingRequiredEntry(offset: nat, key: string)
    | DuplicateEntry(offset: nat, key: string, otherOffset: nat)
    | MissingType(offset: nat)
    | InvalidType(offset: nat, expectedType: ExpectedType, foundType: string)
    | InvalidRegex(offset: nat)
    | InvalidPattern(offset: nat, text: string)
    | InvalidLangTag(offset: nat, text: string)
    | InvalidCompactIri(offset: nat, text: string)
    | MissingQuadPattern(offset: nat)
    | TooManyQuadPatterns(offset: nat)
    | ExpectedInteger(offset: nat, text: string)
    | IntegerOverflow(offset: nat, text: string)

  /** The offset an error is reported at. */
  function Position(e: Error): nat {
    match e
    case Unexpected(o, _, _) => o
    case MissingRequiredEntry(o, _) => o
    case DuplicateEntry(o, _, _) => o
    case MissingType(o) => o
    case InvalidType(o, _, _) => o
    case InvalidRegex(o) => o
    case InvalidPattern(o, _) => o
    case InvalidLangTag(o, _) => o
    case InvalidCompactIri(o, _) => o
    case MissingQuadPattern(o) => o
    case TooManyQuadPatterns(o) => o
    case ExpectedInteger(o, _) => o
    case IntegerOverflow(o, _) => o
  }

  /** Every variant reports the offset it carries. */
  lemma PositionIsOffset(e: Error)
    ensures Position(e) == e.offset
  {
  }

  datatype Hint = ExpectedTypeHint(expected: ExpectedType) | FoundTypeHint(found: string) | DuplicateEntryHint(other: nat)

  /** The hints attached to an error: the other occurrence of a duplicate
    * entry, or the accepted and the found `type` values. */
  function Hints(e: Error): (r: seq<Hint>)
    ensures e.DuplicateEntry? ==> r == [DuplicateEntryHint(e.otherOffset)]
    ensures e.InvalidType? ==> r == [ExpectedTypeHint(e.expectedType), FoundTypeHint(e.foundType)]
    ensures !e.DuplicateEntry? && !e.InvalidType? ==> r == []
  {
    match e
    case DuplicateEntry(_, _, other) => [DuplicateEntryHint(other)]
    case InvalidType(_, expected, found) => [ExpectedTypeHint(expected), FoundTypeHint(found)]
    case _ => []
  }

  /** Only the duplicate-entry hint points somewhere. */
  function HintPosition(h: Hint): (r: Option<nat>)
    ensures r.Some? <==> h.DuplicateEntryHint?
  {
    match h
    case DuplicateEntryHint(o) => Some(o)
    case _ => None
  }

  function Quote(s: string): string {
    "`" + s + "`"
  }

  function QuoteAll(names: seq<string>): (r: seq<string>)
    ensures |r| == |names|
    ensures forall i :: 0 <= i < |names| ==> r[i] == Quote(names[i])
  {
    seq(|names|, i requires 0 <= i < |names| => Quote(names[i]))
  }

  /** Renders the expected-type hint as the diagnostic does: one pass over
    * the names, `", "` between them and `" and "` before the last. */
  method ExpectedTypeText(e: ExpectedType) returns (text: string)
    ensures e.One? ==> text == "only possible value is " + Quote(e.name)
    ensures e.Many? ==> text == "possible values are " + Parsing.Enumerate(QuoteAll(e.names), " and ")
  {
    if e.One? {
      return "only possible value is " + Quote(e.name);
    }
    var names := QuoteAll(e.names);
    text := "possible values are ";
    var len := |names|;
    if len == 0 {
      return;
    }
    var i := 0;
    while i < len
      invariant 0 <= i <= len
      invariant i < len ==> text == "possible values are " + Parsing.Join(names[..i], ", ")
      invariant i == len ==> text == "possible values are " + Parsing.Enumerate(names, " and ")
    {
      if i > 0 {
        if i + 1 == len {
          text := text + " and ";
        } else {
          text := text + ", ";
        }
      }
      text := text + names[i];
      assert names[..i + 1][..i] == names[..i];
      if i + 1 == len {
        assert names[..i] == names[..|names| - 1];
      }
      i := i + 1;
    }
  }

  /** Three names read "`a`, `b` and `c`". */
  lemma ExpectedTypeExample()
    ensures Parsing.Enumerate(QuoteAll(["a", "b", "c"]), " and ") == "`a`, `b` and `c`"
  {
    var q := QuoteAll(["a", "b", "c"]);
    assert Quote("a") == "`a`" && Quote("b") == "`b`" && Quote("c") == "`c`";
    assert q == ["`a`", "`b`", "`c`"];
    assert q[..2] == ["`a`", "`b`"];
    Parsing.JoinTwo("`a`", "`b`", ", ");
  }

  // ---------------------------------------------------------------------------
  // Entries
  // ---------------------------------------------------------------------------

  /** The entries of an object with the given key, in order. */
  function WithKey(entries: seq<Entry>, key: string): (r: seq<Entry>)
    ensures forall i :: 0 <= i < |r| ==> r[i].key == key && r[i] in entries
    ensures |r| == 0 <==> forall i :: 0 <= i < |entries| ==> entries[i].key != key
  {
    if entries == [] then []
    else if entries[0].key == key then [entries[0]] + WithKey(entries[1..], key)
    else
      assert forall i :: 1 <= i < |entries| ==> entries[i] == entries[1..][i - 1];
      WithKey(entries[1..], key)
  }

  predicate ContainsKey(entries: seq<Entry>, key: string) {
    exists i :: 0 <= i < |entries| && entries[i].key == key
  }

  /** The unique entry with the given key: none, exactly one, or a
    * duplicate-entry error naming the first two occurrences. */
  function UniqueEntry(entries: seq<Entry>, key: string): (r: Result<Option<Entry>, Error>)
    ensures r == Success(None) <==> !ContainsKey(entries, key)
    ensures r.Success? && r.value.Some? ==> r.value.value.key == key && r.value.value in entries
    ensures r.Failure? ==> r.error.DuplicateEntry? && r.error.key == key
  {
    var m := WithKey(entries, key);
    if |m| >= 2 then Failure(DuplicateEntry(m[0].keyOffset, key, m[1].keyOffset))
    else if |m| == 1 then Success(Some(m[0]))
    else Success(None)
  }

  /** An optional entry, read with `read` when present. */
  function GetEntry<T>(entries: seq<Entry>, key: string, read: Json -> Result<T, Error>): (r: Result<Option<T>, Error>)
    ensures r == Success(None) <==> !ContainsKey(entries, key)
  {
    match UniqueEntry(entries, key)
    case Failure(e) => Failure(e)
    case Success(None) => Success(None)
    case Success(Some(entry)) => read(entry.value).Map((t: T) => Some(t))
  }

  /** A required entry: its absence is reported at the object's offset. */
  function RequireEntry<T>(entries: seq<Entry>, key: string, read: Json -> Result<T, Error>, offset: nat): (r: Result<T, Error>)
    ensures !ContainsKey(entries, key) ==> r == Failure(MissingRequiredEntry(offset, key))
    ensures r.Success? ==> exists i :: 0 <= i < |entries| && entries[i].key == key && read(entries[i].value) == r
  {
    match UniqueEntry(entries, key)
    case Failure(e) => Failure(e)
    case Success(None) => Failure(MissingRequiredEntry(offset, key))
    case Success(Some(entry)) =>
      var i :| 0 <= i < |entries| && entries[i] == entry;
      read(entry.value)
  }

  /** A required entry is an optional entry that must be present. */
  lemma RequireIsGetPresent<T>(entries: seq<Entry>, key: string, read: Json -> Result<T, Error>, offset: nat, v: T)
    ensures RequireEntry(entries, key, read, offset) == Success(v) <==> GetEntry(entries, key, read) == Success(Some(v))
  {
  }

  /** The `type` entry, which must be a string: its value and offset. */
  function RequireType(entries: seq<Entry>, offset: nat): (r: Result<(nat, string), Error>)
    ensures r == Failure(MissingType(offset)) <==> !ContainsKey(entries, "type")
    ensures r.Failure? && r.error.Unexpected? ==> r.error.expected == {StringKind} && r.error.found != StringKind
    ensures r.Success? ==>
      exists i :: 0 <= i < |entries| && entries[i].key == "type" && entries[i].value == Json(r.value.0, String(r.value.1))
  {
    match UniqueEntry(entries, "type")
    case Failure(e) => Failure(e)
    case Success(None) => Failure(MissingType(offset))
    case Success(Some(entry)) =>
      assert ContainsKey(entries, "type") by {
        var i :| 0 <= i < |entries| && entries[i] == entry;
      }
      match entry.value.value
      case String(found) => Success((entry.value.offset, found))
      case other => Failure(Unexpected(entry.value.offset, {StringKind}, KindOf(other)))
  }

  /** Checks that the `type` entry is exactly `expected`. */
  function CheckType(entries: seq<Entry>, expected: string, offset: nat): (r: Result<(), Error>)
    ensures r.Success? <==> RequireType(entries, offset).Success? && RequireType(entries, offset).value.1 == expected
    ensures RequireType(entries, offset).Success? && r.Failure? ==>
      r.error == InvalidType(RequireType(entries, offset).value.0, One(expected), RequireType(entries, offset).value.1)
    ensures RequireType(entries, offset).Failure? ==> r == Failure(RequireType(entries, offset).error)
  {
    match RequireType(entries, offset)
    case Failure(e) => Failure(e)
    case Success((o, found)) => if found == expected then Success(()) else Failure(InvalidType(o, One(expected), found))
  }

  // ---------------------------------------------------------------------------
  // OneOrMany
  // ---------------------------------------------------------------------------

  /** Reads every item, stopping at the first failure. */
  function ReadAll<T>(items: seq<Json>, read: Json -> Result<T, Error>): (r: Result<seq<T>, Error>)
    ensures r.Success? ==> |r.value| == |items|
    ensures r.Success? ==> forall i :: 0 <= i < |items| ==> read(items[i]) == Success(r.value[i])
    ensures r.Failure? ==> exists i :: 0 <= i < |items| && read(items[i]) == Failure(r.error)
    decreases |items|
  {
    if items == [] then Success([])
    else match read(items[0])
      case Failure(e) => Failure(e)
      case Success(x) =>
        match ReadAll(items[1..], read)
        case Failure(e) =>
          var i :| 0 <= i < |items[1..]| && read(items[1..][i]) == Failure(e);
          assert read(items[i + 1]) == Failure(e);
          Failure(e)
        case Success(xs) =>
          assert forall i :: 1 <= i < |items| ==> items[i] == items[1..][i - 1];
          Success([x] + xs)
  }

  /** An array is read as `Many`, even with a single item; anything else is
    * read as `One`. */
  function OneOrManyFromJson<T>(j: Json, read: Json -> Result<T, Error>): (r: Result<Scopes.OneOrMany<T>, Error>)
    ensures j.value.Array? && r.Success? ==> r.value.Many? && |r.value.values| == |j.value.items|
    ensures !j.value.Array? && r.Success? ==> read(j).Success? && r.value == Scopes.One(read(j).value)
    ensures !j.value.Array? ==> (r.Success? <==> read(j).Success?)
  {
    match j.value
    case Array(items) => ReadAll(items, read).Map((xs: seq<T>) => Scopes.Many(xs))
    case _ => read(j).Map((x: T) => Scopes.One(x))
  }

  /** Reading then flattening a JSON array gives the items read in order. */
  lemma OneOrManyArraySlice<T>(j: Json, read: Json -> Result<T, Error>)
    requires j.value.Array? && OneOrManyFromJson(j, read).Success?
    ensures var s := Scopes.AsSlice(OneOrManyFromJson(j, read).value);
      |s| == |j.value.items| && forall i :: 0 <= i < |s| ==> read(j.value.items[i]) == Success(s[i])
  {
  }

  // ---------------------------------------------------------------------------
  // String-or-object dispatch
  // ---------------------------------------------------------------------------

  /** What a value format or a list node reads as: a layout reference (a
    * compact IRI or an inline layout object) or the other form. */
  datatype OrLayout<L, O> = RefLayout(iri: string) | InlineLayout(layout: L) | Other(other: O)

  /** A string is a layout reference; an object with a `type` entry is an
    * inline layout; any other object is the other form. */
  function ReadOrLayout<L, O>(
    j: Json,
    isCompactIri: string -> bool,
    readLayout: (seq<Entry>, nat) -> Result<L, Error>,
    readOther: (seq<Entry>, nat) -> Result<O, Error>): (r: Result<OrLayout<L, O>, Error>)
    ensures j.value.String? ==> (r.Success? <==> isCompactIri(j.value.s))
    ensures j.value.String? && r.Success? ==> r.value == RefLayout(j.value.s)
    ensures j.value.String? && r.Failure? ==> r.error == InvalidCompactIri(j.offset, j.value.s)
    ensures j.value.Object? && ContainsKey(j.value.entries, "type") && r.Success? ==> r.value.InlineLayout?
    ensures j.value.Object? && !ContainsKey(j.value.entries, "type") && r.Success? ==> r.value.Other?
    ensures !j.value.String? && !j.value.Object? ==> r == Failure(Unexpected(j.offset, {StringKind, ObjectKind}, KindOf(j.value)))
  {
    match j.value
    case String(s) => if isCompactIri(s) then Success(RefLayout(s)) else Failure(InvalidCompactIri(j.offset, s))
    case Object(entries) =>
      if ContainsKey(entries, "type") then readLayout(entries, j.offset).Map((l: L) => InlineLayout(l))
      else readOther(entries, j.offset).Map((o: O) => Other(o))
    case other => Failure(Unexpected(j.offset, {StringKind, ObjectKind}, KindOf(other)))
  }
}
