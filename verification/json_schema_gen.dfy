/**
 * Generating JSON Schemas from TreeLDR layouts
 * (`modules/json-schema/src/lib.rs`): documentation text on one line, the
 * schema of each primitive layout and of a restricted (derived) one, and
 * the schemas of set and option layouts.  The schemas of item layouts are
 * given as JSON values.
 */
module JsonSchemaGen {
  import opened Wrappers
  import Json
  import opened CoreVocab
  import V = JsonSchemaValidation
  import S = JsonSchemas
  import Syntax = JsonSchemaSyntax
  import RegExps

  // Documentation.

  /** The position of the first line feed. */
  function LineEnd(s: string): (r: Option<nat>)
    ensures r.Some? ==> var i := r.value; i < |s| && s[i] == '\n' && '\n' !in s[..i]
    ensures r.Some? ==> forall j :: 0 <= j < r.value ==> s[j] != '\n'
    ensures r.None? ==> '\n' !in s
  {
    if |s| == 0 then None
    else if s[0] == '\n' then Some(0)
    else match LineEnd(s[1..])
      case Some(i) => (assert s[..i + 1] == [s[0]] + s[1..][..i]; Some(i + 1))
      case None => (assert s == [s[0]] + s[1..]; None)
  }

  /** A line ended by a line feed loses the carriage return before it. */
  function DropCr(line: string): string {
    if |line| > 0 && line[|line| - 1] == '\r' then line[..|line| - 1] else line
  }

  /** `str::lines`: the text split at line feeds, a carriage return just
    * before a line feed being part of the line ending, and a final line
    * feed ending the last line rather than starting an empty one. */
  function Lines(s: string): (r: seq<string>)
    ensures forall i :: 0 <= i < |r| ==> '\n' !in r[i]
    ensures s == [] <==> r == []
    decreases |s|
  {
    if s == [] then []
    else match LineEnd(s)
      case None => [s]
      case Some(k) => [DropCr(s[..k])] + Lines(s[k + 1..])
  }

  /** The lines joined with single spaces. */
  function JoinWithSpaces(lines: seq<string>): (r: string)
    ensures (forall i :: 0 <= i < |lines| ==> '\n' !in lines[i]) ==> '\n' !in r
  {
    if |lines| == 0 then []
    else if |lines| == 1 then lines[0]
    else lines[0] + " " + JoinWithSpaces(lines[1..])
  }

  /** `remove_newlines`: the text's lines joined with single spaces. */
  function RemoveNewlines(s: string): (r: string)
    ensures '\n' !in r
    ensures '\n' !in s ==> r == s
  {
    JoinWithSpaces(Lines(s))
  }

  /** The lines joined with line feeds. */
  function JoinWithNewlines(lines: seq<string>): string {
    if |lines| == 0 then []
    else if |lines| == 1 then lines[0]
    else lines[0] + "\n" + JoinWithNewlines(lines[1..])
  }

  /** Lines without line breaks, the last one not empty, are split back
    * out of their text joined with line feeds; so `remove_newlines` puts
    * single spaces where the line feeds were. */
  lemma {:induction false} LinesRoundTrip(lines: seq<string>)
    requires |lines| > 0 && |lines[|lines| - 1]| > 0
    requires forall i :: 0 <= i < |lines| ==> '\n' !in lines[i] && '\r' !in lines[i]
    ensures Lines(JoinWithNewlines(lines)) == lines
    ensures RemoveNewlines(JoinWithNewlines(lines)) == JoinWithSpaces(lines)
    decreases |lines|
  {
    if |lines| == 1 {
      assert LineEnd(JoinWithNewlines(lines)).None?;
    } else {
      assert forall i :: 0 <= i < |lines[1..]| ==> lines[1..][i] == lines[i + 1];
      LinesRoundTrip(lines[1..]);
      LinesStep(lines);
    }
  }

  /** The first line is split off, and the rest split back by induction. */
  lemma LinesStep(lines: seq<string>)
    requires |lines| > 1 && '\n' !in lines[0] && '\r' !in lines[0]
    requires Lines(JoinWithNewlines(lines[1..])) == lines[1..]
    ensures Lines(JoinWithNewlines(lines)) == lines
    ensures RemoveNewlines(JoinWithNewlines(lines)) == JoinWithSpaces(lines)
  {
    var s := JoinWithNewlines(lines);
    FirstLine(lines);
    assert Lines(s) == [lines[0]] + Lines(JoinWithNewlines(lines[1..]));
    assert [lines[0]] + lines[1..] == lines;
  }

  /** The first of several joined lines ends at the first line feed, and
    * the rest of the text is the other lines joined. */
  lemma FirstLine(lines: seq<string>)
    requires |lines| > 1
    requires '\n' !in lines[0] && '\r' !in lines[0]
    ensures var s := JoinWithNewlines(lines);
      LineEnd(s) == Some(|lines[0]|) && DropCr(s[..|lines[0]|]) == lines[0]
      && s[|lines[0]| + 1..] == JoinWithNewlines(lines[1..])
  {
    var s := JoinWithNewlines(lines);
    var rest := JoinWithNewlines(lines[1..]);
    assert s == lines[0] + "\n" + rest;
    var k := |lines[0]|;
    assert s[k] == '\n' && s[..k] == lines[0];
    assert LineEnd(s) == Some(k) by {
      assert forall j :: 0 <= j < k ==> s[j] == lines[0][j];
      assert s[k] in s;
    }
    assert DropCr(lines[0]) == lines[0] by {
      if |lines[0]| > 0 { assert lines[0][|lines[0]| - 1] in lines[0]; }
    }
    assert s[k + 1..] == rest;
  }

  // Primitive layouts.

  /** The JSON Schema type of a primitive layout. */
  function TypeOf(p: Primitive): V.Type {
    match p
    case Boolean => V.BooleanType
    case Integer | NonNegativeInteger | NonPositiveInteger | NegativeInteger | PositiveInteger
       | I64 | I32 | I16 | I8 | U64 | U32 | U16 | U8 => V.IntegerType
    case F32 | F64 => V.NumberType
    case _ => V.StringType
  }

  predicate IsIntegerLayout(p: Primitive) {
    TypeOf(p) == V.IntegerType
  }

  function Pow2(n: nat): (r: nat)
    ensures r > 0
  {
    if n == 0 then 1 else 2 * Pow2(n - 1)
  }

  /** The width of a machine integer layout, and whether it is signed. */
  function Width(p: Primitive): Option<(nat, bool)> {
    match p
    case I64 => Some((64, true))
    case I32 => Some((32, true))
    case I16 => Some((16, true))
    case I8 => Some((8, true))
    case U64 => Some((64, false))
    case U32 => Some((32, false))
    case U16 => Some((16, false))
    case U8 => Some((8, false))
    case _ => None
  }

  /** The least value of an integer layout: a signed `n`-bit integer's
    * is -2^(n-1) and an unsigned one's 0. */
  function LowerBound(p: Primitive): Option<int> {
    if p == NonNegativeInteger then Some(0)
    else if p == PositiveInteger then Some(1)
    else match Width(p)
      case Some(w) => if w.1 && w.0 > 0 then Some(0 - Pow2(w.0 - 1)) else Some(0)
      case None => None
  }

  /** The greatest value of an integer layout: a signed `n`-bit integer's
    * is 2^(n-1) - 1 and an unsigned one's 2^n - 1. */
  function UpperBound(p: Primitive): Option<int> {
    if p == NonPositiveInteger then Some(0)
    else if p == NegativeInteger then Some(-1)
    else match Width(p)
      case Some(w) => if w.1 && w.0 > 0 then Some(Pow2(w.0 - 1) - 1) else Some(Pow2(w.0) - 1)
      case None => None
  }

  function Int(i: int): Json.Value {
    Json.Num(Json.IntegerNumber(i))
  }

  function Text(s: string): Json.Value {
    Json.Str(s)
  }

  /** `"minimum"` and `"maximum"` as the source writes them for each integer
    * layout. */
  function Bounds(p: Primitive): (Option<int>, Option<int>) {
    match p
    case NonNegativeInteger => (Some(0), None)
    case NonPositiveInteger => (None, Some(0))
    case PositiveInteger => (Some(1), None)
    case NegativeInteger => (None, Some(-1))
    case I64 => (Some(-0x8000_0000_0000_0000), Some(0x7fff_ffff_ffff_ffff))
    case I32 => (Some(-0x8000_0000), Some(0x7fff_ffff))
    case I16 => (Some(-0x8000), Some(0x7fff))
    case I8 => (Some(-0x80), Some(0x7f))
    case U64 => (Some(0), Some(0xffff_ffff_ffff_ffff))
    case U32 => (Some(0), Some(0xffff_ffff))
    case U16 => (Some(0), Some(0xffff))
    case U8 => (Some(0), Some(0xff))
    case _ => (None, None)
  }

  /** `"format"` of each string layout; a URL is written as a URI. */
  function FormatName(p: Primitive): Option<string> {
    match p
    case Time => Some("time")
    case Date => Some("date")
    case DateTime => Some("date-time")
    case IriBuf => Some("iri")
    case UriBuf => Some("uri")
    case UrlBuf => Some("uri")
    case _ => None
  }

  /** The JSON Schema format each string layout stands for. */
  function FormatOf(p: Primitive): Option<V.Format> {
    if p == Time then Some(V.Time)
    else if p == Date then Some(V.Date)
    else if p == DateTime then Some(V.DateTime)
    else if p == IriBuf then Some(V.Iri)
    else if p == UriBuf || p == UrlBuf then Some(V.Uri)
    else None
  }

  function InsertOpt(ms: seq<Json.Member>, key: string, v: Option<Json.Value>): (r: seq<Json.Member>)
    ensures v.Some? ==> Json.Get(r, key) == v
    ensures v.None? ==> r == ms
    ensures forall k :: k != key ==> Json.Get(r, k) == Json.Get(ms, k)
  {
    if v.Some? then Json.Insert(ms, key, v.value) else ms
  }

  /** Inserting an optional entry under a new key gives that key the
    * entry's value, or none. */
  lemma OptGet(ms: seq<Json.Member>, key: string, v: Option<Json.Value>)
    requires Json.Get(ms, key).None?
    ensures Json.Get(InsertOpt(ms, key, v), key) == v
  {
  }

  /** Inserting an optional entry leaves another key alone. */
  lemma OptOther(ms: seq<Json.Member>, key: string, v: Option<Json.Value>, k: string)
    requires k != key
    ensures Json.Get(InsertOpt(ms, key, v), k) == Json.Get(ms, k)
  {
  }

  function MapInt(o: Option<int>): Option<Json.Value> {
    if o.Some? then Some(Int(o.value)) else None
  }

  function MapText(o: Option<string>): Option<Json.Value> {
    if o.Some? then Some(Text(o.value)) else None
  }

  /** The schema entries of a type name, optional bounds and an optional
    * format, in the order the source inserts them. */
  function SchemaMembers(ty: string, lo: Option<int>, hi: Option<int>, format: Option<string>): seq<Json.Member> {
    var ms := Json.Insert([], "type", Text(ty));
    var ms := InsertOpt(ms, "minimum", MapInt(lo));
    var ms := InsertOpt(ms, "maximum", MapInt(hi));
    InsertOpt(ms, "format", MapText(format))
  }

  /** The schema entries hold the type, the bounds given and the format
    * given. */
  lemma SchemaEntries(ty: string, lo: Option<int>, hi: Option<int>, format: Option<string>)
    ensures var ms := SchemaMembers(ty, lo, hi, format);
      Json.Get(ms, "type") == Some(Text(ty))
      && Json.Get(ms, "minimum") == MapInt(lo)
      && Json.Get(ms, "maximum") == MapInt(hi)
      && Json.Get(ms, "format") == MapText(format)
  {
    var m0 := Json.Insert([], "type", Text(ty));
    var m1 := InsertOpt(m0, "minimum", MapInt(lo));
    var m2 := InsertOpt(m1, "maximum", MapInt(hi));
    assert SchemaMembers(ty, lo, hi, format) == InsertOpt(m2, "format", MapText(format));
    SchemaTypeEntry(m0, m1, m2, ty, lo, hi, format);
    assert Json.Get(m0, "minimum").None? && Json.Get(m0, "maximum").None? && Json.Get(m0, "format").None?;
    SchemaBoundEntries(m0, m1, m2, lo, hi, format);
  }

  lemma SchemaBoundEntries(m0: seq<Json.Member>, m1: seq<Json.Member>, m2: seq<Json.Member>,
                           lo: Option<int>, hi: Option<int>, format: Option<string>)
    requires m1 == InsertOpt(m0, "minimum", MapInt(lo)) && m2 == InsertOpt(m1, "maximum", MapInt(hi))
    requires Json.Get(m0, "minimum").None? && Json.Get(m0, "maximum").None? && Json.Get(m0, "format").None?
    ensures Json.Get(InsertOpt(m2, "format", MapText(format)), "minimum") == MapInt(lo)
    ensures Json.Get(InsertOpt(m2, "format", MapText(format)), "maximum") == MapInt(hi)
    ensures Json.Get(InsertOpt(m2, "format", MapText(format)), "format") == MapText(format)
  {
    BoundKeysDistinct();
    OptGet(m0, "minimum", MapInt(lo));
    OptOther(m1, "maximum", MapInt(hi), "minimum");
    OptOther(m2, "format", MapText(format), "minimum");
    OptOther(m0, "minimum", MapInt(lo), "maximum");
    OptGet(m1, "maximum", MapInt(hi));
    OptOther(m2, "format", MapText(format), "maximum");
    OptOther(m0, "minimum", MapInt(lo), "format");
    OptOther(m1, "maximum", MapInt(hi), "format");
    OptGet(m2, "format", MapText(format));
  }

  lemma BoundKeysDistinct()
    ensures "minimum" != "maximum"
  {
    assert "minimum"[1] != "maximum"[1];
  }

  lemma SchemaTypeEntry(m0: seq<Json.Member>, m1: seq<Json.Member>, m2: seq<Json.Member>,
                        ty: string, lo: Option<int>, hi: Option<int>, format: Option<string>)
    requires m0 == Json.Insert([], "type", Text(ty))
    requires m1 == InsertOpt(m0, "minimum", MapInt(lo)) && m2 == InsertOpt(m1, "maximum", MapInt(hi))
    ensures Json.Get(InsertOpt(m2, "format", MapText(format)), "type") == Some(Text(ty))
  {
    OptOther(m0, "minimum", MapInt(lo), "type");
    OptOther(m1, "maximum", MapInt(hi), "type");
    OptOther(m2, "format", MapText(format), "type");
  }

  /** The schema entries of a primitive layout, with the name it gives
    * the boolean type. */
  function PrimitiveMembers(p: Primitive, booleanName: string): seq<Json.Member> {
    SchemaMembers(if p == Boolean then booleanName else Syntax.TypeName(TypeOf(p)), Bounds(p).0, Bounds(p).1, FormatName(p))
  }

  /** The type entry of a primitive layout's schema. */
  lemma PrimitiveType(p: Primitive, booleanName: string)
    ensures Json.Get(PrimitiveMembers(p, booleanName), "type")
      == Some(Text(if p == Boolean then booleanName else Syntax.TypeName(TypeOf(p))))
  {
    var ty := if p == Boolean then booleanName else Syntax.TypeName(TypeOf(p));
    SchemaEntries(ty, Bounds(p).0, Bounds(p).1, FormatName(p));
  }

  /** The bound entries of a primitive layout's schema. */
  lemma PrimitiveBounds(p: Primitive, booleanName: string)
    ensures Json.Get(PrimitiveMembers(p, booleanName), "minimum") == MapInt(LowerBound(p))
    ensures Json.Get(PrimitiveMembers(p, booleanName), "maximum") == MapInt(UpperBound(p))
    ensures Json.Get(PrimitiveMembers(p, booleanName), "format") == MapText(FormatName(p))
  {
    var ty := if p == Boolean then booleanName else Syntax.TypeName(TypeOf(p));
    SchemaEntries(ty, Bounds(p).0, Bounds(p).1, FormatName(p));
    BoundsAreRange(p);
  }

  /** `generate_primitive_type` as written, which names the boolean type
    * `bool`. */
  function GeneratePrimitiveTypeAsWritten(p: Primitive): Json.Value {
    Json.Object(PrimitiveMembers(p, "bool"))
  }

  /** As written, the schema of the boolean layout does not read back: JSON
    * Schema has no type `bool`. */
  lemma BooleanSchemaUnreadable()
    ensures Json.Get(GeneratePrimitiveTypeAsWritten(Boolean).members, "type") == Some(Text("bool"))
    ensures Syntax.ReadType(Json.Get(GeneratePrimitiveTypeAsWritten(Boolean).members, "type").value) == Failure(Syntax.InvalidType)
  {
    PrimitiveType(Boolean, "bool");
    BoolIsNoType();
  }

  lemma BoolIsNoType()
    ensures Syntax.ReadType(Text("bool")) == Failure(Syntax.InvalidType)
  {
    assert "bool"[0] != "null"[0];
  }

  /** `generate_primitive_type` with the boolean type named `boolean`. */
  function GeneratePrimitiveType(p: Primitive): Json.Value {
    Json.Object(PrimitiveMembers(p, "boolean"))
  }

  lemma Pow2Values()
    ensures Pow2(7) == 0x80 && Pow2(8) == 0x100 && Pow2(15) == 0x8000 && Pow2(16) == 0x1_0000
    ensures Pow2(31) == 0x8000_0000 && Pow2(32) == 0x1_0000_0000
    ensures Pow2(63) == 0x8000_0000_0000_0000 && Pow2(64) == 0x1_0000_0000_0000_0000
  {
    Pow2Small();
    Pow2Add(8, 7);
    Pow2Add(15, 1);
    Pow2Add(16, 15);
    Pow2Add(31, 1);
    Pow2Add(32, 31);
    Pow2Add(63, 1);
  }

  lemma Pow2Small()
    ensures Pow2(7) == 0x80 && Pow2(8) == 0x100
  {
  }

  lemma {:induction false} Pow2Add(a: nat, b: nat)
    ensures Pow2(a + b) == Pow2(a) * Pow2(b)
    decreases b
  {
    if b > 0 {
      Pow2Add(a, b - 1);
    }
  }

  /** An integer layout's bounds are exactly its range: the bounds its
    * sign gives, and the two's complement range of a machine integer. */
  lemma BoundsAreRange(p: Primitive)
    ensures Bounds(p) == (LowerBound(p), UpperBound(p))
  {
    match p
    case I8 | U8 => Pow2Small(); Range8();
    case I16 | U16 => Pow2Values(); Range16();
    case I32 | U32 => Pow2Values(); Range32();
    case I64 | U64 => Pow2Values(); Range64();
    case _ =>
  }

  /** The ranges of the machine integers of each width, with the powers
    * of two known. */
  lemma Range8()
    requires Pow2(7) == 0x80 && Pow2(8) == 0x100
    ensures Bounds(I8) == (LowerBound(I8), UpperBound(I8)) && Bounds(U8) == (LowerBound(U8), UpperBound(U8))
  {
  }

  lemma Range16()
    requires Pow2(15) == 0x8000 && Pow2(16) == 0x1_0000
    ensures Bounds(I16) == (LowerBound(I16), UpperBound(I16)) && Bounds(U16) == (LowerBound(U16), UpperBound(U16))
  {
  }

  lemma Range32()
    requires Pow2(31) == 0x8000_0000 && Pow2(32) == 0x1_0000_0000
    ensures Bounds(I32) == (LowerBound(I32), UpperBound(I32)) && Bounds(U32) == (LowerBound(U32), UpperBound(U32))
  {
  }

  lemma Range64()
    requires Pow2(63) == 0x8000_0000_0000_0000 && Pow2(64) == 0x1_0000_0000_0000_0000
    ensures Bounds(I64) == (LowerBound(I64), UpperBound(I64)) && Bounds(U64) == (LowerBound(U64), UpperBound(U64))
  {
  }

  /** The format written for a layout is the name of the format it stands
    * for. */
  lemma FormatNamesRead(p: Primitive)
    ensures FormatName(p).Some? <==> FormatOf(p).Some?
    ensures FormatName(p).Some? ==> Syntax.ReadFormat(Text(FormatName(p).value)) == Success(FormatOf(p).value)
  {
  }

  /** Every schema of a primitive layout reads back as its type, its
    * format and its range. */
  lemma PrimitiveTypeReadsBack(p: Primitive)
    ensures Json.HasKey(GeneratePrimitiveType(p).members, "type")
    ensures var ms := GeneratePrimitiveType(p).members;
      Syntax.ReadType(Json.Get(ms, "type").value) == Success(TypeOf(p))
      && (FormatOf(p).None? <==> !Json.HasKey(ms, "format"))
      && (FormatOf(p).Some? ==> Syntax.ReadFormat(Json.Get(ms, "format").value) == Success(FormatOf(p).value))
      && Json.Get(ms, "minimum") == MapInt(LowerBound(p))
      && Json.Get(ms, "maximum") == MapInt(UpperBound(p))
  {
    var ms := GeneratePrimitiveType(p).members;
    assert ms == PrimitiveMembers(p, "boolean");
    BooleanTypeName(p);
    PrimitiveType(p, "boolean");
    PrimitiveBounds(p, "boolean");
    EntriesReadBack(ms, p);
  }

  lemma BooleanTypeName(p: Primitive)
    ensures (if p == Boolean then "boolean" else Syntax.TypeName(TypeOf(p))) == Syntax.TypeName(TypeOf(p))
  {
  }

  /** Entries naming a layout's type and format read back as them. */
  lemma EntriesReadBack(ms: seq<Json.Member>, p: Primitive)
    requires Json.Get(ms, "type") == Some(Text(Syntax.TypeName(TypeOf(p))))
    requires Json.Get(ms, "format") == MapText(FormatName(p))
    ensures Syntax.ReadType(Json.Get(ms, "type").value) == Success(TypeOf(p))
    ensures FormatOf(p).None? <==> !Json.HasKey(ms, "format")
    ensures FormatOf(p).Some? ==> Syntax.ReadFormat(Json.Get(ms, "format").value) == Success(FormatOf(p).value)
  {
    FormatNamesRead(p);
    Syntax.ReadTypeRoundTrip(TypeOf(p), []);
  }

  // Derived (restricted) primitive layouts.

  /** A primitive layout with its restrictions: integer bounds for the
    * integer layouts, a pattern for the string layouts. */
  datatype Derived = Derived(base: Primitive, min: Option<int>, max: Option<int>, pattern: Option<RegExps.RegExp>)

  /** The layouts a pattern restricts. */
  predicate IsPatternLayout(p: Primitive) {
    match p
    case Base64BytesBuf | HexBytesBuf | String => true
    case _ => false
  }

  /** The pattern entry of a string layout: `const` for a pattern matching
    * one string only, and otherwise `pattern` with the pattern's text. */
  function PatternMembers(ms: seq<Json.Member>, pattern: RegExps.RegExp, show: RegExps.RegExp -> string): (r: seq<Json.Member>)
    ensures RegExps.IsSingleton(pattern) ==>
      (Json.Get(r, "const") == Some(Text(RegExps.AsSingleton(pattern).value))
       && forall k :: k != "const" ==> Json.Get(r, k) == Json.Get(ms, k))
    ensures !RegExps.IsSingleton(pattern) ==>
      (Json.Get(r, "pattern") == Some(Text(show(pattern)))
       && forall k :: k != "pattern" ==> Json.Get(r, k) == Json.Get(ms, k))
  {
    match RegExps.AsSingleton(pattern)
    case Some(w) => Json.Insert(ms, "const", Text(w))
    case None => Json.Insert(ms, "pattern", Text(show(pattern)))
  }

  /** `generate_derived_type`: the schema of the primitive layout, its
    * bounds replaced by the restriction's, and its pattern added.  The
    * pattern's text is given by `show`. */
  function GenerateDerivedType(d: Derived, show: RegExps.RegExp -> string): (v: Json.Value)
    ensures v.Object?
  {
    var ms := PrimitiveMembers(d.base, "boolean");
    if IsIntegerLayout(d.base) then
      var ms := InsertOpt(ms, "minimum", MapInt(d.min));
      Json.Object(InsertOpt(ms, "maximum", MapInt(d.max)))
    else if IsPatternLayout(d.base) && d.pattern.Some? then
      Json.Object(PatternMembers(ms, d.pattern.value, show))
    else Json.Object(ms)
  }

  /** A restricted integer layout's bounds are the restriction's where it
    * has them, and the layout's own range elsewhere; its type is still
    * `integer`. */
  lemma DerivedBounds(d: Derived, show: RegExps.RegExp -> string)
    requires IsIntegerLayout(d.base)
    ensures var ms := GenerateDerivedType(d, show).members;
      Json.Get(ms, "type") == Some(Text("integer"))
      && Json.Get(ms, "minimum") == (if d.min.Some? then Some(Int(d.min.value)) else MapInt(LowerBound(d.base)))
      && Json.Get(ms, "maximum") == (if d.max.Some? then Some(Int(d.max.value)) else MapInt(UpperBound(d.base)))
  {
    var base := PrimitiveMembers(d.base, "boolean");
    IntegerBase(d.base);
    assert GenerateDerivedType(d, show).members == InsertOpt(InsertOpt(base, "minimum", MapInt(d.min)), "maximum", MapInt(d.max));
    OverrideBounds(base, d.min, d.max);
  }

  /** The schema an integer layout is restricted from: type `integer`,
    * and the layout's range. */
  lemma IntegerBase(p: Primitive)
    requires IsIntegerLayout(p)
    ensures var ms := PrimitiveMembers(p, "boolean");
      Json.Get(ms, "type") == Some(Text("integer"))
      && Json.Get(ms, "minimum") == MapInt(LowerBound(p))
      && Json.Get(ms, "maximum") == MapInt(UpperBound(p))
  {
    IntegerTypeName(p);
    PrimitiveType(p, "boolean");
    PrimitiveBounds(p, "boolean");
  }

  lemma IntegerTypeName(p: Primitive)
    requires IsIntegerLayout(p)
    ensures p != Boolean && Syntax.TypeName(TypeOf(p)) == "integer"
  {
  }

  /** Bounds written over a schema replace its own, where there are any. */
  lemma OverrideBounds(base: seq<Json.Member>, lo: Option<int>, hi: Option<int>)
    ensures var ms := InsertOpt(InsertOpt(base, "minimum", MapInt(lo)), "maximum", MapInt(hi));
      Json.Get(ms, "type") == Json.Get(base, "type")
      && Json.Get(ms, "minimum") == (if lo.Some? then MapInt(lo) else Json.Get(base, "minimum"))
      && Json.Get(ms, "maximum") == (if hi.Some? then MapInt(hi) else Json.Get(base, "maximum"))
  {
    assert "minimum"[1] != "maximum"[1] && "type"[0] != "minimum"[0] && "type"[0] != "maximum"[0];
  }

  /** A restricted string layout matches the pattern: exactly one string
    * is written as its `const`, any other pattern as its `pattern`. */
  lemma DerivedPattern(d: Derived, show: RegExps.RegExp -> string)
    requires IsPatternLayout(d.base) && d.pattern.Some?
    ensures var ms := GenerateDerivedType(d, show).members;
      Json.Get(ms, "type") == Some(Text("string"))
      && (RegExps.IsSingleton(d.pattern.value) ==>
            Json.Get(ms, "const") == Some(Text(RegExps.AsSingleton(d.pattern.value).value)) && !Json.HasKey(ms, "pattern"))
      && (!RegExps.IsSingleton(d.pattern.value) ==>
            Json.Get(ms, "pattern") == Some(Text(show(d.pattern.value))) && !Json.HasKey(ms, "const"))
  {
    var base := PrimitiveMembers(d.base, "boolean");
    PrimitiveType(d.base, "boolean");
    assert TypeOf(d.base) == V.StringType && !IsIntegerLayout(d.base);
    NoPatternYet(Syntax.TypeName(TypeOf(d.base)), Bounds(d.base).0, Bounds(d.base).1, FormatName(d.base));
    assert GenerateDerivedType(d, show).members == PatternMembers(base, d.pattern.value, show);
    PatternOver(base, d.pattern.value, show);
  }

  lemma NoPatternYet(ty: string, lo: Option<int>, hi: Option<int>, format: Option<string>)
    ensures Json.Get(SchemaMembers(ty, lo, hi, format), "const").None?
    ensures Json.Get(SchemaMembers(ty, lo, hi, format), "pattern").None?
  {
    SchemaKeys(ty, lo, hi, format, "const");
    assert "pattern"[0] != "minimum"[0] && "pattern"[0] != "maximum"[0];
    SchemaKeys(ty, lo, hi, format, "pattern");
  }

  /** The pattern entry leaves the type alone and writes exactly one of
    * `const` and `pattern`. */
  lemma PatternOver(base: seq<Json.Member>, pattern: RegExps.RegExp, show: RegExps.RegExp -> string)
    requires Json.Get(base, "const").None? && Json.Get(base, "pattern").None?
    ensures var ms := PatternMembers(base, pattern, show);
      Json.Get(ms, "type") == Json.Get(base, "type")
      && (RegExps.IsSingleton(pattern) ==> !Json.HasKey(ms, "pattern"))
      && (!RegExps.IsSingleton(pattern) ==> !Json.HasKey(ms, "const"))
  {
    assert "const"[0] != "type"[0] && "pattern"[0] != "type"[0] && "const" != "pattern";
  }

  /** A string restricted to a literal is written as that literal. */
  lemma DerivedLiteral(base: Primitive, w: string, show: RegExps.RegExp -> string)
    requires IsPatternLayout(base)
    ensures Json.Get(GenerateDerivedType(Derived(base, None, None, Some(RegExps.FromString(w))), show).members, "const")
      == Some(Text(w))
  {
    RegExps.FromStringAsSingleton(w);
    DerivedPattern(Derived(base, None, None, Some(RegExps.FromString(w))), show);
  }

  /** The schema of a primitive layout has only its type, bounds and
    * format entries. */
  lemma SchemaKeys(ty: string, lo: Option<int>, hi: Option<int>, format: Option<string>, k: string)
    requires k != "type" && k != "minimum" && k != "maximum" && k != "format"
    ensures Json.Get(SchemaMembers(ty, lo, hi, format), k).None?
  {
    var m0 := Json.Insert([], "type", Text(ty));
    var m1 := InsertOpt(m0, "minimum", MapInt(lo));
    var m2 := InsertOpt(m1, "maximum", MapInt(hi));
    assert SchemaMembers(ty, lo, hi, format) == InsertOpt(m2, "format", MapText(format));
    OptOther(m0, "minimum", MapInt(lo), k);
    OptOther(m1, "maximum", MapInt(hi), k);
    OptOther(m2, "format", MapText(format), k);
  }

  // Sets and options.

  /** The cardinality restriction of a container layout. */
  datatype Cardinal = Cardinal(min: nat, max: Option<nat>)

  datatype GenError = TooLarge

  /** `generate_set_type`: an array of unique items of the item schema,
    * with the restriction's non-zero minimum and its maximum, which must
    * be unsigned 64-bit integers (the source panics otherwise). */
  function GenerateSetType(item: Json.Value, restrictions: Option<Cardinal>): (r: Result<Json.Value, GenError>)
    ensures r.Success? ==> r.value.Object?
    ensures r.Failure? <==>
      (restrictions.Some?
       && (restrictions.value.min >= Json.U64Limit
           || (restrictions.value.max.Some? && restrictions.value.max.value >= Json.U64Limit)))
  {
    match restrictions
    case None => Success(Json.Object(SetMembers(item, 0, None)))
    case Some(c) =>
      if c.min >= Json.U64Limit then Failure(TooLarge)
      else if c.max.Some? && c.max.value >= Json.U64Limit then Failure(TooLarge)
      else Success(Json.Object(SetMembers(item, c.min, c.max)))
  }

  /** The entries of a set schema with the given bounds: a zero minimum is
    * left out. */
  function SetMembers(item: Json.Value, min: nat, max: Option<nat>): (ms: seq<Json.Member>)
    ensures Json.Get(ms, "type") == Some(Text("array"))
    ensures Json.Get(ms, "items") == Some(item)
    ensures Json.Get(ms, "uniqueItems") == Some(Json.Boolean(true))
    ensures Json.Get(ms, "minItems") == (if min == 0 then None else Some(Int(min)))
    ensures Json.Get(ms, "maxItems") == MapInt(max)
    ensures Json.Get(ms, "maxContains").None? && Json.Get(ms, "minContains").None?
  {
    var bounds := (if min == 0 then [] else [Json.Member("minItems", Int(min))])
      + (if max.Some? then [Json.Member("maxItems", Int(max.value))] else []);
    SetBoundsGet(min, max);
    assert "maxContains"[0] != "uniqueItems"[0] && "minContains"[0] != "uniqueItems"[0];
    assert "minItems"[0] != "uniqueItems"[0] && "maxItems"[0] != "uniqueItems"[0];
    assert "items"[0] != "type"[0] && "uniqueItems"[0] != "items"[0];
    var a, b, c := Json.Member("type", Text("array")), Json.Member("items", item), Json.Member("uniqueItems", Json.Boolean(true));
    HeadGet(a, b, c, bounds, "type");
    HeadGet(a, b, c, bounds, "items");
    HeadGet(a, b, c, bounds, "uniqueItems");
    HeadGet(a, b, c, bounds, "minItems");
    HeadGet(a, b, c, bounds, "maxItems");
    HeadGet(a, b, c, bounds, "maxContains");
    HeadGet(a, b, c, bounds, "minContains");
    [a, b, c] + bounds
  }

  /** Looking a key up past three leading entries. */
  lemma HeadGet(a: Json.Member, b: Json.Member, c: Json.Member, rest: seq<Json.Member>, k: string)
    ensures Json.Get([a, b, c] + rest, k)
      == if k == a.key then Some(a.value)
         else if k == b.key then Some(b.value)
         else if k == c.key then Some(c.value)
         else Json.Get(rest, k)
  {
    var m2 := [c] + rest;
    var m1 := [b] + m2;
    assert [a, b, c] + rest == [a] + m1;
    Json.GetCons(a, m1, k);
    Json.GetCons(b, m2, k);
    Json.GetCons(c, rest, k);
  }

  /** The optional bound entries of a set schema. */
  lemma SetBoundsGet(min: nat, max: Option<nat>)
    ensures var bounds := (if min == 0 then [] else [Json.Member("minItems", Int(min))])
      + (if max.Some? then [Json.Member("maxItems", Int(max.value))] else []);
      Json.Get(bounds, "minItems") == (if min == 0 then None else Some(Int(min)))
      && Json.Get(bounds, "maxItems") == MapInt(max)
      && !Json.HasKey(bounds, "type") && !Json.HasKey(bounds, "items") && !Json.HasKey(bounds, "uniqueItems")
      && !Json.HasKey(bounds, "maxContains") && !Json.HasKey(bounds, "minContains")
  {
    assert "minItems"[1] != "maxItems"[1];
    var hi: seq<Json.Member> := if max.Some? then [Json.Member("maxItems", Int(max.value))] else [];
    if min != 0 {
      Json.GetCons(Json.Member("minItems", Int(min)), hi, "minItems");
      Json.GetCons(Json.Member("minItems", Int(min)), hi, "maxItems");
    }
  }

  /** A set schema reads back as an array type with its item schema, unique
    * items, and the restriction's bounds, a zero minimum being left out. */
  lemma SetTypeReadsBack(item: Json.Value, restrictions: Option<Cardinal>)
    requires GenerateSetType(item, restrictions).Success?
    ensures var ms := GenerateSetType(item, restrictions).value.members;
      var c := if restrictions.Some? then restrictions.value else Cardinal(0, None);
      Json.Get(ms, "items") == Some(item)
      && Syntax.ReadTypeValue(Json.Get(ms, "type").value) == Success([V.ArrayType])
      && Syntax.ReadArrayValidation(ms)
         == Success(V.ArrayValidation(c.max, if c.min == 0 then None else Some(c.min), Some(true), None, None))
  {
    var c := if restrictions.Some? then restrictions.value else Cardinal(0, None);
    var ms := SetMembers(item, c.min, c.max);
    assert GenerateSetType(item, restrictions).value.members == ms;
    Syntax.ReadTypeRoundTrip(V.ArrayType, []);
    ArrayValidationReads(ms, c.min, c.max);
  }

  /** The array keywords of a set schema read back as its bounds. */
  lemma ArrayValidationReads(ms: seq<Json.Member>, min: nat, max: Option<nat>)
    requires min < Json.U64Limit && (max.Some? ==> max.value < Json.U64Limit)
    requires Json.Get(ms, "uniqueItems") == Some(Json.Boolean(true))
    requires Json.Get(ms, "minItems") == (if min == 0 then None else Some(Int(min)))
    requires Json.Get(ms, "maxItems") == MapInt(max)
    requires Json.Get(ms, "maxContains").None? && Json.Get(ms, "minContains").None?
    ensures Syntax.ReadArrayValidation(ms)
      == Success(V.ArrayValidation(max, if min == 0 then None else Some(min), Some(true), None, None))
  {
  }

  /** The schema `{"type": "null"}`. */
  function NullSchema(): (v: Json.Value)
    ensures v.Object? && Json.Get(v.members, "type") == Some(Text("null"))
  {
    Json.Object([Json.Member("type", Text("null"))])
  }

  /** `generate_option_type`: either null or the item schema. */
  function GenerateOptionType(item: Json.Value): (v: Json.Value)
    ensures v.Object? && Json.Get(v.members, "anyOf") == Some(Json.Array([NullSchema(), item]))
  {
    Json.Object([Json.Member("anyOf", Json.Array([NullSchema(), item]))])
  }

  /** The schema `{"type": "null"}` has its one entry. */
  lemma NullSchemaKeys()
    ensures OnlyType(NullSchema())
    ensures Json.Get(NullSchema().members, "type") == Some(Text(Syntax.TypeName(V.NullType)))
  {
  }

  /** An object whose only key is `type`. */
  ghost predicate OnlyType(v: Json.Value) {
    v.Object? && forall k :: k != "type" ==> !Json.HasKey(v.members, k)
  }

  lemma OnlyTypeMeta(v: Json.Value, c: Syntax.Syntax)
    requires OnlyType(v)
    ensures Syntax.ReadMetaSchema(v.members, c).Success?
    ensures Syntax.ReadMetaData(v.members).Success?
  {
    assert "readOnly" != "type" && "writeOnly" != "type";
  }

  /** Without any of the keywords of the other descriptions, an object
    * whose only key is `type` is a definition. */
  lemma OnlyTypeDescription(v: Json.Value, c: Syntax.Syntax)
    requires OnlyType(v)
    ensures Syntax.ReadDescriptionAsWritten(v, c).Success?
    ensures Syntax.ReadDescriptionAsWritten(v, c).value.Definition?
  {
    assert !Json.HasKey(v.members, "allOf") && !Json.HasKey(v.members, "anyOf") && !Json.HasKey(v.members, "oneOf");
    assert !Json.HasKey(v.members, "not") && !Json.HasKey(v.members, "if");
    OnlyTypeStringData(v, c);
    OnlyTypeArraySchema(v, c);
    OnlyTypeObjectSchema(v, c);
  }

  lemma OnlyTypeStringData(v: Json.Value, c: Syntax.Syntax)
    requires OnlyType(v)
    ensures Syntax.ReadStringEncodedData(v, c).Success?
  {
  }

  lemma OnlyTypeArraySchema(v: Json.Value, c: Syntax.Syntax)
    requires OnlyType(v)
    ensures Syntax.ReadArraySchema(v, c).Success?
  {
  }

  lemma OnlyTypeObjectSchema(v: Json.Value, c: Syntax.Syntax)
    requires OnlyType(v)
    ensures Syntax.ReadObjectSchema(v, c).Success?
  {
  }

  /** Every validation keyword but `type` is absent, so each reader reads
    * nothing. */
  lemma NoValidationKeywords(ms: seq<Json.Member>)
    requires forall k :: k != "type" ==> !Json.HasKey(ms, k)
    ensures Syntax.ReadNumericValidation(ms).Success? && Syntax.ReadStringValidation(ms).Success?
    ensures Syntax.ReadArrayValidation(ms).Success? && Syntax.ReadObjectValidation(ms).Success?
    ensures Syntax.Optional(ms, "format", Syntax.ReadFormat) == Success(None)
    ensures Syntax.Optional(ms, "enum", Syntax.TryArray) == Success(None)
    ensures Json.Get(ms, "const").None?
  {
    NoNumericKeywords(ms);
    NoArrayKeywords(ms);
    NoObjectKeywords(ms);
    assert "enum"[0] != "type"[0] && "const" != "type" && "format" != "type";
  }

  lemma NoNumericKeywords(ms: seq<Json.Member>)
    requires forall k :: k != "type" ==> !Json.HasKey(ms, k)
    ensures Syntax.ReadNumericValidation(ms).Success? && Syntax.ReadStringValidation(ms).Success?
  {
    assert !Json.HasKey(ms, "multipleOf") && !Json.HasKey(ms, "maximum") && !Json.HasKey(ms, "exclusiveMaximum");
    assert !Json.HasKey(ms, "minimum") && !Json.HasKey(ms, "exclusiveMinimum");
    assert !Json.HasKey(ms, "maxLength") && !Json.HasKey(ms, "minLength") && !Json.HasKey(ms, "pattern");
  }

  lemma NoArrayKeywords(ms: seq<Json.Member>)
    requires forall k :: k != "type" ==> !Json.HasKey(ms, k)
    ensures Syntax.ReadArrayValidation(ms).Success?
  {
    assert !Json.HasKey(ms, "maxItems") && !Json.HasKey(ms, "minItems") && !Json.HasKey(ms, "uniqueItems");
    assert !Json.HasKey(ms, "maxContains") && !Json.HasKey(ms, "minContains");
  }

  lemma NoObjectKeywords(ms: seq<Json.Member>)
    requires forall k :: k != "type" ==> !Json.HasKey(ms, k)
    ensures Syntax.ReadObjectValidation(ms).Success?
  {
    assert !Json.HasKey(ms, "maxProperties") && !Json.HasKey(ms, "minProperties");
    assert !Json.HasKey(ms, "required") && !Json.HasKey(ms, "dependentRequired");
  }

  /** An object whose only key is `type`, naming one type, validates that
    * type. */
  lemma OnlyTypeValidation(v: Json.Value, t: V.Type)
    requires OnlyType(v) && Json.Get(v.members, "type") == Some(Text(Syntax.TypeName(t)))
    ensures Syntax.ReadValidation(v.members).Success?
    ensures Syntax.ReadValidation(v.members).value.any.ty == Some([t])
  {
    var ms := v.members;
    NoValidationKeywords(ms);
    Syntax.ReadTypeRoundTrip(t, []);
    assert Syntax.ReadTypeValue(Text(Syntax.TypeName(t))) == Success([t]);
    assert Syntax.ReadAnyValidation(ms) == Success(V.AnyValidation(Some([t]), None, None));
  }

  /** An object without `$ref` and `$dynamicRef`, without an identifier,
    * anchors and definitions, whose parts all read, is a regular schema of
    * those parts. */
  lemma RegularReads(v: Json.Value, c: Syntax.Syntax)
    requires v.Object?
    requires !Json.HasKey(v.members, "$ref") && !Json.HasKey(v.members, "$dynamicRef")
    requires !Json.HasKey(v.members, "$id") && !Json.HasKey(v.members, "$anchor")
    requires !Json.HasKey(v.members, "$dynamicAnchor") && !Json.HasKey(v.members, "$defs")
    requires Syntax.ReadMetaSchema(v.members, c).Success? && Syntax.ReadMetaData(v.members).Success?
    requires Syntax.ReadDescriptionAsWritten(v, c).Success? && Syntax.ReadValidation(v.members).Success?
    ensures Syntax.TrySchema(v, c) == Success(S.Regular(S.RegularSchema(
      Syntax.ReadMetaSchema(v.members, c).value, None, Syntax.ReadMetaData(v.members).value,
      Syntax.ReadDescriptionAsWritten(v, c).value, Syntax.ReadValidation(v.members).value, None, None, None)))
  {
  }

  /** An object whose only key is `type`, naming one type, reads as a
    * plain schema of that type. */
  lemma OnlyTypeReads(v: Json.Value, c: Syntax.Syntax, t: V.Type)
    requires OnlyType(v) && Json.Get(v.members, "type") == Some(Text(Syntax.TypeName(t)))
    ensures Syntax.TrySchema(v, c).Success?
    ensures var s := Syntax.TrySchema(v, c).value;
      s.Regular? && s.regular.desc.Definition? && s.regular.validation.any.ty == Some([t])
  {
    assert !Json.HasKey(v.members, "$ref") && !Json.HasKey(v.members, "$dynamicRef") && !Json.HasKey(v.members, "$id");
    assert !Json.HasKey(v.members, "$anchor") && !Json.HasKey(v.members, "$dynamicAnchor") && !Json.HasKey(v.members, "$defs");
    OnlyTypeMeta(v, c);
    OnlyTypeDescription(v, c);
    OnlyTypeValidation(v, t);
    RegularReads(v, c);
  }

  /** `{"type": "null"}` reads back as a plain schema of type null. */
  lemma NullSchemaReads(c: Syntax.Syntax)
    ensures Syntax.TrySchema(NullSchema(), c).Success?
    ensures var s := Syntax.TrySchema(NullSchema(), c).value;
      s.Regular? && s.regular.desc.Definition? && s.regular.validation.any.ty == Some([V.NullType])
  {
    NullSchemaKeys();
    OnlyTypeReads(NullSchema(), c, V.NullType);
  }

  /** An object whose first description keyword is `anyOf`, holding an
    * array of schemas, is the choice between them. */
  lemma AnyOfReads(v: Json.Value, arr: Json.Value, c: Syntax.Syntax)
    requires v.Object? && !Json.HasKey(v.members, "allOf") && Json.Get(v.members, "anyOf") == Some(arr)
    requires arr.Array? && Syntax.TrySchemaItems(arr, 0, c).Success?
    ensures Syntax.ReadDescriptionAsWritten(v, c) == Success(S.AnyOf(Syntax.TrySchemaItems(arr, 0, c).value))
  {
    assert Json.HasKey(v.members, "anyOf");
    assert Syntax.ReadDescriptionWith(v, c, "else") == Success(S.AnyOf(Syntax.TrySchemaItems(arr, 0, c).value));
  }

  /** An option schema reads back as the choice between the null schema
    * and the item schema. */
  lemma OptionTypeReadsBack(item: Json.Value, c: Syntax.Syntax)
    requires Syntax.TrySchema(item, c).Success?
    ensures Syntax.TrySchema(NullSchema(), c).Success?
    ensures var v := GenerateOptionType(item);
      Syntax.ReadDescriptionAsWritten(v, c)
      == Success(S.AnyOf([Syntax.TrySchema(NullSchema(), c).value, Syntax.TrySchema(item, c).value]))
  {
    NullSchemaReads(c);
    TwoChoiceReads(NullSchema(), item, c);
  }

  /** An object holding just an `anyOf` of two schemas reads as the
    * choice between them. */
  lemma TwoChoiceReads(a: Json.Value, b: Json.Value, c: Syntax.Syntax)
    requires Syntax.TrySchema(a, c).Success? && Syntax.TrySchema(b, c).Success?
    ensures Syntax.ReadDescriptionAsWritten(Json.Object([Json.Member("anyOf", Json.Array([a, b]))]), c)
      == Success(S.AnyOf([Syntax.TrySchema(a, c).value, Syntax.TrySchema(b, c).value]))
  {
    var arr := Json.Array([a, b]);
    var v := Json.Object([Json.Member("anyOf", arr)]);
    assert "allOf"[1] != "anyOf"[1];
    assert !Json.HasKey(v.members, "allOf");
    TwoItems(arr, c);
    AnyOfReads(v, arr, c);
  }

  /** An array of two schemas reads as those two schemas. */
  lemma TwoItems(arr: Json.Value, c: Syntax.Syntax)
    requires arr.Array? && |arr.items| == 2
    requires Syntax.TrySchema(arr.items[0], c).Success? && Syntax.TrySchema(arr.items[1], c).Success?
    ensures Syntax.TrySchemaItems(arr, 0, c) == Success([Syntax.TrySchema(arr.items[0], c).value, Syntax.TrySchema(arr.items[1], c).value])
  {
    var s0 := Syntax.TrySchema(arr.items[0], c).value;
    var s1 := Syntax.TrySchema(arr.items[1], c).value;
    assert Syntax.TrySchemaItems(arr, 2, c) == Success([]);
    assert [s1] + [] == [s1];
    assert Syntax.TrySchemaItems(arr, 1, c) == Success([s1]);
    assert [s0] + [s1] == [s0, s1];
  }
}
