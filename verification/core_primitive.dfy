/**
 * Primitive layouts of the core crate (`core/src/layout/primitive.rs`):
 * the identifier of each primitive, the XSD datatype it naturally
 * represents, its display name, and the derived layouts built on it.
 */
module CorePrimitives {
  import opened Wrappers
  import opened CoreVocab

  /** `Primitive::id`: the primitive's own `tldr:` IRI. */
  function PrimitiveId(p: Primitive): (id: Id)
    ensures id.Iri? && id.term.TldrPrimitive?
  {
    Iri(TldrPrimitive(p))
  }

  /** `Primitive::from_id`: the primitive an identifier names, if any; it
    * inverts `PrimitiveId` on every identifier. */
  function FromId(id: Id): (r: Option<Primitive>)
    ensures r.Some? <==> id.Iri? && id.term.TldrPrimitive?
    ensures forall p :: r == Some(p) <==> id == PrimitiveId(p)
  {
    match id
    case Iri(TldrPrimitive(p)) => Some(p)
    case _ => None
  }

  /** Every primitive is found again from its identifier. */
  lemma FromIdRoundTrip(p: Primitive)
    ensures FromId(PrimitiveId(p)) == Some(p)
  {
  }

  /** The XSD datatypes. */
  predicate IsXsd(t: Term) {
    t.XsdBoolean? || t.XsdInteger? || t.XsdNonNegativeInteger? || t.XsdNonPositiveInteger?
    || t.XsdNegativeInteger? || t.XsdPositiveInteger? || t.XsdFloat? || t.XsdDouble?
    || t.XsdLong? || t.XsdInt? || t.XsdShort? || t.XsdByte?
    || t.XsdUnsignedLong? || t.XsdUnsignedInt? || t.XsdUnsignedShort? || t.XsdUnsignedByte?
    || t.XsdBase64Binary? || t.XsdHexBinary? || t.XsdString?
    || t.XsdTime? || t.XsdDate? || t.XsdDateTime? || t.XsdAnyUri?
  }

  /** The primitives naming a resource by IRI, URI or URL. */
  predicate IsIriLike(p: Primitive) {
    p == IriBuf || p == UriBuf || p == UrlBuf
  }

  /** `natural_type_term`: the XSD datatype a primitive's values belong to.
    * Raw bytes and content identifiers have none, and the three IRI-like
    * primitives share `xsd:anyURI`. */
  function NaturalTypeTerm(p: Primitive): (r: Option<Term>)
    ensures r.None? <==> p == BytesBuf || p == CidBuf
    ensures r.Some? ==> IsXsd(r.value)
    ensures r == Some(XsdAnyUri) <==> IsIriLike(p)
  {
    match p
    case Boolean => Some(XsdBoolean)
    case Integer => Some(XsdInteger)
    case NonNegativeInteger => Some(XsdNonNegativeInteger)
    case NonPositiveInteger => Some(XsdNonPositiveInteger)
    case NegativeInteger => Some(XsdNegativeInteger)
    case PositiveInteger => Some(XsdPositiveInteger)
    case F32 => Some(XsdFloat)
    case F64 => Some(XsdDouble)
    case U64 => Some(XsdUnsignedLong)
    case U32 => Some(XsdUnsignedInt)
    case U16 => Some(XsdUnsignedShort)
    case U8 => Some(XsdUnsignedByte)
    case I64 => Some(XsdLong)
    case I32 => Some(XsdInt)
    case I16 => Some(XsdShort)
    case I8 => Some(XsdByte)
    case Base64BytesBuf => Some(XsdBase64Binary)
    case HexBytesBuf => Some(XsdHexBinary)
    case String => Some(XsdString)
    case Time => Some(XsdTime)
    case Date => Some(XsdDate)
    case DateTime => Some(XsdDateTime)
    case IriBuf => Some(XsdAnyUri)
    case UriBuf => Some(XsdAnyUri)
    case UrlBuf => Some(XsdAnyUri)
    case BytesBuf => None
    case CidBuf => None
  }

  /** Apart from the IRI-like primitives, no two primitives share a
    * natural type. */
  lemma NaturalTypeTermInjective(p: Primitive, q: Primitive)
    requires NaturalTypeTerm(p).Some? && NaturalTypeTerm(p) == NaturalTypeTerm(q)
    ensures p == q || (IsIriLike(p) && IsIriLike(q))
  {
  }

  /** `Primitive::name`, the name it is displayed with. */
  function Name(p: Primitive): (s: string)
    ensures |s| > 0
  {
    match p
    case Boolean => "boolean"
    case Integer => "integer"
    case NonNegativeInteger => "non negative integer"
    case NonPositiveInteger => "non positive integer"
    case NegativeInteger => "negative integer"
    case PositiveInteger => "positive integer"
    case F32 => "f32"
    case F64 => "f64"
    case U64 => "u64"
    case U32 => "u32"
    case U16 => "u16"
    case U8 => "u8"
    case I64 => "i64"
    case I32 => "i32"
    case I16 => "i16"
    case I8 => "i8"
    case Base64BytesBuf => "base 64 bytes"
    case HexBytesBuf => "hex bytes"
    case String => "string"
    case Time => "time"
    case Date => "date"
    case DateTime => "date and time"
    case IriBuf => "iri"
    case UriBuf => "uri"
    case UrlBuf => "url"
    case BytesBuf => "bytes"
    case CidBuf => "content identifier"
  }

  /** `DerivedFrom`: the restrictions on a derived primitive layout, if
    * any, and its default value, if any. */
  datatype DerivedFrom<R, V> = DerivedFrom(restrictions: Option<R>, default: Option<V>)

  /** `DerivedFrom::is_restricted`, given what `is_restricted` means for
    * the restriction set of the primitive. */
  predicate IsRestricted<R, V>(d: DerivedFrom<R, V>, restricts: R -> bool) {
    match d.restrictions
    case Some(r) => restricts(r)
    case None => false
  }

  /** A derived primitive layout: the primitive and what it is derived with. */
  datatype Derived<R, V> = Derived(primitive: Primitive, from: DerivedFrom<R, V>)

  /** `Derived::from`: a primitive seen as a derived layout, with neither
    * a restriction set nor a default value. */
  function DerivedOf<R, V>(p: Primitive): Derived<R, V> {
    Derived(p, DerivedFrom(None, None))
  }

  /** The derived layout of a primitive keeps it and sets nothing else. */
  lemma DerivedOfIsPlain<R, V>(p: Primitive)
    ensures DerivedOf<R, V>(p).primitive == p
    ensures DerivedOf<R, V>(p).from.restrictions.None? && DerivedOf<R, V>(p).from.default.None?
  {
  }

  /** A primitive seen as a derived layout is unrestricted, whatever
    * restriction sets mean. */
  lemma DerivedOfUnrestricted<R, V>(p: Primitive, restricts: R -> bool)
    ensures !IsRestricted(DerivedOf<R, V>(p).from, restricts)
  {
  }
}
