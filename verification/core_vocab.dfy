/**
 * The vocabulary terms of the core crate that the RDF export and the
 * primitive layouts refer to, the identifiers built from them, and the
 * primitive layouts themselves (`core/src/layout/primitive.rs`), which are
 * vocabulary terms of their own (`tldr:Primitive`).
 */
module CoreVocab {
  /** The built-in primitive layouts, in declaration order. */
  datatype Primitive =
    | Boolean | Integer | NonNegativeInteger | NonPositiveInteger
    | NegativeInteger | PositiveInteger | F32 | F64
    | I64 | I32 | I16 | I8 | U64 | U32 | U16 | U8
    | Base64BytesBuf | HexBytesBuf | String | Time | Date | DateTime
    | IriBuf | UriBuf | UrlBuf | BytesBuf | CidBuf

  /** The vocabulary terms the export writes, and the IRIs outside it. */
  datatype Term =
    | RdfType | RdfList | RdfFirst | RdfRest | RdfNil | RdfProperty
    | RdfsClass | RdfsLabel | RdfsComment | RdfsDomain | RdfsRange
    | OwlUnionOf | OwlIntersectionOf | OwlRestriction | OwlOnProperty
    | OwlSomeValuesFrom | OwlAllValuesFrom
    | OwlMinCardinality | OwlMaxCardinality | OwlCardinality
    | XsdBoolean | XsdInteger | XsdNonNegativeInteger | XsdNonPositiveInteger
    | XsdNegativeInteger | XsdPositiveInteger | XsdFloat | XsdDouble
    | XsdLong | XsdInt | XsdShort | XsdByte
    | XsdUnsignedLong | XsdUnsignedInt | XsdUnsignedShort | XsdUnsignedByte
    | XsdBase64Binary | XsdHexBinary | XsdString
    | XsdTime | XsdDate | XsdDateTime | XsdAnyUri
    | SchemaValueRequired | SchemaMultipleValues | SchemaTrue | SchemaFalse
    | TldrLayout | TldrLayoutFor | TldrName | TldrDerefTo | TldrAlias
    | TldrArray | TldrArrayListFirst | TldrArrayListRest | TldrArrayListNil
    | TldrSet | TldrList | TldrNative | TldrPrimitive(primitive: Primitive) | TldrSingleton | TldrMatches
    | TldrFields | TldrField | TldrFieldFor | TldrFormat
    | TldrEnumeration | TldrVariant | TldrSelf
    | Unknown(iri: nat)

  datatype Id = Blank(blank: nat) | Iri(term: Term)

  datatype Object = Node(id: Id) | Str(text: string) | Typed(text: string, ty: Term)

  datatype Quad = Quad(subject: Id, property: Term, obj: Object)
}
