/** The shapes of Rust syntax that the generators inspect: token trees as
    `proc_macro2` hands them to a derive macro, and type paths as `syn`
    parses them. Spans are dropped; string literals carry their value. */
module RustSyn {

  datatype TokenTree =
    | Group(stream: seq<TokenTree>)
    | Ident(name: string)
    | Punct(ch: char)
    | StrLit(value: string)
    | OtherLit(text: string)

  /** A `syn::Type`: a path type, with or without a qualified-self part, or
      any other type form. */
  datatype Type =
    | PathType(qself: bool, segments: seq<PathSegment>)
    | OtherType(text: string)

  datatype PathSegment = PathSegment(ident: string, arguments: PathArguments)

  datatype PathArguments =
    | NoArguments
    | AngleBracketed(args: seq<GenericArgument>)
    | Parenthesized

  datatype GenericArgument = TypeArg(ty: Type) | OtherArg

  /** String literals separated by commas, as `quote!`'s `#(#names),*`
      repetition writes a list of strings. */
  function CommaSeparated(names: seq<string>): (r: seq<TokenTree>)
    ensures names == [] <==> r == []
    ensures names != [] ==> |r| == 2 * |names| - 1
    ensures forall k :: 0 <= k < |r| ==> r[k] == (if k % 2 == 0 then StrLit(names[k / 2]) else Punct(','))
  {
    if names == [] then []
    else if |names| == 1 then [StrLit(names[0])]
    else
      var rest := CommaSeparated(names[1..]);
      var r := [StrLit(names[0]), Punct(',')] + rest;
      assert forall k :: 2 <= k < |r| ==> r[k] == rest[k - 2] && (k - 2) / 2 == k / 2 - 1;
      r
  }
}
