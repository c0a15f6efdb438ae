/**
 * The scope and literal decoding of the first-generation TreeLDR builder
 * (`src/syntax/build.rs`): nested variable scopes indexed across their
 * ancestors, compact IRI expansion, call arity and the decoding of quoted
 * text strings with escapes.
 */
module LegacyBuild {
  import opened Wrappers
  import Scopes

  datatype Error =
    | StringError
    | IriError(text: string)
    | UnknownPrefix(prefix: string)
    | UnknownVariable(name: string)
    | ArgumentCount(expected: nat, found: nat)

  // ---------------------------------------------------------------------------
  // Nested scopes
  // ---------------------------------------------------------------------------

  /** The variables one scope declares, in order, with their types, the
    * index each name is bound to, and how many variables the scope counts. */
  datatype Frame<T> = Frame(variables: seq<(string, T)>, bindings: map<string, nat>, count: nat)

  datatype Scope<T> = Root(frame: Frame<T>) | Child(parent: Scope<T>, frame: Frame<T>)

  function NewFrame<T>(): Frame<T> {
    Frame([], map[], 0)
  }

  /** The first index of this scope: the length of the parent. */
  function Offset<T>(s: Scope<T>): (r: nat)
    ensures s.Root? ==> r == 0
    decreases s, 0
  {
    match s
    case Root(_) => 0
    case Child(p, _) => Len(p)
  }

  /** The number of indices this scope and its ancestors span. */
  function Len<T>(s: Scope<T>): (r: nat)
    ensures r >= Offset(s)
    decreases s, 1
  {
    Offset(s) + s.frame.count
  }

  /** Looks a variable up by index: the parent's indices come first. */
  function Get<T>(s: Scope<T>, i: nat): (r: Option<(string, T)>)
    ensures r.Some? && s.Root? ==> i < |s.frame.variables| && r.value == s.frame.variables[i]
  {
    match s
    case Root(f) => if i < |f.variables| then Some(f.variables[i]) else None
    case Child(p, f) =>
      if i < Len(p) then Get(p, i)
      else if i - Len(p) < |f.variables| then Some(f.variables[i - Len(p)])
      else None
  }

  /** Looks a name up in this scope, then in its ancestors. */
  function IndexOf<T>(s: Scope<T>, name: string): (r: Result<nat, Error>)
    ensures r.Failure? ==> r.error == UnknownVariable(name)
    ensures name in s.frame.bindings ==> r == Success(s.frame.bindings[name])
    ensures s.Root? ==> (r.Success? <==> name in s.frame.bindings)
  {
    if name in s.frame.bindings then Success(s.frame.bindings[name])
    else match s
      case Root(_) => Failure(UnknownVariable(name))
      case Child(p, _) => IndexOf(p, name)
  }

  /** Declares a variable, as written: it is bound to `len()`, but the
    * count is left unchanged, so the next declaration in the same scope
    * gets the same index. */
  function Insert<T>(s: Scope<T>, name: string, ty: T): (r: (Scope<T>, nat))
    ensures r.1 == Len(s) && Len(r.0) == Len(s)
    ensures r.0.frame.variables == s.frame.variables + [(name, ty)]
  {
    var f := s.frame;
    var f' := f.(variables := f.variables + [(name, ty)], bindings := f.bindings[name := Len(s)]);
    (s.(frame := f'), Len(s))
  }

  /** Declares a variable at the next index and counts it. */
  function InsertCounted<T>(s: Scope<T>, name: string, ty: T): (r: (Scope<T>, nat))
    ensures r.1 == Len(s) && Len(r.0) == Len(s) + 1
    ensures r.0.frame.variables == s.frame.variables + [(name, ty)]
    ensures Offset(r.0) == Offset(s)
  {
    var f := s.frame;
    var f' := Frame(f.variables + [(name, ty)], f.bindings[name := Len(s)], f.count + 1);
    (s.(frame := f'), Len(s))
  }

  /** Every scope counts the variables it declares, and each binding points
    * into the scope's own index range at a variable of that name. */
  ghost predicate Consistent<T>(s: Scope<T>) {
    s.frame.count == |s.frame.variables|
    && BindingsPointHome(s)
    && (s.Child? ==> Consistent(s.parent))
  }

  /** Each binding of the innermost scope points into the scope's own index
    * range, at a variable of that name. */
  ghost predicate BindingsPointHome<T>(s: Scope<T>)
    requires s.frame.count == |s.frame.variables|
  {
    forall n :: n in s.frame.bindings ==>
      Offset(s) <= s.frame.bindings[n] < Len(s)
      && s.frame.variables[s.frame.bindings[n] - Offset(s)].0 == n
  }

  /** In a consistent scope, the index a name resolves to holds a variable
    * of that name. */
  lemma {:induction false} IndexOfGet<T>(s: Scope<T>, name: string)
    requires Consistent(s)
    requires IndexOf(s, name).Success?
    ensures Get(s, IndexOf(s, name).value).Some?
    ensures Get(s, IndexOf(s, name).value).value.0 == name
  {
    if name !in s.frame.bindings {
      IndexOfGet(s.parent, name);
      IndexBelowLen(s.parent, name);
    }
  }

  lemma {:induction false} IndexBelowLen<T>(s: Scope<T>, name: string)
    requires Consistent(s)
    requires IndexOf(s, name).Success?
    ensures IndexOf(s, name).value < Len(s)
  {
    if name !in s.frame.bindings {
      IndexBelowLen(s.parent, name);
    }
  }

  /** Declaring a counted variable keeps a scope consistent, and the new
    * name resolves to its own variable. */
  lemma InsertCountedConsistent<T>(s: Scope<T>, name: string, ty: T)
    requires Consistent(s)
    ensures Consistent(InsertCounted(s, name, ty).0)
    ensures IndexOf(InsertCounted(s, name, ty).0, name) == Success(Len(s))
    ensures Get(InsertCounted(s, name, ty).0, Len(s)) == Some((name, ty))
  {
    InsertCountedBindings(s, name, ty);
    InsertCountedGet(s, name, ty);
  }

  lemma InsertCountedBindings<T>(s: Scope<T>, name: string, ty: T)
    requires Consistent(s)
    ensures InsertCounted(s, name, ty).0.frame.count == |InsertCounted(s, name, ty).0.frame.variables|
    ensures BindingsPointHome(InsertCounted(s, name, ty).0)
  {
    var r := InsertCounted(s, name, ty).0;
    forall n | n in r.frame.bindings
      ensures Offset(r) <= r.frame.bindings[n] < Len(r) && r.frame.variables[r.frame.bindings[n] - Offset(r)].0 == n
    {
      InsertCountedBinding(s, name, ty, n);
    }
  }

  /** After a counted declaration, each binding of the scope points at a
    * variable of its name: the new one at the new variable, the others
    * where they pointed before. */
  lemma InsertCountedBinding<T>(s: Scope<T>, name: string, ty: T, n: string)
    requires Consistent(s) && n in InsertCounted(s, name, ty).0.frame.bindings
    ensures var r := InsertCounted(s, name, ty).0;
      Offset(r) <= r.frame.bindings[n] < Len(r) && r.frame.variables[r.frame.bindings[n] - Offset(r)].0 == n
  {
    var r := InsertCounted(s, name, ty).0;
    if n != name {
      var k := s.frame.bindings[n] - Offset(s);
      assert r.frame.variables[k] == s.frame.variables[k];
    }
  }

  /** The counted variable is found at the scope's former length. */
  lemma InsertCountedGet<T>(s: Scope<T>, name: string, ty: T)
    requires s.frame.count == |s.frame.variables|
    ensures Get(InsertCounted(s, name, ty).0, Len(s)) == Some((name, ty))
  {
  }

  /** Opens a child scope declaring the given variables in order. */
  function Begin<T>(s: Scope<T>, names: seq<string>, ty: T): (r: Scope<T>)
    ensures Offset(r) == Len(s)
    ensures |r.frame.variables| == |names|
    ensures forall i :: 0 <= i < |names| ==> r.frame.variables[i] == (names[i], ty)
  {
    InsertAll(Child(s, NewFrame()), names, ty)
  }

  function InsertAll<T>(s: Scope<T>, names: seq<string>, ty: T): (r: Scope<T>)
    ensures Offset(r) == Offset(s) && Len(r) == Len(s)
    ensures r.Child? <==> s.Child?
    ensures r.frame.variables == s.frame.variables + seq(|names|, i requires 0 <= i < |names| => (names[i], ty))
    decreases |names|
  {
    if names == [] then s else InsertAll(Insert(s, names[0], ty).0, names[1..], ty)
  }

  /** With two variables in one scope, the second resolves to the index of
    * the first: both get the scope's length. */
  lemma SecondVariableResolvesToFirst(parent: Scope<nat>)
    ensures var s := Begin(parent, ["x", "y"], 0);
      IndexOf(s, "x") == Success(Len(parent))
      && IndexOf(s, "y") == Success(Len(parent))
      && Get(s, Len(parent)) == Some(("x", 0))
  {
    var s := Begin(parent, ["x", "y"], 0);
    var s1 := Insert(Child(parent, NewFrame()), "x", 0).0;
    assert s == Insert(s1, "y", 0).0;
    assert s.frame.bindings == map["x" := Len(parent), "y" := Len(parent)];
    assert s.frame.variables[0] == ("x", 0);
  }

  /** Opens a child scope declaring the given variables in order, counting
    * each one. */
  function BeginCounted<T>(s: Scope<T>, names: seq<string>, ty: T): (r: Scope<T>)
    ensures Offset(r) == Len(s) && Len(r) == Len(s) + |names|
    ensures r.Child? && r.parent == s
  {
    InsertAllCounted(Child(s, NewFrame()), names, ty)
  }

  function InsertAllCounted<T>(s: Scope<T>, names: seq<string>, ty: T): (r: Scope<T>)
    ensures Offset(r) == Offset(s) && Len(r) == Len(s) + |names|
    ensures s.Child? ==> r.Child? && r.parent == s.parent
    decreases |names|
  {
    if names == [] then s else InsertAllCounted(InsertCounted(s, names[0], ty).0, names[1..], ty)
  }

  /** A scope opened with counted declarations is consistent, and every name
    * it declares resolves to a variable of that name. */
  lemma {:induction false} InsertAllCountedConsistent<T>(s: Scope<T>, names: seq<string>, ty: T, x: string)
    requires Consistent(s)
    ensures Consistent(InsertAllCounted(s, names, ty))
    ensures x in names ==> IndexOf(InsertAllCounted(s, names, ty), x).Success?
    ensures x in names ==> Get(InsertAllCounted(s, names, ty), IndexOf(InsertAllCounted(s, names, ty), x).value) == Some((x, ty))
    decreases |names|
  {
    if names != [] {
      var s1 := InsertCounted(s, names[0], ty).0;
      InsertCountedConsistent(s, names[0], ty);
      InsertAllCountedConsistent(s1, names[1..], ty, x);
      if x in names && x !in names[1..] {
        assert names == [names[0]] + names[1..];
        assert x == names[0];
        InsertAllCountedKeeps(s1, names[1..], ty, x, Len(s));
      }
    }
  }

  /** Declarations of other names leave a name's binding and its variable
    * where they were. */
  lemma {:induction false} InsertAllCountedKeeps<T>(s: Scope<T>, names: seq<string>, ty: T, x: string, i: nat)
    requires Consistent(s)
    requires x !in names && IndexOf(s, x) == Success(i) && Get(s, i) == Some((x, ty))
    requires x in s.frame.bindings
    ensures IndexOf(InsertAllCounted(s, names, ty), x) == Success(i)
    ensures Get(InsertAllCounted(s, names, ty), i) == Some((x, ty))
    decreases |names|
  {
    if names != [] {
      var s1 := InsertCounted(s, names[0], ty).0;
      InsertCountedConsistent(s, names[0], ty);
      assert i < Len(s) by { IndexBelowLen(s, x); }
      GetKept(s, names[0], ty, i);
      InsertAllCountedKeeps(s1, names[1..], ty, x, i);
    }
  }

  lemma GetKept<T>(s: Scope<T>, name: string, ty: T, i: nat)
    requires Consistent(s) && i < Len(s)
    ensures Get(InsertCounted(s, name, ty).0, i) == Get(s, i)
  {
    match s
    case Root(f) =>
    case Child(p, f) =>
  }

  /** A counted child scope is consistent over a consistent parent, and each
    * of its names resolves to its own variable. */
  lemma BeginCountedResolves<T>(s: Scope<T>, names: seq<string>, ty: T, x: string)
    requires Consistent(s) && x in names
    ensures Consistent(BeginCounted(s, names, ty))
    ensures IndexOf(BeginCounted(s, names, ty), x).Success?
    ensures Get(BeginCounted(s, names, ty), IndexOf(BeginCounted(s, names, ty), x).value) == Some((x, ty))
  {
    InsertAllCountedConsistent(Child(s, NewFrame()), names, ty, x);
  }

  // ---------------------------------------------------------------------------
  // Compact IRIs and calls
  // ---------------------------------------------------------------------------

  /** Expands `prefix:suffix` with the prefix declared in the context. */
  function BuildCompactIri(prefixes: map<string, string>, isIri: string -> bool, c: string): (r: Result<string, Error>)
    requires ':' in c
    ensures var i := Scopes.FirstColon(c).value;
      (c[..i] !in prefixes ==> r == Failure(UnknownPrefix(c[..i])))
      && (c[..i] in prefixes && r.Success? ==> r.value == prefixes[c[..i]] + c[i + 1..])
  {
    var i := Scopes.FirstColon(c).value;
    var prefix := c[..i];
    if prefix !in prefixes then Failure(UnknownPrefix(prefix))
    else
      var iri := prefixes[prefix] + c[i + 1..];
      if isIri(iri) then Success(iri) else Failure(IriError(iri))
  }

  /** Pairs the arguments of a call with the argument types of the function
    * signature; the counts must agree. */
  function BuildCallArgs<A, T>(signature: seq<T>, args: seq<A>): (r: Result<seq<(A, T)>, Error>)
    ensures r.Success? <==> |args| == |signature|
    ensures r.Failure? ==> r.error == ArgumentCount(|signature|, |args|)
    ensures r.Success? ==> |r.value| == |args|
    ensures r.Success? ==> forall i :: 0 <= i < |args| ==> r.value[i].0 == args[i] && r.value[i].1 == signature[i]
  {
    if |args| != |signature| then Failure(ArgumentCount(|signature|, |args|))
    else Success(seq(|args|, i requires 0 <= i < |args| => (args[i], signature[i])))
  }

  // ---------------------------------------------------------------------------
  // Text strings
  // ---------------------------------------------------------------------------

  /** The value of a hexadecimal digit. */
  function HexValue(c: char): (r: Option<nat>)
    ensures r.Some? ==> r.value < 16
    ensures r.Some? <==> '0' <= c <= '9' || 'a' <= c <= 'f' || 'A' <= c <= 'F'
  {
    if '0' <= c <= '9' then Some(c as nat - '0' as nat)
    else if 'a' <= c <= 'f' then Some(c as nat - 'a' as nat + 10)
    else if 'A' <= c <= 'F' then Some(c as nat - 'A' as nat + 10)
    else None
  }

  /** `char::from_u32`: the Unicode scalar values. */
  function CharFromCode(v: nat): (r: Option<char>)
    ensures r.Some? <==> v < 0xD800 || 0xE000 <= v < 0x11_0000
    ensures r.Some? ==> r.value as nat == v
  {
    if v < 0xD800 || 0xE000 <= v < 0x11_0000 then Some(v as char) else None
  }

  /** Reads the digits of a `\u{…}` escape after the brace: between two and
    * six hexadecimal digits, then `}`. Returns the character and the rest. */
  function DecodeBraced(s: string, value: nat, digits: nat): (r: Result<(char, string), Error>)
    requires digits <= 6
    ensures r.Success? ==> |r.value.1| < |s|
    ensures r.Failure? ==> r.error == StringError
    decreases |s|
  {
    if s == [] then Failure(StringError)
    else if s[0] == '}' && digits >= 2 then
      match CharFromCode(value)
      case Some(c) => Success((c, s[1..]))
      case None => Failure(StringError)
    else if digits < 6 then
      match HexValue(s[0])
      case Some(d) => DecodeBraced(s[1..], value * 16 + d, digits + 1)
      case None => Failure(StringError)
    else Failure(StringError)
  }

  /** Decodes one escape sequence, after its backslash. */
  function DecodeEscape(s: string): (r: Result<(char, string), Error>)
    ensures r.Success? ==> |r.value.1| < |s|
    ensures r.Failure? ==> r.error == StringError
  {
    if s == [] then Failure(StringError)
    else match s[0]
      case 'x' =>
        if |s| < 3 then Failure(StringError)
        else (match (HexValue(s[1]), HexValue(s[2]))
          case (Some(a), Some(b)) => Success(((a * 16 + b) as char, s[3..]))
          case _ => Failure(StringError))
      case 'u' => DecodeUnicode(s)
      case 'U' => DecodeUnicode(s)
      case 't' => Success(('\t', s[1..]))
      case 'r' => Success(('\r', s[1..]))
      case 'n' => Success(('\n', s[1..]))
      case '\'' => Success(('\'', s[1..]))
      case '"' => Success(('"', s[1..]))
      case '\\' => Success(('\\', s[1..]))
      case _ => Failure(StringError)
  }

  function DecodeUnicode(s: string): (r: Result<(char, string), Error>)
    requires s != []
    ensures r.Success? ==> |r.value.1| < |s|
    ensures r.Failure? ==> r.error == StringError
  {
    if |s| >= 2 && s[1] == '{' then DecodeBraced(s[2..], 0, 0) else Failure(StringError)
  }

  /** Decodes the content of a text string, escape by escape. */
  function DecodeContent(s: string): (r: Result<string, Error>)
    ensures r.Failure? ==> r.error == StringError
    ensures '\\' !in s ==> r == Success(s)
    decreases |s|
  {
    if s == [] then Success([])
    else if s[0] == '\\' then
      match DecodeEscape(s[1..])
      case Failure(e) => Failure(e)
      case Success((c, rest)) =>
        match DecodeContent(rest)
        case Failure(e) => Failure(e)
        case Success(tail) => Success([c] + tail)
    else
      assert s == [s[0]] + s[1..];
      match DecodeContent(s[1..])
      case Failure(e) => Failure(e)
      case Success(tail) => Success([s[0]] + tail)
  }

  /** Decodes a quoted text string: the first and last characters are the
    * quotes the lexer matched.  Its only error is the string error, text
    * without a backslash is taken as it is, and a quoted escaped string
    * decodes to the original. */
  function Decode(s: string): (r: Result<string, Error>)
    requires |s| >= 2
    ensures r.Failure? ==> r.error == StringError
    ensures '\\' !in s[1..|s| - 1] ==> r == Success(s[1..|s| - 1])
    ensures forall t :: s == "\"" + Escape(t) + "\"" ==> r == Success(t)
  {
    assert forall t :: s == "\"" + Escape(t) + "\"" ==> DecodeContent(s[1..|s| - 1]) == Success(t) by {
      forall t | s == "\"" + Escape(t) + "\"" ensures DecodeContent(s[1..|s| - 1]) == Success(t) {
        assert s[1..|s| - 1] == Escape(t);
        DecodeEscaped(t);
      }
    }
    DecodeContent(s[1..|s| - 1])
  }

  /** Escapes the characters that have a short escape. */
  function EscapeChar(c: char): (r: string)
    ensures |r| >= 1
  {
    match c
    case '\t' => "\\t"
    case '\r' => "\\r"
    case '\n' => "\\n"
    case '\'' => "\\'"
    case '"' => "\\\""
    case '\\' => "\\\\"
    case _ => [c]
  }

  function Escape(s: string): (r: string)
    ensures '\\' !in s && '"' !in s && '\t' !in s && '\r' !in s && '\n' !in s && '\'' !in s ==> r == s
  {
    if s == [] then [] else EscapeChar(s[0]) + Escape(s[1..])
  }

  /** One escaped character decodes to itself, before whatever follows. */
  lemma EscapeCharDecodes(c: char, rest: string, tail: string)
    requires DecodeContent(rest) == Success(tail)
    ensures DecodeContent(EscapeChar(c) + rest) == Success([c] + tail)
  {
    var e := EscapeChar(c) + rest;
    if c in "\t\r\n'\"\\" {
      assert e[0] == '\\';
      assert e[1..][1..] == rest;
      assert DecodeEscape(e[1..]) == Success((c, rest));
    } else {
      assert e[1..] == rest;
    }
  }

  /** Decoding undoes escaping. */
  lemma {:induction false} DecodeEscaped(s: string)
    ensures DecodeContent(Escape(s)) == Success(s)
  {
    if s != [] {
      DecodeEscaped(s[1..]);
      EscapeCharDecodes(s[0], Escape(s[1..]), s[1..]);
      assert [s[0]] + s[1..] == s;
    }
  }

  /** A quoted escaped string decodes to the original. */
  lemma DecodeQuoted(s: string)
    ensures Decode("\"" + Escape(s) + "\"") == Success(s)
  {
    var q := "\"" + Escape(s) + "\"";
    assert q[1..|q| - 1] == Escape(s);
    DecodeEscaped(s);
  }

  /** `\u{…}` with two hex digits and `\x` with exactly two both name a character. */
  lemma EscapeExamples()
    ensures DecodeContent("\\u{41}") == Success("A")
    ensures DecodeContent("\\x41") == Success("A")
  {
    assert DecodeBraced("}", 65, 2) == Success(('A', ""));
    assert DecodeBraced("41}", 0, 0) == Success(('A', ""));
    assert DecodeEscape("u{41}") == Success(('A', ""));
    var u := "\\u{41}";
    assert u[0] == '\\' && u[1..] == "u{41}";
    assert DecodeContent("") == Success("");
    assert ['A'] + "" == "A";
    assert "\\x41"[1..] == "x41";
    assert DecodeEscape("x41") == Success(('A', ""));
  }

  /** Escapes that name no character are rejected: too few digits, an
    * unknown escape letter, a surrogate code point. */
  lemma BadEscapeExamples()
    ensures DecodeContent("\\u{1}").Failure?
    ensures DecodeContent("\\q").Failure?
    ensures DecodeContent("\\u{D800}").Failure?
  {
    assert DecodeBraced("}", 1, 1) == Failure(StringError);
    assert DecodeBraced("1}", 0, 0) == Failure(StringError);
    assert DecodeBraced("}", 0xD800, 4).Failure?;
    assert DecodeBraced("D800}", 0, 0).Failure?;
  }
}
