/** The regular-expression AST of literal layouts: construction (`push`,
    `repeat`), simplification, singleton detection and the hand-written
    parser. Character sets are finite sets of Unicode scalar values; Dafny's
    `char` ranges over the same values as Rust's `char`. */
module RegExps {
  import opened Wrappers

  const U32_MAX: nat := 0xFFFF_FFFF

  datatype RegExp =
    | Any
    | Set(chars: set<char>)
    | Sequence(items: seq<RegExp>)
    | Repeat(body: RegExp, min: nat, max: nat)
    | Union(options: seq<RegExp>)

  datatype ParseError =
    | UnmatchedClosingParenthesis
    | MissingClosingParenthesis
    | IncompleteEscapeSequence
    | IncompleteCharacterSet

  function Empty(): RegExp { Sequence([]) }

  /** Every character that is not in `s`. */
  function Complement(s: set<char>): (r: set<char>)
    ensures forall c :: c in r <==> c !in s
  {
    set c: char | c !in s
  }

  predicate InRange(a: char, b: char, c: char) { a <= c <= b }

  /** The inclusive range `a..=b` (empty when `b < a`). */
  function Range(a: char, b: char): (r: set<char>)
    ensures forall c :: c in r <==> a <= c <= b
  {
    set c: char | InRange(a, b, c)
  }

  /** `self` followed by `e`. */
  function Push(r: RegExp, e: RegExp): RegExp {
    match r
    case Sequence(items) => if |items| == 0 then e else Sequence(items + [e])
    case Union(options) => if |options| == 0 then e else Sequence([r, e])
    case _ => Sequence([r, e])
  }

  predicate IsEmpty(r: RegExp) {
    match r
    case Any => false
    case Set(chars) => |chars| == 0
    case Sequence(items) => forall i :: 0 <= i < |items| ==> IsEmpty(items[i])
    case Union(options) => forall i :: 0 <= i < |options| ==> IsEmpty(options[i])
    case Repeat(e, lo, hi) => IsEmpty(e) || (lo == 0 && hi == 0)
  }

  predicate IsSingleton(r: RegExp) {
    match r
    case Any => false
    case Set(chars) => |chars| == 1
    case Sequence(items) => forall i :: 0 <= i < |items| ==> IsSingleton(items[i])
    case Repeat(e, lo, hi) => lo == hi && IsSingleton(e)
    case Union(options) => |options| == 1 && IsSingleton(options[0])
  }

  lemma SingletonSet(s: set<char>)
    requires |s| == 1
    ensures exists c :: s == {c}
  {
    var c :| c in s;
    assert |s - {c}| == 0;
    assert s == {c};
  }

  /** The only element of a one-element set. */
  function TheChar(s: set<char>): (c: char)
    requires |s| == 1
    ensures s == {c}
  {
    SingletonSet(s);
    var c :| s == {c};
    c
  }

  /** `build_singleton`: the word of a singleton expression, as the source
      computes it (the body of a `Repeat` is written once). */
  function BuildSingleton(r: RegExp): (w: string)
    requires IsSingleton(r)
    ensures r.Set? ==> |w| == 1 && r.chars == {w[0]}
  {
    match r
    case Set(chars) => [TheChar(chars)]
    case Sequence(items) => BuildSingletonSeq(items)
    case Repeat(e, _, _) => BuildSingleton(e)
    case Union(options) => BuildSingleton(options[0])
  }

  function BuildSingletonSeq(items: seq<RegExp>): string
    requires forall i :: 0 <= i < |items| ==> IsSingleton(items[i])
  {
    if |items| == 0 then [] else BuildSingleton(items[0]) + BuildSingletonSeq(items[1..])
  }

  function AsSingleton(r: RegExp): (o: Option<string>)
    ensures o.Some? <==> IsSingleton(r)
  {
    if IsSingleton(r) then Some(BuildSingleton(r)) else None
  }

  function Simplified(r: RegExp): RegExp {
    match r
    case Any => Any
    case Set(chars) => Set(chars)
    case Sequence(items) => Sequence(SimplifiedItems(items))
    case Union(options) =>
      if |options| == 1 then Simplified(options[0])
      else Union(seq(|options|, i requires 0 <= i < |options| => Simplified(options[i])))
    case Repeat(e, lo, hi) => Repeat(Simplified(e), lo, hi)
  }

  /** The simplified non-empty items of a sequence, in order. */
  function SimplifiedItems(items: seq<RegExp>): seq<RegExp> {
    if |items| == 0 then []
    else (if IsEmpty(items[0]) then [] else [Simplified(items[0])]) + SimplifiedItems(items[1..])
  }

  // ---------------------------------------------------------------------
  // Properties of construction and simplification

  /** Pushing concatenates singleton words. */
  lemma PushSingleton(r: RegExp, e: RegExp)
    requires IsSingleton(r) && IsSingleton(e)
    ensures IsSingleton(Push(r, e))
    ensures BuildSingleton(Push(r, e)) == BuildSingleton(r) + BuildSingleton(e)
  {
    match r
    case Any =>
    case Sequence(items) =>
      if |items| > 0 {
        SingletonSeqAppend(items, e);
      } else {
        assert BuildSingleton(r) == [];
      }
    case Set(_) => SingletonPair(r, e);
    case Repeat(_, _, _) => SingletonPair(r, e);
    case Union(_) => SingletonPair(r, e);
  }

  lemma SingletonPair(r: RegExp, e: RegExp)
    requires IsSingleton(r) && IsSingleton(e)
    ensures IsSingleton(Sequence([r, e]))
    ensures BuildSingleton(Sequence([r, e])) == BuildSingleton(r) + BuildSingleton(e)
  {
    assert [r, e][1..] == [e];
    assert [e][1..] == [];
    assert BuildSingletonSeq([e]) == BuildSingleton(e) + BuildSingletonSeq([]);
  }

  lemma {:induction false} SingletonSeqAppend(items: seq<RegExp>, e: RegExp)
    requires forall i :: 0 <= i < |items| ==> IsSingleton(items[i])
    requires IsSingleton(e)
    ensures BuildSingletonSeq(items + [e]) == BuildSingletonSeq(items) + BuildSingleton(e)
  {
    if |items| == 0 {
      assert [] + [e] == [e];
      assert [e][1..] == [];
    } else {
      assert (items + [e])[1..] == items[1..] + [e];
      SingletonSeqAppend(items[1..], e);
    }
  }

  /** Pushing preserves emptiness exactly when both sides are empty. */
  lemma PushIsEmpty(r: RegExp, e: RegExp)
    ensures IsEmpty(Push(r, e)) <==> IsEmpty(r) && IsEmpty(e)
  {
    match r
    case Sequence(items) =>
      if |items| > 0 {
        var s := items + [e];
        assert forall i :: 0 <= i < |items| ==> s[i] == items[i];
        assert s[|items|] == e;
      }
    case Union(options) =>
      if |options| > 0 {
        assert [r, e][0] == r && [r, e][1] == e;
      }
    case _ =>
      assert [r, e][0] == r && [r, e][1] == e;
  }

  /** `RegExp::from(s)`: the sequence of one-character sets of `s`. */
  function FromString(s: string): RegExp {
    PushChars(Empty(), s)
  }

  function PushChars(r: RegExp, s: string): RegExp
    decreases |s|
  {
    if |s| == 0 then r else PushChars(Push(r, Set({s[0]})), s[1..])
  }

  lemma {:induction false} PushCharsSingleton(r: RegExp, s: string)
    requires IsSingleton(r)
    ensures IsSingleton(PushChars(r, s))
    ensures BuildSingleton(PushChars(r, s)) == BuildSingleton(r) + s
    decreases |s|
  {
    if |s| > 0 {
      var e := Set({s[0]});
      assert IsSingleton(e);
      PushSingleton(r, e);
      assert BuildSingleton(e) == [s[0]];
      PushCharsSingleton(Push(r, e), s[1..]);
      assert [s[0]] + s[1..] == s;
      assert BuildSingleton(r) + [s[0]] + s[1..] == BuildSingleton(r) + s;
    }
  }

  /** The expression built from a string is a singleton for that string. */
  lemma FromStringAsSingleton(s: string)
    ensures AsSingleton(FromString(s)) == Some(s)
  {
    assert BuildSingleton(Empty()) == [];
    PushCharsSingleton(Empty(), s);
    assert [] + s == s;
    assert IsSingleton(FromString(s)) && BuildSingleton(FromString(s)) == s;
  }

  /** `Repeat(e, 0, 0)` is empty, and `Repeat` is a singleton iff both bounds
      agree and its body is a singleton. */
  lemma RepeatEmptyAndSingleton(e: RegExp, lo: nat, hi: nat)
    ensures IsEmpty(Repeat(e, 0, 0))
    ensures IsSingleton(Repeat(e, lo, hi)) <==> lo == hi && IsSingleton(e)
    ensures IsSingleton(Repeat(e, lo, hi)) ==> AsSingleton(Repeat(e, lo, hi)) == AsSingleton(e)
  {
  }

  /** Simplification does not change whether an expression is empty. */
  lemma {:induction false} SimplifiedIsEmpty(r: RegExp)
    ensures IsEmpty(Simplified(r)) <==> IsEmpty(r)
    decreases r, 1
  {
    match r
    case Any =>
    case Set(_) =>
    case Sequence(items) =>
      SimplifiedItemsIsEmpty(items);
      var si := SimplifiedItems(items);
      if |si| > 0 {
        assert !IsEmpty(si[0]);
      }
    case Union(options) =>
      if |options| == 1 {
        SimplifiedIsEmpty(options[0]);
      } else {
        var m := Simplified(r).options;
        assert |m| == |options|;
        forall i | 0 <= i < |options| ensures IsEmpty(m[i]) <==> IsEmpty(options[i]) {
          SimplifiedIsEmpty(options[i]);
          assert m[i] == Simplified(options[i]);
        }
      }
    case Repeat(e, _, _) => SimplifiedIsEmpty(e);
  }

  /** The simplified items are never empty, and they are all empty (there are
      none) exactly when every original item is empty. */
  lemma {:induction false} SimplifiedItemsIsEmpty(items: seq<RegExp>)
    ensures forall i :: 0 <= i < |SimplifiedItems(items)| ==> !IsEmpty(SimplifiedItems(items)[i])
    ensures |SimplifiedItems(items)| == 0 <==> forall i :: 0 <= i < |items| ==> IsEmpty(items[i])
    decreases items, 0
  {
    if |items| > 0 {
      SimplifiedItemsIsEmpty(items[1..]);
      if !IsEmpty(items[0]) {
        SimplifiedIsEmpty(items[0]);
      }
      if forall i :: 0 <= i < |items[1..]| ==> IsEmpty(items[1..][i]) {
        if IsEmpty(items[0]) {
          forall i | 0 <= i < |items| ensures IsEmpty(items[i]) {
            if i > 0 { assert items[i] == items[1..][i - 1]; }
          }
        }
      } else {
        var i :| 0 <= i < |items[1..]| && !IsEmpty(items[1..][i]);
        assert items[i + 1] == items[1..][i];
      }
    }
  }

  /** `simplified` removes empty items from sequences and unwraps one-option
      unions. */
  lemma SimplifiedShape(r: RegExp)
    ensures r.Sequence? ==> (Simplified(r).Sequence?
      && forall i :: 0 <= i < |Simplified(r).items| ==> !IsEmpty(Simplified(r).items[i]))
    ensures r.Sequence? && (forall i :: 0 <= i < |r.items| ==> IsEmpty(r.items[i])) ==> Simplified(r) == Empty()
    ensures r.Union? && |r.options| == 1 ==> Simplified(r) == Simplified(r.options[0])
    ensures r.Union? && |r.options| != 1 ==> Simplified(r).Union? && |Simplified(r).options| == |r.options|
  {
    if r.Sequence? {
      SimplifiedItemsIsEmpty(r.items);
    }
  }

  // ---------------------------------------------------------------------
  // Parsing

  function EscapedChar(c: char): char {
    match c
    case '0' => 0 as char
    case 'a' => 7 as char
    case 'b' => 8 as char
    case 't' => '\t'
    case 'n' => '\n'
    case 'v' => 11 as char
    case 'f' => 12 as char
    case 'r' => '\r'
    case 'e' => 27 as char
    case _ => c
  }

  /** `parse_escaped_char`, reading the character after a `\` at `s[i]`. */
  function ParseEscapedChar(s: string, i: nat): (res: Result<(char, nat), ParseError>)
    requires i <= |s|
    ensures res.Failure? <==> i == |s|
    ensures res.Failure? ==> res.error == IncompleteEscapeSequence
    ensures res.Success? ==> res.value.1 == i + 1 && res.value.0 == EscapedChar(s[i])
  {
    if i == |s| then Failure(IncompleteEscapeSequence) else Success((EscapedChar(s[i]), i + 1))
  }

  datatype CharsetState = Start | RangeStart | RangeDashOrStart | RangeEnd

  function AddOpt(acc: set<char>, c: Option<char>): set<char> {
    if c.Some? then acc + {c.value} else acc
  }

  function Finish(negate: bool, acc: set<char>): set<char> {
    if negate then Complement(acc) else acc
  }

  /** The loop of `parse_charset`, reading from `s[i]` onwards (after `[`).
      On success, the position after the closing `]` is returned. */
  function CharsetLoop(s: string, i: nat, state: CharsetState, negate: bool, acc: set<char>, start: Option<char>)
    : (res: Result<(set<char>, nat), ParseError>)
    requires i <= |s|
    requires state == RangeEnd || state == RangeDashOrStart ==> start.Some?
    ensures res.Success? ==> i < res.value.1 <= |s| && s[res.value.1 - 1] == ']'
    decreases |s| - i
  {
    if i == |s| then Failure(IncompleteCharacterSet)
    else
      var c := s[i];
      if c == '^' && state == Start then
        CharsetLoop(s, i + 1, RangeStart, true, acc, start)
      else if state == RangeDashOrStart && c == '-' then
        CharsetLoop(s, i + 1, RangeEnd, negate, acc, start)
      else if state != RangeEnd && c == ']' then
        Success((Finish(negate, AddOpt(acc, start)), i + 1))
      else
        match ReadMember(s, i)
        case Failure(e) => Failure(e)
        case Success((d, j)) =>
          if state != RangeEnd then CharsetLoop(s, j, RangeDashOrStart, negate, AddOpt(acc, start), Some(d))
          else CharsetLoop(s, j, RangeStart, negate, acc + Range(start.value, d), None)
  }

  /** A member character of a set at `s[i]`: an escape sequence, or the
      character itself. */
  function ReadMember(s: string, i: nat): (res: Result<(char, nat), ParseError>)
    requires i < |s|
    ensures s[i] != '\\' ==> res == Success((s[i], i + 1))
    ensures s[i] == '\\' ==> res == ParseEscapedChar(s, i + 1)
    ensures res.Success? ==> i < res.value.1 <= |s|
  {
    if s[i] == '\\' then ParseEscapedChar(s, i + 1) else Success((s[i], i + 1))
  }

  function ParseCharset(s: string, i: nat): (res: Result<(set<char>, nat), ParseError>)
    requires i <= |s|
    ensures res.Success? ==> i < res.value.1 <= |s|
  {
    CharsetLoop(s, i, Start, false, {}, None)
  }

  /** A parser stack: one frame per open parenthesis, each frame holding the
      alternatives read so far (the last one is being extended). */
  predicate WellFormed(stack: seq<seq<RegExp>>) {
    |stack| > 0 && forall k :: 0 <= k < |stack| ==> |stack[k]| > 0
  }

  function Top(stack: seq<seq<RegExp>>): seq<RegExp>
    requires WellFormed(stack)
  {
    stack[|stack| - 1]
  }

  /** The alternative currently being extended. */
  function Current(stack: seq<seq<RegExp>>): RegExp
    requires WellFormed(stack)
  {
    Top(stack)[|Top(stack)| - 1]
  }

  /** Replaces the alternative currently being extended by `r`. */
  function WithCurrent(stack: seq<seq<RegExp>>, r: RegExp): (res: seq<seq<RegExp>>)
    requires WellFormed(stack)
    ensures WellFormed(res) && |res| == |stack| && Current(res) == r
  {
    var top := Top(stack);
    stack[..|stack| - 1] + [top[..|top| - 1] + [r]]
  }

  /** Change of nesting depth caused by a character outside sets and escapes. */
  function DepthChange(c: char): int {
    if c == '(' then 1 else if c == ')' then -1 else 0
  }

  /** One iteration of the loop of `parse`: the position and stack after the
      character at `s[i]` (and whatever it consumes after it). */
  function Step(s: string, i: nat, stack: seq<seq<RegExp>>): (res: Result<(nat, seq<seq<RegExp>>), ParseError>)
    requires i < |s| && WellFormed(stack)
    ensures res.Success? ==> i < res.value.0 <= |s| && WellFormed(res.value.1)
    ensures s[i] != '[' && s[i] != '\\' ==>
      && (res.Failure? <==> s[i] == ')' && |stack| == 1)
      && (res.Failure? ==> res.error == UnmatchedClosingParenthesis)
      && (res.Success? ==> res.value.0 == i + 1 && |res.value.1| == |stack| + DepthChange(s[i]))
  {
    match s[i]
    case '(' => Success((i + 1, stack + [[Empty()]]))
    case ')' =>
      var sub := Simplified(Union(Top(stack)));
      var rest := stack[..|stack| - 1];
      if |rest| == 0 then Failure(UnmatchedClosingParenthesis)
      else Success((i + 1, WithCurrent(rest, Push(Current(rest), sub))))
    case '|' =>
      var res := stack[..|stack| - 1] + [Top(stack) + [Empty()]];
      assert forall k :: 0 <= k < |stack| - 1 ==> res[k] == stack[k];
      Success((i + 1, res))
    case '[' =>
      (match ParseCharset(s, i + 1)
       case Failure(e) => Failure(e)
       case Success((cs, j)) => Success((j, WithCurrent(stack, Push(Current(stack), Set(cs))))))
    case '\\' =>
      (match ParseEscapedChar(s, i + 1)
       case Failure(e) => Failure(e)
       case Success((c, j)) => Success((j, WithCurrent(stack, Push(Current(stack), Set({c}))))))
    case '?' => Success((i + 1, WithCurrent(stack, Repeat(Current(stack), 0, 1))))
    case '*' => Success((i + 1, WithCurrent(stack, Repeat(Current(stack), 0, U32_MAX))))
    case '+' => Success((i + 1, WithCurrent(stack, Repeat(Current(stack), 1, U32_MAX))))
    case c => Success((i + 1, WithCurrent(stack, Push(Current(stack), Set({c})))))
  }

  /** The end of `parse`: every parenthesis must have been closed. */
  function End(stack: seq<seq<RegExp>>): Result<RegExp, ParseError>
    requires WellFormed(stack)
  {
    if |stack| == 1 then Success(Simplified(Union(stack[0]))) else Failure(MissingClosingParenthesis)
  }

  function ParseAt(s: string, i: nat, stack: seq<seq<RegExp>>): Result<RegExp, ParseError>
    requires i <= |s| && WellFormed(stack)
    decreases |s| - i
  {
    if i == |s| then End(stack)
    else
      match Step(s, i, stack)
      case Failure(e) => Failure(e)
      case Success((j, next)) => ParseAt(s, j, next)
  }

  function Parse(s: string): Result<RegExp, ParseError> {
    ParseAt(s, 0, [[Empty()]])
  }

  // ---------------------------------------------------------------------
  // Properties of parsing

  /** The postfix operators wrap the alternative being extended. */
  lemma PostfixOperators(s: string, i: nat, stack: seq<seq<RegExp>>)
    requires i < |s| && WellFormed(stack)
    ensures s[i] == '?' ==> ParseAt(s, i, stack) == ParseAt(s, i + 1, WithCurrent(stack, Repeat(Current(stack), 0, 1)))
    ensures s[i] == '*' ==> ParseAt(s, i, stack) == ParseAt(s, i + 1, WithCurrent(stack, Repeat(Current(stack), 0, U32_MAX)))
    ensures s[i] == '+' ==> ParseAt(s, i, stack) == ParseAt(s, i + 1, WithCurrent(stack, Repeat(Current(stack), 1, U32_MAX)))
  {
  }

  lemma WithCurrentRoot(x: RegExp, r: RegExp)
    ensures WithCurrent([[x]], r) == [[r]]
  {
    var st: seq<seq<RegExp>> := [[x]];
    var none: seq<RegExp> := [];
    assert st[..0] == [] && Top(st) == [x] && Top(st)[..0] == none;
    assert none + [r] == [r];
    assert [] + [[r]] == [[r]];
  }

  lemma WithCurrentNested(x: RegExp, y: RegExp, r: RegExp)
    ensures WithCurrent([[x], [y]], r) == [[x], [r]]
  {
    var st: seq<seq<RegExp>> := [[x], [y]];
    var none: seq<RegExp> := [];
    assert st[..1] == [[x]] && Top(st) == [y] && Top(st)[..0] == none;
    assert none + [r] == [r];
    assert [[x]] + [[r]] == [[x], [r]];
  }

  lemma WithCurrentSecond(x: RegExp, y: RegExp, r: RegExp)
    ensures WithCurrent([[x, y]], r) == [[x, r]]
  {
    var st: seq<seq<RegExp>> := [[x, y]];
    assert st[..0] == [] && Top(st) == [x, y] && Top(st)[..1] == [x];
    assert [x] + [r] == [x, r];
    assert [] + [[x, r]] == [[x, r]];
  }

  predicate Special(c: char) {
    c in {'(', ')', '|', '[', '\\', '?', '*', '+'}
  }

  lemma StepLiteral(s: string, i: nat, st: seq<seq<RegExp>>)
    requires i < |s| && WellFormed(st) && !Special(s[i])
    ensures ParseAt(s, i, st) == ParseAt(s, i + 1, WithCurrent(st, Push(Current(st), Set({s[i]}))))
  {
  }

  lemma StepStar(s: string, i: nat, st: seq<seq<RegExp>>)
    requires i < |s| && WellFormed(st) && s[i] == '*'
    ensures ParseAt(s, i, st) == ParseAt(s, i + 1, WithCurrent(st, Repeat(Current(st), 0, U32_MAX)))
  {
  }

  lemma StepEnd(s: string, st: seq<seq<RegExp>>)
    requires WellFormed(st) && |st| == 1
    ensures ParseAt(s, |s|, st) == Success(Simplified(Union(st[0])))
  {
  }

  /** The test vector `a*`. */
  lemma ParseStarVector()
    ensures Parse("a*") == Success(Repeat(Set({'a'}), 0, U32_MAX))
  {
    var a, E := Set({'a'}), Empty();
    var s := "a*";
    WithCurrentRoot(E, a);
    StepLiteral(s, 0, [[E]]);
    var ra := Repeat(a, 0, U32_MAX);
    WithCurrentRoot(a, ra);
    StepStar(s, 1, [[a]]);
    StepEnd(s, [[ra]]);
    assert Simplified(Union([ra])) == ra;
  }

  /** One step of the loop, as a rewriting of the remaining parse. */
  lemma Chain(s: string, i: nat, st: seq<seq<RegExp>>, j: nat, st2: seq<seq<RegExp>>)
    requires i < |s| && WellFormed(st) && Step(s, i, st) == Success((j, st2))
    ensures ParseAt(s, i, st) == ParseAt(s, j, st2)
  {
  }

  // The expressions of the test vector `(abc)|de`.
  function VA(): RegExp { Set({'a'}) }
  function VB(): RegExp { Set({'b'}) }
  function VC(): RegExp { Set({'c'}) }
  function VD(): RegExp { Set({'d'}) }
  function VE(): RegExp { Set({'e'}) }
  function VAB(): RegExp { Sequence([VA(), VB()]) }
  function VABC(): RegExp { Sequence([VA(), VB(), VC()]) }
  function VDE(): RegExp { Sequence([VD(), VE()]) }
  function VUnion(): RegExp { Union([VABC(), VDE()]) }
  function VText(): string { "(abc)|de" }

  lemma ABCSimplified()
    ensures Simplified(VABC()) == VABC()
  {
    assert SimplifiedItems([VA(), VB(), VC()]) == [VA(), VB(), VC()] by {
      assert [VA(), VB(), VC()][1..] == [VB(), VC()];
      assert [VB(), VC()][1..] == [VC()];
      assert [VC()][1..] == [];
    }
  }

  lemma UnionVectorTail()
    ensures ParseAt(VText(), 5, [[VABC()]]) == Success(VUnion())
  {
    var t, E := VText(), Empty();
    var st: seq<seq<RegExp>> := [[VABC()]];
    var none: seq<seq<RegExp>> := [];
    assert st[..0] == none && Top(st) + [E] == [VABC(), E];
    assert none + [[VABC(), E]] == [[VABC(), E]];
    assert Step(t, 5, st) == Success((6, [[VABC(), E]]));
    Chain(t, 5, st, 6, [[VABC(), E]]);
    UnionVectorLast();
  }

  lemma UnionVectorLast()
    ensures ParseAt(VText(), 6, [[VABC(), Empty()]]) == Success(VUnion())
  {
    var t, E := VText(), Empty();
    WithCurrentSecond(VABC(), E, VD());
    assert Step(t, 6, [[VABC(), E]]) == Success((7, [[VABC(), VD()]]));
    Chain(t, 6, [[VABC(), E]], 7, [[VABC(), VD()]]);
    UnionVectorE();
  }

  lemma UnionVectorE()
    ensures ParseAt(VText(), 7, [[VABC(), VD()]]) == Success(VUnion())
  {
    var t := VText();
    WithCurrentSecond(VABC(), VD(), VDE());
    assert [VD()] + [VE()] == [VD(), VE()];
    assert Step(t, 7, [[VABC(), VD()]]) == Success((8, [[VABC(), VDE()]]));
    Chain(t, 7, [[VABC(), VD()]], 8, [[VABC(), VDE()]]);
    UnionSimplified();
  }

  lemma UnionSimplified()
    ensures Simplified(Union([VABC(), VDE()])) == VUnion()
  {
    assert SimplifiedItems([VD(), VE()]) == [VD(), VE()] by {
      assert [VD(), VE()][1..] == [VE()];
      assert [VE()][1..] == [];
    }
    ABCSimplified();
  }

  lemma UnionVectorGroup()
    ensures ParseAt(VText(), 3, [[Empty()], [VAB()]]) == ParseAt(VText(), 5, [[VABC()]])
  {
    UnionVectorC();
    UnionVectorClose();
  }

  lemma UnionVectorC()
    ensures ParseAt(VText(), 3, [[Empty()], [VAB()]]) == ParseAt(VText(), 4, [[Empty()], [VABC()]])
  {
    var t, E := VText(), Empty();
    WithCurrentNested(E, VAB(), VABC());
    assert [VA(), VB()] + [VC()] == [VA(), VB(), VC()];
    assert Step(t, 3, [[E], [VAB()]]) == Success((4, [[E], [VABC()]]));
    Chain(t, 3, [[E], [VAB()]], 4, [[E], [VABC()]]);
  }

  lemma UnionVectorClose()
    ensures ParseAt(VText(), 4, [[Empty()], [VABC()]]) == ParseAt(VText(), 5, [[VABC()]])
  {
    var t, E := VText(), Empty();
    StepCloseRoot(t, 4, E, [VABC()]);
    ABCSimplified();
    assert Simplified(Union([VABC()])) == VABC();
    assert Push(E, VABC()) == VABC();
    Chain(t, 4, [[E], [VABC()]], 5, [[VABC()]]);
  }

  /** Closing the only group pushes its simplified union onto the
      alternative being extended at the root. */
  lemma StepCloseRoot(s: string, i: nat, x: RegExp, top: seq<RegExp>)
    requires i < |s| && s[i] == ')' && |top| > 0
    ensures Step(s, i, [[x], top]) == Success((i + 1, [[Push(x, Simplified(Union(top)))]]))
  {
    var st: seq<seq<RegExp>> := [[x], top];
    assert st[..1] == [[x]];
    WithCurrentRoot(x, Push(x, Simplified(Union(top))));
  }

  lemma UnionVectorHead()
    ensures ParseAt(VText(), 0, [[Empty()]]) == ParseAt(VText(), 3, [[Empty()], [VAB()]])
  {
    var t, E := VText(), Empty();
    assert [[E]] + [[E]] == [[E], [E]];
    assert Step(t, 0, [[E]]) == Success((1, [[E], [E]]));
    Chain(t, 0, [[E]], 1, [[E], [E]]);
    UnionVectorOpen();
  }

  lemma UnionVectorOpen()
    ensures ParseAt(VText(), 1, [[Empty()], [Empty()]]) == ParseAt(VText(), 3, [[Empty()], [VAB()]])
  {
    UnionVectorA();
    UnionVectorB();
  }

  lemma UnionVectorA()
    ensures ParseAt(VText(), 1, [[Empty()], [Empty()]]) == ParseAt(VText(), 2, [[Empty()], [VA()]])
  {
    var t, E := VText(), Empty();
    WithCurrentNested(E, E, VA());
    assert Step(t, 1, [[E], [E]]) == Success((2, [[E], [VA()]]));
    Chain(t, 1, [[E], [E]], 2, [[E], [VA()]]);
  }

  lemma UnionVectorB()
    ensures ParseAt(VText(), 2, [[Empty()], [VA()]]) == ParseAt(VText(), 3, [[Empty()], [VAB()]])
  {
    var t, E := VText(), Empty();
    WithCurrentNested(E, VA(), VAB());
    assert Step(t, 2, [[E], [VA()]]) == Success((3, [[E], [VAB()]]));
    Chain(t, 2, [[E], [VA()]], 3, [[E], [VAB()]]);
  }

  /** The test vector `(abc)|de`: the union of `abc` and `de`. */
  lemma ParseUnionVector()
    ensures Parse("(abc)|de") == Success(Union([
      Sequence([Set({'a'}), Set({'b'}), Set({'c'})]),
      Sequence([Set({'d'}), Set({'e'})])]))
  {
    UnionVectorHead();
    UnionVectorGroup();
    UnionVectorTail();
  }

  /** Parenthesis matching, independently of the parser: how a scan from
      depth `d` ends. */
  datatype Balance = Balanced | Unclosed | Unopened

  function ParenBalance(s: string, i: nat, d: nat): Balance
    requires i <= |s|
    decreases |s| - i
  {
    if i == |s| then (if d == 0 then Balanced else Unclosed)
    else if s[i] == '(' then ParenBalance(s, i + 1, d + 1)
    else if s[i] == ')' then (if d == 0 then Unopened else ParenBalance(s, i + 1, d - 1))
    else ParenBalance(s, i + 1, d)
  }

  /** No character set and no escape from position `i` on. */
  predicate PlainFrom(s: string, i: nat) {
    forall j :: i <= j < |s| ==> s[j] != '[' && s[j] != '\\'
  }

  lemma {:induction false} ParseAtBalance(s: string, i: nat, stack: seq<seq<RegExp>>)
    requires i <= |s| && WellFormed(stack) && PlainFrom(s, i)
    ensures ParseAt(s, i, stack).Success? <==> ParenBalance(s, i, |stack| - 1) == Balanced
    ensures ParseAt(s, i, stack) == Failure(UnmatchedClosingParenthesis) <==> ParenBalance(s, i, |stack| - 1) == Unopened
    ensures ParseAt(s, i, stack) == Failure(MissingClosingParenthesis) <==> ParenBalance(s, i, |stack| - 1) == Unclosed
    decreases |s| - i
  {
    if i < |s| {
      StepBalance(s, i, stack);
      var r := Step(s, i, stack);
      if r.Success? {
        Chain(s, i, stack, r.value.0, r.value.1);
        ParseAtBalance(s, r.value.0, r.value.1);
      }
    }
  }

  /** One plain step moves the parser and the parenthesis scan alike: a `)`
      with nothing open fails in both, anything else advances both by one
      character at the same depth. */
  lemma StepBalance(s: string, i: nat, stack: seq<seq<RegExp>>)
    requires i < |s| && WellFormed(stack) && PlainFrom(s, i)
    ensures var r := Step(s, i, stack);
      && (r.Failure? <==> s[i] == ')' && |stack| == 1)
      && (r.Failure? ==> r.error == UnmatchedClosingParenthesis && ParenBalance(s, i, |stack| - 1) == Unopened)
      && (r.Success? ==> r.value.0 == i + 1 && ParenBalance(s, i, |stack| - 1) == ParenBalance(s, i + 1, |r.value.1| - 1))
  {
    assert s[i] != '[' && s[i] != '\\';
  }

  /** Without character sets and escapes, parsing fails with
      `UnmatchedClosingParenthesis` exactly when a `)` has no opening
      parenthesis, with `MissingClosingParenthesis` exactly when a `(` is left
      open, and succeeds otherwise. */
  lemma ParseParentheses(s: string)
    requires PlainFrom(s, 0)
    ensures Parse(s).Success? <==> ParenBalance(s, 0, 0) == Balanced
    ensures Parse(s) == Failure(UnmatchedClosingParenthesis) <==> ParenBalance(s, 0, 0) == Unopened
    ensures Parse(s) == Failure(MissingClosingParenthesis) <==> ParenBalance(s, 0, 0) == Unclosed
  {
    ParseAtBalance(s, 0, [[Empty()]]);
  }

  /** Characters with no meaning inside a character set body. */
  predicate LiteralInCharset(c: char) { c != ']' && c != '-' && c != '\\' }

  function Elems(s: string, i: nat, e: nat): set<char>
    requires i <= e <= |s|
  {
    set j | i <= j < e :: s[j]
  }

  lemma {:induction false} CharsetLiterals(s: string, i: nat, e: nat, state: CharsetState, negate: bool,
                                           acc: set<char>, start: Option<char>)
    requires i <= e < |s| && s[e] == ']'
    requires forall j :: i <= j < e ==> LiteralInCharset(s[j])
    requires state == RangeStart || (state == RangeDashOrStart && start.Some?)
    ensures CharsetLoop(s, i, state, negate, acc, start) == Success((Finish(negate, AddOpt(acc, start) + Elems(s, i, e)), e + 1))
    decreases e - i
  {
    if i == e {
      assert Elems(s, i, e) == {};
      assert AddOpt(acc, start) + Elems(s, i, e) == AddOpt(acc, start);
    } else {
      CharsetLiterals(s, i + 1, e, RangeDashOrStart, negate, AddOpt(acc, start), Some(s[i]));
      assert AddOpt(AddOpt(acc, start), Some(s[i])) + Elems(s, i + 1, e) == AddOpt(acc, start) + Elems(s, i, e);
    }
  }

  /** `[^t]` with literal characters `t` denotes the complement of `t`'s
      characters, and `[t]` (with `t` not starting with `^`) denotes them. */
  lemma ParseCharsetLiterals(t: string)
    requires forall j :: 0 <= j < |t| ==> LiteralInCharset(t[j])
    ensures Parse("[^" + t + "]") == Success(Set(Complement(Elems(t, 0, |t|))))
    ensures |t| > 0 && t[0] != '^' ==> Parse("[" + t + "]") == Success(Set(Elems(t, 0, |t|)))
  {
    var s := "[^" + t + "]";
    CharsetLiterals(s, 2, |s| - 1, RangeStart, true, {}, None);
    assert Elems(s, 2, |s| - 1) == Elems(t, 0, |t|) by {
      forall c ensures c in Elems(s, 2, |s| - 1) <==> c in Elems(t, 0, |t|) {
        if c in Elems(t, 0, |t|) {
          var j :| 0 <= j < |t| && t[j] == c;
          assert s[j + 2] == c;
        }
      }
    }
    assert s[1] == '^';
    assert AddOpt({}, None) + Elems(s, 2, |s| - 1) == Elems(t, 0, |t|);
    SingleOptionParse(s, Set(Complement(Elems(t, 0, |t|))));
    if |t| > 0 && t[0] != '^' {
      var s' := "[" + t + "]";
      assert s'[1] == t[0];
      CharsetLiterals(s', 2, |s'| - 1, RangeDashOrStart, false, {}, Some(t[0]));
      assert AddOpt({}, Some(t[0])) + Elems(s', 2, |s'| - 1) == Elems(t, 0, |t|) by {
        forall c ensures c in AddOpt({}, Some(t[0])) + Elems(s', 2, |s'| - 1) <==> c in Elems(t, 0, |t|) {
          if c in Elems(t, 0, |t|) && c != t[0] {
            var j :| 0 <= j < |t| && t[j] == c;
            assert s'[j + 1] == c;
          }
        }
      }
      SingleOptionParse(s', Set(Elems(t, 0, |t|)));
    }
  }

  /** A string made of one character set parses to that set. */
  lemma SingleOptionParse(s: string, r: RegExp)
    requires |s| > 0 && s[0] == '['
    requires r.Set? && ParseCharset(s, 1) == Success((r.chars, |s|))
    ensures Parse(s) == Success(r)
  {
    assert Push(Empty(), r) == r;
    WithCurrentRoot(Empty(), r);
    assert ParseAt(s, 0, [[Empty()]]) == ParseAt(s, |s|, [[r]]);
    StepEnd(s, [[r]]);
    assert Simplified(Union([r])) == r;
  }

  /** A character set that is never closed fails with
      `IncompleteCharacterSet`. */
  lemma {:induction false} CharsetUnclosed(s: string, i: nat, state: CharsetState, negate: bool,
                                           acc: set<char>, start: Option<char>)
    requires i <= |s|
    requires state == RangeEnd || state == RangeDashOrStart ==> start.Some?
    requires forall j :: i <= j < |s| ==> s[j] != ']' && s[j] != '\\'
    ensures CharsetLoop(s, i, state, negate, acc, start) == Failure(IncompleteCharacterSet)
    decreases |s| - i
  {
    if i < |s| {
      var c := s[i];
      if c == '^' && state == Start {
        CharsetUnclosed(s, i + 1, RangeStart, true, acc, start);
      } else if state == RangeDashOrStart && c == '-' {
        CharsetUnclosed(s, i + 1, RangeEnd, negate, acc, start);
      } else if state != RangeEnd {
        CharsetUnclosed(s, i + 1, RangeDashOrStart, negate, AddOpt(acc, start), Some(c));
      } else {
        CharsetUnclosed(s, i + 1, RangeStart, negate, acc + Range(start.value, c), None);
      }
    }
  }

  /** A `[` whose set is never closed makes the whole parse fail. */
  lemma ParseCharsetUnclosed(t: string)
    requires forall j :: 0 <= j < |t| ==> t[j] != ']' && t[j] != '\\'
    ensures Parse("[" + t) == Failure(IncompleteCharacterSet)
  {
    CharsetUnclosed("[" + t, 1, Start, false, {}, None);
  }

  /** A trailing `\` fails with `IncompleteEscapeSequence`, provided no `)`
      before it was unmatched. */
  lemma {:induction false} TrailingBackslash(s: string, i: nat, stack: seq<seq<RegExp>>)
    requires i < |s| && WellFormed(stack) && s[|s| - 1] == '\\'
    requires forall j :: i <= j < |s| - 1 ==> s[j] != '[' && s[j] != '\\'
    requires ParenBalance(s[..|s| - 1], i, |stack| - 1) != Unopened
    ensures ParseAt(s, i, stack) == Failure(IncompleteEscapeSequence)
    decreases |s| - i
  {
    var p := s[..|s| - 1];
    if i < |s| - 1 {
      assert p[i] == s[i];
      var r := Step(s, i, stack);
      TrailingBackslash(s, r.value.0, r.value.1);
    }
  }

  lemma ParseTrailingBackslash(t: string)
    requires PlainFrom(t, 0) && ParenBalance(t, 0, 0) != Unopened
    ensures Parse(t + "\\") == Failure(IncompleteEscapeSequence)
  {
    var s := t + "\\";
    assert s[..|s| - 1] == t;
    TrailingBackslash(s, 0, [[Empty()]]);
  }
}
