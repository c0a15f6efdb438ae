/**
 * Namespaced identifiers of the Lexicon schema language: dot-separated
 * segments such as `com.example.fooBar`, at least three of them, each
 * starting with an ASCII letter and continuing with ASCII letters, digits
 * or `-`.
 *
 * Strings are sequences of characters. The checker reads UTF-8 bytes, but
 * every byte of a non-ASCII character is at least 0x80 and is rejected
 * wherever a non-ASCII character would be, so checking characters
 * accepts the same strings.
 */
module Nsids {
  import opened Wrappers

  predicate IsAsciiLetter(c: char) {
    'a' <= c <= 'z' || 'A' <= c <= 'Z'
  }

  predicate IsSegmentChar(c: char) {
    IsAsciiLetter(c) || '0' <= c <= '9' || c == '-'
  }

  /**
   * The dot-separated segments of `s`, as splitting at every `.` gives
   * them: the empty string has one empty segment, and a trailing dot
   * gives a trailing empty segment.
   */
  function Segments(s: string): (r: seq<string>)
    ensures |r| > 0
  {
    if s == [] then [[]]
    else
      var init := Segments(s[..|s| - 1]);
      if s[|s| - 1] == '.' then init + [[]]
      else init[..|init| - 1] + [init[|init| - 1] + [s[|s| - 1]]]
  }

  /** Joins segments with `.`, the inverse of `Segments`. */
  function Join(segments: seq<string>): string
    requires |segments| > 0
  {
    if |segments| == 1 then segments[0]
    else Join(segments[..|segments| - 1]) + ['.'] + segments[|segments| - 1]
  }

  predicate ValidSegment(segment: string) {
    |segment| > 0 && IsAsciiLetter(segment[0])
    && forall i :: 1 <= i < |segment| ==> IsSegmentChar(segment[i])
  }

  /** The reference definition: three or more segments, all valid. */
  predicate IsNsid(s: string) {
    var segments := Segments(s);
    |segments| >= 3 && forall k :: 0 <= k < |segments| ==> ValidSegment(segments[k])
  }

  /** The states of the checker, counting the dots read so far. */
  datatype State = SegmentStart(dots: nat) | InSegment(dots: nat)

  /** No string starting with `p` is an NSID: some segment is already broken. */
  predicate Doomed(p: string) {
    var segments := Segments(p);
    var last := segments[|segments| - 1];
    (exists k :: 0 <= k < |segments| - 1 && !ValidSegment(segments[k]))
    || (|last| > 0 && !ValidSegment(last))
  }

  lemma {:induction false} DoomedExtend(p: string, c: char)
    requires Doomed(p)
    ensures Doomed(p + [c])
  {
    var q := p + [c];
    assert q[..|q| - 1] == p;
    var segments := Segments(p);
    var last := segments[|segments| - 1];
    var next := Segments(q);
    if k :| 0 <= k < |segments| - 1 && !ValidSegment(segments[k]) {
      assert next[k] == segments[k];
    } else if c == '.' {
      assert next[|segments| - 1] == last;
    } else {
      var grown := next[|next| - 1];
      assert grown == last + [c];
      if !IsAsciiLetter(last[0]) {
        assert grown[0] == last[0];
      } else {
        var i :| 1 <= i < |last| && !IsSegmentChar(last[i]);
        assert grown[i] == last[i];
      }
    }
  }

  lemma {:induction false} DoomedPrefix(s: string, i: nat)
    requires i <= |s| && Doomed(s[..i])
    ensures !IsNsid(s)
    decreases |s| - i
  {
    if i == |s| {
      assert s[..i] == s;
    } else {
      DoomedExtend(s[..i], s[i]);
      assert s[..i] + [s[i]] == s[..i + 1];
      DoomedPrefix(s, i + 1);
    }
  }

  /** What the checker knows about the characters it has read. */
  predicate Accounted(p: string, state: State) {
    var segments := Segments(p);
    var last := segments[|segments| - 1];
    && (forall k :: 0 <= k < |segments| - 1 ==> ValidSegment(segments[k]))
    && |segments| == state.dots + 1
    && (state.SegmentStart? ==> last == [])
    && (state.InSegment? ==> ValidSegment(last))
  }

  lemma SegmentsSnoc(p: string, c: char)
    ensures var init := Segments(p);
            Segments(p + [c]) == if c == '.' then init + [[]]
                                 else init[..|init| - 1] + [init[|init| - 1] + [c]]
  {
    assert (p + [c])[..|p|] == p;
  }

  /** One step of the state machine from an accounted state. */
  lemma StepAccounted(p: string, state: State, c: char)
    requires Accounted(p, state)
    ensures state.SegmentStart? && IsAsciiLetter(c) ==> Accounted(p + [c], InSegment(state.dots))
    ensures state.SegmentStart? && !IsAsciiLetter(c) ==> Doomed(p + [c])
    ensures state.InSegment? && IsSegmentChar(c) ==> Accounted(p + [c], state)
    ensures state.InSegment? && c == '.' ==> Accounted(p + [c], SegmentStart(state.dots + 1))
    ensures state.InSegment? && !IsSegmentChar(c) && c != '.' ==> Doomed(p + [c])
  {
    SegmentsSnoc(p, c);
    var init := Segments(p);
    var next := Segments(p + [c]);
    var last := init[|init| - 1];
    if c == '.' {
      if state.SegmentStart? {
        assert next[|init| - 1] == last;
      }
    } else {
      var grown := next[|next| - 1];
      assert grown == last + [c];
      assert forall k :: 0 <= k < |next| - 1 ==> next[k] == init[k];
      if state.InSegment? && !IsSegmentChar(c) {
        assert grown[|last|] == c;
      }
    }
  }

  /**
   * The checker's state machine: after a dot (or at the start) it needs an
   * ASCII letter; inside a segment it takes letters, digits, `-` and dots,
   * and it accepts at the end once it has seen two dots.
   */
  method Check(s: string) returns (ok: bool)
    ensures ok <==> IsNsid(s)
  {
    var state := SegmentStart(0);
    var i := 0;
    while true
      invariant i <= |s|
      invariant Accounted(s[..i], state)
      decreases |s| - i
    {
      if i == |s| {
        assert s[..i] == s;
        return state.InSegment? && state.dots >= 2;
      }
      var c := s[i];
      assert s[..i] + [c] == s[..i + 1];
      StepAccounted(s[..i], state, c);
      match state {
        case SegmentStart(n) =>
          if IsAsciiLetter(c) {
            state := InSegment(n);
          } else {
            DoomedPrefix(s, i + 1);
            return false;
          }
        case InSegment(n) =>
          if IsSegmentChar(c) {
            state := InSegment(n);
          } else if c == '.' {
            state := SegmentStart(n + 1);
          } else {
            DoomedPrefix(s, i + 1);
            return false;
          }
      }
      i := i + 1;
    }
  }

  datatype InvalidNsid = InvalidNsid(text: string)

  /** Both `Nsid::new` and `NsidBuf::new`: the string itself, once checked. */
  method NewNsid(s: string) returns (r: Result<string, InvalidNsid>)
    ensures r.Success? <==> IsNsid(s)
    ensures r.Success? ==> r.value == s
    ensures r.Failure? ==> r.error == InvalidNsid(s)
  {
    var ok := Check(s);
    if ok {
      r := Success(s);
    } else {
      r := Failure(InvalidNsid(s));
    }
  }

  /** The `lexicon:` IRI of an NSID, given by its path segments. */
  function AsIriPath(nsid: string): (path: seq<string>)
    requires IsNsid(nsid)
    ensures |path| >= 3
    ensures Join(path) == nsid
    ensures forall k :: 0 <= k < |path| ==> |path[k]| > 0 && '.' !in path[k]
  {
    JoinSegments(nsid);
    SegmentsNoDot(nsid);
    Segments(nsid)
  }

  lemma {:induction false} JoinSegments(s: string)
    ensures Join(Segments(s)) == s
  {
    if s != [] {
      var init := Segments(s[..|s| - 1]);
      JoinSegments(s[..|s| - 1]);
      if s[|s| - 1] != '.' {
        if |init| == 1 {
        } else {
          var front := init[..|init| - 1];
          assert (front + [init[|init| - 1] + [s[|s| - 1]]])[..|init| - 1] == front;
          assert init[..|init| - 1] == front;
        }
      } else {
        assert (init + [[]])[..|init|] == init;
      }
      assert s == s[..|s| - 1] + [s[|s| - 1]];
    }
  }

  lemma {:induction false} SegmentsNoDot(s: string)
    ensures forall k :: 0 <= k < |Segments(s)| ==> '.' !in Segments(s)[k]
  {
    if s != [] {
      SegmentsNoDot(s[..|s| - 1]);
    }
  }

  /** Three valid segments make an NSID. */
  lemma ExampleValid()
    ensures IsNsid("com.example.foo")
  {
    SegmentsOf3("com", "example", "foo");
    assert "com" + ['.'] + "example" + ['.'] + "foo" == "com.example.foo";
  }

  /** Two segments are too few. */
  lemma ExampleTooShort()
    ensures !IsNsid("com.example")
  {
    SegmentsOf2("com", "example");
    assert "com" + ['.'] + "example" == "com.example";
  }

  /** An empty segment, a trailing dot and the empty string are rejected. */
  lemma ExampleEmptySegments()
    ensures !IsNsid("com..foo")
    ensures !IsNsid("com.example.")
    ensures !IsNsid("")
  {
    SegmentsOf3("com", "", "foo");
    assert "com" + ['.'] + "" + ['.'] + "foo" == "com..foo";
    assert !ValidSegment(Segments("com..foo")[1]);
    SegmentsOf3("com", "example", "");
    assert "com" + ['.'] + "example" + ['.'] + "" == "com.example.";
    assert !ValidSegment(Segments("com.example.")[2]);
    assert Segments("") == [""];
  }

  /** A segment must start with a letter. */
  lemma ExampleDigitStart()
    ensures !IsNsid("com.1x.foo")
  {
    SegmentsOf3("com", "1x", "foo");
    assert "com" + ['.'] + "1x" + ['.'] + "foo" == "com.1x.foo";
    assert !ValidSegment(Segments("com.1x.foo")[1]);
  }

  lemma {:induction false} SegmentsPlain(a: string)
    requires '.' !in a
    ensures Segments(a) == [a]
  {
    if a != [] {
      assert '.' !in a[..|a| - 1];
      SegmentsPlain(a[..|a| - 1]);
      assert a[..|a| - 1] + [a[|a| - 1]] == a;
    }
  }

  lemma {:induction false} SegmentsAppend(p: string, b: string)
    requires '.' !in b
    ensures Segments(p + ['.'] + b) == Segments(p) + [b]
    decreases |b|
  {
    if b == [] {
      assert (p + ['.'] + b)[..|p|] == p;
    } else {
      var b' := b[..|b| - 1];
      assert '.' !in b';
      SegmentsAppend(p, b');
      assert (p + ['.'] + b)[..|p + ['.'] + b| - 1] == p + ['.'] + b';
      assert b' + [b[|b| - 1]] == b;
    }
  }

  lemma SegmentsOf2(a: string, b: string)
    requires '.' !in a && '.' !in b
    ensures Segments(a + ['.'] + b) == [a, b]
  {
    SegmentsPlain(a);
    SegmentsAppend(a, b);
  }

  lemma SegmentsOf3(a: string, b: string, c: string)
    requires '.' !in a && '.' !in b && '.' !in c
    ensures Segments(a + ['.'] + b + ['.'] + c) == [a, b, c]
  {
    SegmentsOf2(a, b);
    SegmentsAppend(a + ['.'] + b, c);
  }
}
