/** Trimming and line splitting, as Python and JavaScript do them. */
module Text {

  function TrimLeft(s: string, space: char -> bool): string {
    if s != [] && space(s[0]) then TrimLeft(s[1..], space) else s
  }

  function TrimRight(s: string, space: char -> bool): string {
    if s != [] && space(s[|s| - 1]) then TrimRight(s[..|s| - 1], space) else s
  }

  /** `s.strip()` or `s.trim()`, for the language's notion of white space. */
  function Trim(s: string, space: char -> bool): string {
    TrimRight(TrimLeft(s, space), space)
  }

  predicate Trimmed(s: string, space: char -> bool) {
    s != [] && !space(s[0]) && !space(s[|s| - 1])
  }

  lemma TrimOfTrimmed(s: string, space: char -> bool)
    requires Trimmed(s, space)
    ensures Trim(s, space) == s
  {
    assert TrimLeft(s, space) == s;
  }

  predicate AllSpace(s: string, space: char -> bool) {
    forall i :: 0 <= i < |s| ==> space(s[i])
  }

  lemma {:induction false} TrimLeftPadded(left: string, s: string, space: char -> bool)
    requires AllSpace(left, space)
    ensures TrimLeft(left + s, space) == TrimLeft(s, space)
  {
    if left == [] {
      assert left + s == s;
    } else {
      assert (left + s)[1..] == left[1..] + s;
      TrimLeftPadded(left[1..], s, space);
    }
  }

  lemma {:induction false} TrimRightPadded(s: string, right: string, space: char -> bool)
    requires AllSpace(right, space)
    ensures TrimRight(s + right, space) == TrimRight(s, space)
  {
    if right == [] {
      assert s + right == s;
    } else {
      assert (s + right)[..|s + right| - 1] == s + right[..|right| - 1];
      TrimRightPadded(s, right[..|right| - 1], space);
    }
  }

  /** A text between blanks is what trimming leaves, and a blank text is trimmed away. */
  lemma TrimPadded(left: string, core: string, right: string, space: char -> bool)
    requires AllSpace(left, space) && AllSpace(right, space)
    requires core == [] || Trimmed(core, space)
    ensures Trim(left + core + right, space) == core
  {
    if core == [] {
      assert left + core + right == left + right + [];
      assert AllSpace(left + right, space);
      TrimLeftPadded(left + right, [], space);
    } else {
      assert left + core + right == left + (core + right);
      TrimLeftPadded(left, core + right, space);
      assert TrimLeft(core + right, space) == core + right;
      TrimRightPadded(core, right, space);
    }
  }

  lemma {:induction false} TrimLeftParts(s: string, space: char -> bool) returns (left: string)
    ensures AllSpace(left, space) && s == left + TrimLeft(s, space)
    ensures TrimLeft(s, space) == [] || !space(TrimLeft(s, space)[0])
  {
    if s != [] && space(s[0]) {
      var rest := TrimLeftParts(s[1..], space);
      left := [s[0]] + rest;
      assert s == [s[0]] + s[1..];
    } else {
      left := [];
    }
  }

  lemma {:induction false} TrimRightParts(s: string, space: char -> bool) returns (right: string)
    ensures AllSpace(right, space) && s == TrimRight(s, space) + right
    ensures TrimRight(s, space) == [] || !space(TrimRight(s, space)[|TrimRight(s, space)| - 1])
  {
    if s != [] && space(s[|s| - 1]) {
      var rest := TrimRightParts(s[..|s| - 1], space);
      right := rest + [s[|s| - 1]];
      assert s == s[..|s| - 1] + [s[|s| - 1]];
    } else {
      right := [];
    }
  }

  /** What trimming leaves is empty or begins and ends with a character that is no blank, and
      only blanks were removed around it. */
  lemma TrimParts(s: string, space: char -> bool) returns (left: string, right: string)
    ensures AllSpace(left, space) && AllSpace(right, space) && s == left + Trim(s, space) + right
    ensures Trim(s, space) == [] || Trimmed(Trim(s, space), space)
  {
    var inner := TrimLeft(s, space);
    left := TrimLeftParts(s, space);
    right := TrimRightParts(inner, space);
    assert s == left + (Trim(s, space) + right);
    assert Trim(s, space) != [] ==> Trim(s, space)[0] == inner[0];
  }

  lemma BlankIff(s: string, space: char -> bool)
    ensures Trim(s, space) == [] <==> AllSpace(s, space)
  {
    var left, right := TrimParts(s, space);
    if Trim(s, space) != [] {
      assert s[|left|] == Trim(s, space)[0];
    }
  }

  /** Trimming can only shorten; if it does not, it changed nothing. */
  lemma TrimShorter(s: string, space: char -> bool)
    ensures |Trim(s, space)| <= |s| && (|Trim(s, space)| == |s| ==> Trim(s, space) == s)
  {
    TrimLeftShorter(s, space);
    TrimRightShorter(TrimLeft(s, space), space);
  }

  lemma {:induction false} TrimLeftShorter(s: string, space: char -> bool)
    ensures |TrimLeft(s, space)| <= |s| && (|TrimLeft(s, space)| == |s| ==> TrimLeft(s, space) == s)
  {
    if s != [] && space(s[0]) {
      TrimLeftShorter(s[1..], space);
    }
  }

  lemma {:induction false} TrimRightShorter(s: string, space: char -> bool)
    ensures |TrimRight(s, space)| <= |s| && (|TrimRight(s, space)| == |s| ==> TrimRight(s, space) == s)
  {
    if s != [] && space(s[|s| - 1]) {
      TrimRightShorter(s[..|s| - 1], space);
    }
  }

  /** The code points that Python's `str.strip` removes. */
  predicate PySpace(c: char) {
    var n := c as int;
    9 <= n <= 13 || 28 <= n <= 32 || n == 0x85 || n == 0xA0 || n == 0x1680 ||
    0x2000 <= n <= 0x200A || n == 0x2028 || n == 0x2029 || n == 0x202F || n == 0x205F || n == 0x3000
  }

  /** The code points that JavaScript's `String.prototype.trim` removes. */
  predicate JsSpace(c: char) {
    var n := c as int;
    9 <= n <= 13 || n == 32 || n == 0xA0 || n == 0x1680 || 0x2000 <= n <= 0x200A ||
    n == 0x2028 || n == 0x2029 || n == 0x202F || n == 0x205F || n == 0x3000 || n == 0xFEFF
  }

  /** `s.lower()`, for ASCII text. */
  function Lower(s: string): string {
    if s == [] then []
    else [if 'A' <= s[0] <= 'Z' then (s[0] as int + 32) as char else s[0]] + Lower(s[1..])
  }

  lemma {:induction false} LowerOfLower(s: string)
    requires forall i :: 0 <= i < |s| ==> !('A' <= s[i] <= 'Z')
    ensures Lower(s) == s
  {
    if s != [] {
      LowerOfLower(s[1..]);
    }
  }

  /** Each ASCII capital becomes the letter 32 code points further, and nothing else changes. */
  lemma {:induction false} LowerIs(s: string)
    ensures |Lower(s)| == |s|
    ensures forall i :: 0 <= i < |s| ==>
      Lower(s)[i] as int == if 65 <= s[i] as int <= 90 then s[i] as int + 32 else s[i] as int
  {
    if s != [] {
      LowerIs(s[1..]);
    }
  }

  /** `segs` with `p` put in front of its first segment. */
  function Prefixed(p: string, segs: seq<string>): seq<string>
    requires |segs| >= 1
  {
    [p + segs[0]] + segs[1..]
  }

  lemma PrefixedNil(segs: seq<string>)
    requires |segs| >= 1
    ensures Prefixed([], segs) == segs
  {
    assert [] + segs[0] == segs[0];
  }

  lemma PrefixedConcat(p: string, q: string, segs: seq<string>)
    requires |segs| >= 1
    ensures Prefixed(p + q, segs) == Prefixed(p, Prefixed(q, segs))
  {
    assert p + q + segs[0] == p + (q + segs[0]);
  }

  lemma PrefixedAppend(p: string, a: seq<string>, b: seq<string>)
    requires |a| >= 1
    ensures Prefixed(p, a + b) == Prefixed(p, a) + b
  {
    assert (a + b)[1..] == a[1..] + b;
  }

  /** `s.split('\n')`: always at least one line. */
  function SplitLines(s: string): (lines: seq<string>)
    ensures |lines| >= 1
  {
    if s == [] then [[]]
    else if s[0] == '\n' then [[]] + SplitLines(s[1..])
    else Prefixed([s[0]], SplitLines(s[1..]))
  }

  function LastLine(s: string): string {
    var lines := SplitLines(s);
    lines[|lines| - 1]
  }

  function CompleteLines(s: string): seq<string> {
    var lines := SplitLines(s);
    lines[..|lines| - 1]
  }

  /** A text with a newline in the middle splits there. */
  lemma {:induction false} SplitAtNewline(a: string, b: string)
    ensures SplitLines(a + "\n" + b) == SplitLines(a) + SplitLines(b)
  {
    var s := a + "\n" + b;
    if a == [] {
      assert s[1..] == b;
    } else {
      assert s[0] == a[0] && s[1..] == a[1..] + "\n" + b;
      SplitAtNewline(a[1..], b);
      if a[0] == '\n' {
        assert [[]] + (SplitLines(a[1..]) + SplitLines(b)) == SplitLines(a) + SplitLines(b);
      } else {
        PrefixedAppend([a[0]], SplitLines(a[1..]), SplitLines(b));
      }
    }
  }

  /** A line without a newline only lengthens the first line of what follows. */
  lemma {:induction false} SplitPrefixed(a: string, b: string)
    requires '\n' !in a
    ensures SplitLines(a + b) == Prefixed(a, SplitLines(b))
  {
    if a == [] {
      assert a + b == b;
      PrefixedNil(SplitLines(b));
    } else {
      assert (a + b)[0] == a[0] && (a + b)[1..] == a[1..] + b;
      SplitPrefixed(a[1..], b);
      PrefixedConcat([a[0]], a[1..], SplitLines(b));
      assert a == [a[0]] + a[1..];
    }
  }

  lemma SplitNoNewline(s: string)
    requires '\n' !in s
    ensures SplitLines(s) == [s]
  {
    SplitPrefixed(s, []);
    assert s + [] == s;
  }

  /** No line contains a newline, and the lines joined by newlines are the text. */
  lemma {:induction false} LastLineSplits(s: string)
    ensures '\n' !in LastLine(s)
    ensures exists head: string :: (s == LastLine(s) && CompleteLines(s) == []) ||
              (s == head + "\n" + LastLine(s) && CompleteLines(s) == SplitLines(head))
  {
    if exists i :: 0 <= i < |s| && s[i] == '\n' {
      var i := LastNewline(s);
      var head, last := s[..i], s[i + 1..];
      assert s == head + "\n" + last;
      SplitAtNewline(head, last);
      SplitNoNewline(last);
      assert LastLine(s) == last && CompleteLines(s) == SplitLines(head);
    } else {
      SplitNoNewline(s);
      assert s == LastLine(s) && CompleteLines(s) == [];
    }
  }

  lemma {:induction false} LastNewline(s: string) returns (i: nat)
    requires '\n' in s
    ensures i < |s| && s[i] == '\n' && '\n' !in s[i + 1..]
  {
    i := |s| - 1;
    while s[i] != '\n'
      invariant 0 <= i < |s|
      invariant '\n' !in s[i + 1..]
      invariant '\n' in s[..i + 1]
      decreases i
    {
      assert s[..i + 1] == s[..i] + [s[i]];
      assert s[i..] == [s[i]] + s[i + 1..];
      i := i - 1;
    }
  }

  /** What follows a text only depends on the text through its last, incomplete line. */
  lemma SplitLinesConcat(a: string, b: string)
    ensures SplitLines(a + b) == CompleteLines(a) + SplitLines(LastLine(a) + b)
  {
    LastLineSplits(a);
    if a != LastLine(a) || CompleteLines(a) != [] {
      var head :| a == head + "\n" + LastLine(a) && CompleteLines(a) == SplitLines(head);
      assert a + b == head + "\n" + (LastLine(a) + b);
      SplitAtNewline(head, LastLine(a) + b);
    }
  }
}
