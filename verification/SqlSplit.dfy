/** The quote-, escape- and parenthesis-aware comma splitter of the schema-drift check
    (scripts/check-h2-schema-drift.py, `split_top_level`). */
module SqlSplit {
  import opened Common
  import opened Text

  /** What the scanner remembers between two characters: the parenthesis depth (it may go
      negative), the quote it is inside of, and whether a backslash has just been read. */
  datatype Scan = Scan(depth: int, quote: Option<char>, escaped: bool)

  const TOP := Scan(0, None, false)

  function Step(st: Scan, c: char): Scan {
    if st.escaped then st.(escaped := false)
    else match st.quote
      case Some(q) =>
        if c == '\\' && q == '\'' then st.(escaped := true)
        else if c == q then st.(quote := None)
        else st
      case None =>
        if c == '\'' || c == '"' then st.(quote := Some(c))
        else if c == '(' then st.(depth := st.depth + 1)
        else if c == ')' then st.(depth := st.depth - 1)
        else st
  }

  function Run(st: Scan, s: string): Scan
    decreases s
  {
    if s == [] then st else Run(Step(st, s[0]), s[1..])
  }

  /** A position where the text is cut: a comma at depth 0, outside quotes. */
  predicate IsCut(st: Scan, s: string, i: nat)
    requires i < |s|
  {
    s[i] == ',' && Run(st, s[..i]) == TOP
  }

  /** The text between two neighbouring cuts, untrimmed. */
  function Segments(st: Scan, s: string): (r: seq<string>)
    ensures |r| >= 1
    decreases s
  {
    if s == [] then [[]]
    else if s[0] == ',' && st == TOP then [[]] + Segments(TOP, s[1..])
    else Prefixed([s[0]], Segments(Step(st, s[0]), s[1..]))
  }

  function Join(parts: seq<string>): string
    requires |parts| >= 1
  {
    if |parts| == 1 then parts[0] else parts[0] + "," + Join(parts[1..])
  }

  // ---- trimming ------------------------------------------------------------------------

  function Strip(s: string): string {
    Trim(s, PySpace)
  }

  function KeepNonBlank(segs: seq<string>): seq<string> {
    if segs == [] then []
    else (if Strip(segs[0]) == [] then [] else [Strip(segs[0])]) + KeepNonBlank(segs[1..])
  }

  lemma {:induction false} KeepConcat(segs: seq<string>, last: string)
    ensures KeepNonBlank(segs + [last])
         == KeepNonBlank(segs) + (if Strip(last) == [] then [] else [Strip(last)])
  {
    if segs != [] {
      assert (segs + [last])[1..] == segs[1..] + [last];
      KeepConcat(segs[1..], last);
    }
  }

  /** What `split_top_level` returns. */
  function Split(s: string): seq<string> {
    KeepNonBlank(Segments(TOP, s))
  }

  // ---- the loop ------------------------------------------------------------------------

  /** The raw segments of `s` when `raw` have been collected, the current one begins at
      `start`, and the scanner stands before position `i` in state `st`. */
  ghost function Pending(s: string, raw: seq<string>, start: nat, i: nat, st: Scan): seq<string>
    requires start <= i <= |s|
  {
    raw + Prefixed(s[start..i], Segments(st, s[i..]))
  }

  lemma PendingStep(s: string, raw: seq<string>, start: nat, i: nat, st: Scan)
    requires start <= i < |s|
    requires !(s[i] == ',' && st == TOP)
    ensures Pending(s, raw, start, i + 1, Step(st, s[i])) == Pending(s, raw, start, i, st)
  {
    assert s[i..][0] == s[i] && s[i..][1..] == s[i + 1..];
    assert s[start..i + 1] == s[start..i] + [s[i]];
    PrefixedConcat(s[start..i], [s[i]], Segments(Step(st, s[i]), s[i + 1..]));
  }

  lemma PendingCut(s: string, raw: seq<string>, start: nat, i: nat)
    requires start <= i < |s| && s[i] == ','
    ensures Pending(s, raw + [s[start..i]], i + 1, i + 1, TOP) == Pending(s, raw, start, i, TOP)
  {
    assert s[i..][0] == s[i] && s[i..][1..] == s[i + 1..];
    var tail := Segments(TOP, s[i + 1..]);
    assert s[start..i] + [] == s[start..i] && ([[]] + tail)[1..] == tail;
    assert raw + ([s[start..i]] + tail) == (raw + [s[start..i]]) + tail;
    assert s[i + 1..i + 1] == [];
    PrefixedNil(tail);
  }

  method RawSegments(s: string) returns (raw: seq<string>)
    ensures raw == Segments(TOP, s)
  {
    raw := [];
    var depth, start, i := 0, 0, 0;
    var quote: Option<char> := None;
    ghost var st := TOP;
    assert s[0..0] == [] && s[0..] == s;
    PrefixedNil(Segments(TOP, s));
    while i < |s|
      invariant 0 <= start <= i <= |s|
      invariant i < |s| ==> st == Scan(depth, quote, false)
      invariant Pending(s, raw, start, i, st) == Segments(TOP, s)
    {
      var c := s[i];
      if quote.Some? {
        PendingStep(s, raw, start, i, st);
        st := Step(st, c);
        if c == '\\' && quote.value == '\'' && i + 1 < |s| {
          PendingStep(s, raw, start, i + 1, st);
          st := Step(st, s[i + 1]);
          i := i + 2;
          continue;
        }
        if c == quote.value {
          quote := None;
        }
      } else if c == ',' && depth == 0 {
        PendingCut(s, raw, start, i);
        raw := raw + [s[start..i]];
        start := i + 1;
      } else {
        PendingStep(s, raw, start, i, st);
        st := Step(st, c);
        if c == '\'' || c == '"' {
          quote := Some(c);
        } else if c == '(' {
          depth := depth + 1;
        } else if c == ')' {
          depth := depth - 1;
        }
      }
      i := i + 1;
    }
    assert s[i..] == [] && s[start..i] == s[start..] && s[start..] + [] == s[start..];
    raw := raw + [s[start..]];
  }

  method SplitTopLevel(s: string) returns (parts: seq<string>)
    ensures parts == Split(s)
  {
    var raw := RawSegments(s);
    parts := [];
    for k := 0 to |raw|
      invariant parts == KeepNonBlank(raw[..k])
    {
      assert raw[..k + 1] == raw[..k] + [raw[k]];
      KeepConcat(raw[..k], raw[k]);
      var p := Strip(raw[k]);
      if p != [] {
        parts := parts + [p];
      }
    }
    assert raw[..|raw|] == raw;
  }

  // ---- nothing is lost, and every cut is where it should be ----------------------------

  /** Rejoining the raw segments with commas gives back the text. */
  lemma {:induction false} JoinSegments(st: Scan, s: string)
    ensures Join(Segments(st, s)) == s
    decreases s
  {
    if s != [] {
      if s[0] == ',' && st == TOP {
        JoinSegments(TOP, s[1..]);
        assert Segments(st, s)[1..] == Segments(TOP, s[1..]);
      } else {
        JoinSegments(Step(st, s[0]), s[1..]);
        JoinPrefixed([s[0]], Segments(Step(st, s[0]), s[1..]));
      }
      assert s == [s[0]] + s[1..];
    }
  }

  lemma {:induction false} JoinPrefixed(p: string, segs: seq<string>)
    requires |segs| >= 1
    ensures Join(Prefixed(p, segs)) == p + Join(segs)
  {
    assert Prefixed(p, segs)[1..] == segs[1..];
    if |segs| > 1 {
      assert p + segs[0] + "," + Join(segs[1..]) == p + (segs[0] + "," + Join(segs[1..]));
    }
  }

  lemma {:induction false} RunConcat(st: Scan, a: string, b: string)
    ensures Run(st, a + b) == Run(Run(st, a), b)
    decreases a
  {
    if a == [] {
      assert a + b == b;
    } else {
      assert (a + b)[1..] == a[1..] + b;
      RunConcat(Step(st, a[0]), a[1..], b);
    }
  }

  /** The end of segment `k` in the text. */
  function EndOf(segs: seq<string>, k: nat): nat
    requires k < |segs|
  {
    if k == 0 then |segs[0]| else |segs[0]| + 1 + EndOf(segs[1..], k - 1)
  }

  /** Every boundary between two segments is a cut: a comma at depth 0 outside quotes. */
  lemma {:induction false} BoundariesAreCuts(st: Scan, s: string, k: nat)
    requires k + 1 < |Segments(st, s)|
    ensures EndOf(Segments(st, s), k) < |s|
    ensures IsCut(st, s, EndOf(Segments(st, s), k))
    decreases s
  {
    var segs := Segments(st, s);
    if s[0] == ',' && st == TOP {
      if k > 0 {
        var e := EndOf(segs[1..], k - 1);
        assert segs[1..] == Segments(TOP, s[1..]);
        BoundariesAreCuts(TOP, s[1..], k - 1);
        assert s[..e + 1] == [s[0]] + s[1..][..e];
        RunConcat(st, [s[0]], s[1..][..e]);
      } else {
        assert s[..0] == [];
      }
    } else {
      var inner := Segments(Step(st, s[0]), s[1..]);
      BoundariesAreCuts(Step(st, s[0]), s[1..], k);
      assert segs[1..] == inner[1..];
      var e := EndOf(inner, k);
      assert EndOf(segs, k) == e + 1;
      assert s[..e + 1] == [s[0]] + s[1..][..e];
      RunConcat(st, [s[0]], s[1..][..e]);
    }
  }

  /** ... and no cut is missed: a text without a cut is one segment, and conversely. */
  lemma {:induction false} OneSegmentIffNoCut(st: Scan, s: string)
    ensures |Segments(st, s)| == 1 <==> forall i :: 0 <= i < |s| ==> !IsCut(st, s, i)
    ensures |Segments(st, s)| == 1 ==> Segments(st, s) == [s]
    decreases s
  {
    JoinSegments(st, s);
    if s != [] {
      assert s[..0] == [];
      if !IsCut(st, s, 0) {
        OneSegmentIffNoCut(Step(st, s[0]), s[1..]);
        forall i | 0 <= i < |s| - 1
          ensures IsCut(st, s, i + 1) == IsCut(Step(st, s[0]), s[1..], i)
        {
          assert s[..i + 1] == [s[0]] + s[1..][..i];
          RunConcat(st, [s[0]], s[1..][..i]);
        }
        if exists i :: 0 <= i < |s| && IsCut(st, s, i) {
          var i :| 0 <= i < |s| && IsCut(st, s, i);
          assert i > 0 && IsCut(Step(st, s[0]), s[1..], i - 1);
        }
        if exists i :: 0 <= i < |s[1..]| && IsCut(Step(st, s[0]), s[1..], i) {
          var i :| 0 <= i < |s[1..]| && IsCut(Step(st, s[0]), s[1..], i);
          assert IsCut(st, s, i + 1);
        }
      } else {
        assert |Segments(st, s)| == 1 + |Segments(TOP, s[1..])|;
      }
    }
  }

  // ---- the round trip ------------------------------------------------------------------

  /** No comma of `p` would be cut on its own. */
  predicate NoTopComma(p: string) {
    forall i :: 0 <= i < |p| ==> !IsCut(TOP, p, i)
  }

  /** Parentheses and quotes opened in `p` are closed in `p`. */
  predicate Closed(p: string) {
    Run(TOP, p) == TOP
  }

  /** Exactly the lists the comma-join of which splits back into the list. */
  predicate Separable(parts: seq<string>) {
    (forall k :: 0 <= k < |parts| ==> NoTopComma(parts[k])) &&
    (forall k :: 0 <= k < |parts| - 1 ==> Closed(parts[k]))
  }

  /** The segments of `p + "," + rest` when `p` is closed. */
  lemma {:induction false} SegmentsOfClosed(st: Scan, p: string, rest: string)
    requires Run(st, p) == TOP
    ensures Segments(st, p + "," + rest) == Segments(st, p) + Segments(TOP, rest)
    decreases p
  {
    var s := p + "," + rest;
    if p == [] {
      assert s[0] == ',' && s[1..] == rest;
    } else {
      assert s[0] == p[0] && s[1..] == p[1..] + "," + rest;
      var next := Step(st, p[0]);
      SegmentsOfClosed(next, p[1..], rest);
      if p[0] == ',' && st == TOP {
        assert next == TOP;
        assert [[]] + (Segments(TOP, p[1..]) + Segments(TOP, rest)) == Segments(st, p) + Segments(TOP, rest);
      } else {
        PrefixedAppend([p[0]], Segments(next, p[1..]), Segments(TOP, rest));
      }
    }
  }

  /** Splitting undoes joining for exactly the separable lists. */
  lemma {:induction false} SplitJoinRaw(parts: seq<string>)
    requires |parts| >= 1
    ensures Segments(TOP, Join(parts)) == parts <==> Separable(parts)
  {
    if |parts| == 1 {
      OneSegmentIffNoCut(TOP, parts[0]);
    } else {
      var tail := parts[1..];
      SplitJoinRaw(tail);
      if Separable(parts) {
        assert forall k :: 0 <= k < |tail| ==> tail[k] == parts[k + 1];
        OneSegmentIffNoCut(TOP, parts[0]);
        SegmentsOfClosed(TOP, parts[0], Join(tail));
        assert parts == [parts[0]] + tail;
      }
      if Segments(TOP, Join(parts)) == parts {
        FirstSegmentClosed(parts[0], Join(tail));
        OneSegmentIffNoCut(TOP, parts[0]);
        assert parts == [parts[0]] + tail;
        assert forall k :: 1 <= k < |parts| ==> parts[k] == tail[k - 1];
      }
    }
  }

  /** If the first segment of `p + "," + rest` is `p`, then `p` is closed and has no cut. */
  lemma FirstSegmentClosed(p: string, rest: string)
    requires Segments(TOP, p + "," + rest)[0] == p
    requires |Segments(TOP, p + "," + rest)| > 1
    ensures Closed(p) && NoTopComma(p)
    ensures Segments(TOP, p + "," + rest)[1..] == Segments(TOP, rest)
  {
    var s := p + "," + rest;
    BoundariesAreCuts(TOP, s, 0);
    assert s[..|p|] == p;
    SegmentsOfClosed(TOP, p, rest);
    JoinSegments(TOP, p);
    JoinLength(Segments(TOP, p));
    OneSegmentIffNoCut(TOP, p);
  }

  lemma {:induction false} KeepTrimmed(parts: seq<string>)
    requires forall k :: 0 <= k < |parts| ==> Trimmed(parts[k], PySpace)
    ensures KeepNonBlank(parts) == parts
  {
    if parts != [] {
      TrimOfTrimmed(parts[0], PySpace);
      KeepTrimmed(parts[1..]);
    }
  }

  function Letters(segs: seq<string>): nat {
    if segs == [] then 0 else |segs[0]| + Letters(segs[1..])
  }

  lemma {:induction false} JoinLength(segs: seq<string>)
    requires |segs| >= 1
    ensures |Join(segs)| == Letters(segs) + |segs| - 1
  {
    if |segs| > 1 {
      JoinLength(segs[1..]);
    }
  }

  /** Dropping blanks and trimming can only shorten; if it does not, it changed nothing. */
  lemma {:induction false} KeepShorter(segs: seq<string>)
    ensures |KeepNonBlank(segs)| <= |segs| && Letters(KeepNonBlank(segs)) <= Letters(segs)
    ensures |KeepNonBlank(segs)| == |segs| && Letters(KeepNonBlank(segs)) == Letters(segs)
            ==> KeepNonBlank(segs) == segs
  {
    if segs != [] {
      TrimShorter(segs[0], PySpace);
      KeepShorter(segs[1..]);
      var kept := KeepNonBlank(segs);
      if Strip(segs[0]) != [] {
        assert kept[0] == Strip(segs[0]) && kept[1..] == KeepNonBlank(segs[1..]);
        assert |kept[0]| <= |segs[0]|;
        assert segs == [segs[0]] + segs[1..];
      } else {
        assert kept == KeepNonBlank(segs[1..]);
      }
    }
  }

  /** `split_top_level(",".join(parts)) == parts` for a list of trimmed, non-empty parts holds
      exactly when no part has a top-level comma and every part but the last closes its own
      quotes and parentheses. */
  lemma SplitJoin(parts: seq<string>)
    requires |parts| >= 1
    requires forall k :: 0 <= k < |parts| ==> Trimmed(parts[k], PySpace)
    ensures Split(Join(parts)) == parts <==> Separable(parts)
  {
    var segs := Segments(TOP, Join(parts));
    SplitJoinRaw(parts);
    KeepTrimmed(parts);
    if KeepNonBlank(segs) == parts {
      KeepShorter(segs);
      JoinSegments(TOP, Join(parts));
      JoinLength(segs);
      JoinLength(parts);
      assert segs == parts;
    }
  }
}
