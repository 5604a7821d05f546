/** Where the comma splitter cuts, stated on the text alone: its characters and its quoted
    literals, without the scanner. */
module SqlCuts {
  import opened Common
  import opened SqlSplit
  import opened Text

  /** A character of a single-quoted literal, where a backslash takes the next one along. */
  datatype Unit = Raw(c: char) | Escaped(c: char)

  /** SQL text is made of characters outside quotes and of whole quoted literals. */
  datatype Piece = Plain(c: char) | Single(units: seq<Unit>) | Double(body: string)

  predicate ProperUnits(units: seq<Unit>) {
    forall i :: 0 <= i < |units| ==> units[i].Raw? ==> units[i].c != '\'' && units[i].c != '\\'
  }

  predicate Proper(piece: Piece) {
    match piece
    case Plain(c) => c != '\'' && c != '"'
    case Single(units) => ProperUnits(units)
    case Double(body) => '"' !in body
  }

  predicate AllProper(pieces: seq<Piece>) {
    forall i :: 0 <= i < |pieces| ==> Proper(pieces[i])
  }

  function UnitText(unit: Unit): string {
    match unit
    case Raw(c) => [c]
    case Escaped(c) => ['\\', c]
  }

  function UnitsText(units: seq<Unit>): string {
    if units == [] then [] else UnitsText(units[..|units| - 1]) + UnitText(units[|units| - 1])
  }

  function PieceText(piece: Piece): string {
    match piece
    case Plain(c) => [c]
    case Single(units) => "'" + UnitsText(units) + "'"
    case Double(body) => "\"" + body + "\""
  }

  function TextOf(pieces: seq<Piece>): string {
    if pieces == [] then [] else TextOf(pieces[..|pieces| - 1]) + PieceText(pieces[|pieces| - 1])
  }

  /** What is left of the text when the quoted literals are deleted. */
  function Bare(pieces: seq<Piece>): string {
    if pieces == [] then []
    else
      var last := pieces[|pieces| - 1];
      Bare(pieces[..|pieces| - 1]) + if last.Plain? then [last.c] else []
  }

  function Balance(s: string): int {
    var opening: int := multiset(s)['('];
    opening - multiset(s)[')']
  }

  /** The text consists of characters and closed literals, and outside the literals it has as
      many opening as closing parentheses. */
  ghost predicate Balanced(s: string) {
    exists pieces: seq<Piece> :: AllProper(pieces) && TextOf(pieces) == s &&
      multiset(Bare(pieces))['('] == multiset(Bare(pieces))[')']
  }

  lemma RunSnoc(st: Scan, s: string, c: char)
    ensures Run(st, s + [c]) == Step(Run(st, s), c)
  {
    RunConcat(st, s, [c]);
    assert Run(Run(st, s), [c]) == Run(Step(Run(st, s), c), []);
  }

  lemma {:induction false} RunUnits(depth: int, units: seq<Unit>)
    requires ProperUnits(units)
    ensures Run(Scan(depth, Some('\''), false), UnitsText(units)) == Scan(depth, Some('\''), false)
  {
    if units != [] {
      var st, init, last := Scan(depth, Some('\''), false), units[..|units| - 1], units[|units| - 1];
      RunUnits(depth, init);
      if last.Raw? {
        RunSnoc(st, UnitsText(init), last.c);
      } else {
        RunSnoc(st, UnitsText(init), '\\');
        RunSnoc(st, UnitsText(init) + ['\\'], last.c);
        assert UnitsText(init) + ['\\'] + [last.c] == UnitsText(init) + ['\\', last.c];
      }
    }
  }

  lemma {:induction false} RunDouble(depth: int, body: string)
    requires '"' !in body
    ensures Run(Scan(depth, Some('"'), false), body) == Scan(depth, Some('"'), false)
    decreases body
  {
    if body != [] {
      RunDouble(depth, body[1..]);
    }
  }

  lemma RunPiece(depth: int, piece: Piece)
    requires Proper(piece)
    ensures Run(Scan(depth, None, false), PieceText(piece))
         == Scan(depth + Balance(Bare([piece])), None, false)
  {
    var st := Scan(depth, None, false);
    assert Bare([piece]) == Bare([]) + if piece.Plain? then [piece.c] else [];
    match piece
    case Plain(c) =>
      RunSnoc(st, [], c);
    case Single(units) =>
      RunSnoc(st, [], '\'');
      RunConcat(st, "'", UnitsText(units));
      RunUnits(depth, units);
      RunSnoc(st, "'" + UnitsText(units), '\'');
    case Double(body) =>
      RunSnoc(st, [], '"');
      RunConcat(st, "\"", body);
      RunDouble(depth, body);
      RunSnoc(st, "\"" + body, '"');
  }

  lemma {:induction false} RunPieces(pieces: seq<Piece>)
    requires AllProper(pieces)
    ensures Run(TOP, TextOf(pieces)) == Scan(Balance(Bare(pieces)), None, false)
  {
    if pieces != [] {
      var init, last := pieces[..|pieces| - 1], pieces[|pieces| - 1];
      RunPieces(init);
      RunPiece(Balance(Bare(init)), last);
      RunConcat(TOP, TextOf(init), PieceText(last));
      assert Bare([last]) == Bare([]) + if last.Plain? then [last.c] else [];
    }
  }

  /** The part of the text that belongs to a literal which is still open. */
  function OpenText(st: Scan, open: Piece): string {
    if st.quote == None then []
    else match open
      case Plain(_) => []
      case Single(units) => "'" + UnitsText(units) + if st.escaped then ['\\'] else []
      case Double(body) => "\"" + body
  }

  predicate Fits(st: Scan, open: Piece) {
    Proper(open) &&
    match st.quote
    case None => !st.escaped
    case Some(q) => (q == '\'' && open.Single?) || (q == '"' && open.Double? && !st.escaped)
  }

  /** What the scanner's state says about the text read: `text` belongs to closed pieces with
      `depth` more opening than closing parentheses, and the rest to the open literal. */
  predicate Explained(st: Scan, s: string, text: string, depth: int, open: Piece) {
    st.depth == depth && Fits(st, open) && s == text + OpenText(st, open)
  }

  /** The piece that a character completes, if any. */
  function AddedText(added: Option<Piece>): string {
    if added.Some? then PieceText(added.value) else []
  }

  function AddedNesting(added: Option<Piece>): int {
    if added == Some(Plain('(')) then 1 else if added == Some(Plain(')')) then -1 else 0
  }

  lemma {:induction false} Explain(s: string) returns (pieces: seq<Piece>, open: Piece)
    ensures AllProper(pieces) && Explained(Run(TOP, s), s, TextOf(pieces), Balance(Bare(pieces)), open)
  {
    if s == [] {
      pieces, open := [], Double("");
    } else {
      var init, c := s[..|s| - 1], s[|s| - 1];
      assert s == init + [c];
      pieces, open := Explain(init);
      pieces, open := ExplainSnoc(init, c, pieces, open);
    }
  }

  lemma ExplainSnoc(init: string, c: char, before: seq<Piece>, was: Piece)
    returns (pieces: seq<Piece>, open: Piece)
    requires AllProper(before) && Explained(Run(TOP, init), init, TextOf(before), Balance(Bare(before)), was)
    ensures AllProper(pieces)
    ensures Explained(Run(TOP, init + [c]), init + [c], TextOf(pieces), Balance(Bare(pieces)), open)
  {
    var st, text, depth := Run(TOP, init), TextOf(before), Balance(Bare(before));
    RunSnoc(TOP, init, c);
    var added, next := ExplainNext(st, init, c, text, depth, was);
    open := next;
    pieces := AddPiece(before, added);
  }

  lemma BareSnoc(before: seq<Piece>, piece: Piece)
    ensures Balance(Bare(before + [piece])) == Balance(Bare(before)) + AddedNesting(Some(piece))
  {
    var pieces := before + [piece];
    assert pieces[..|pieces| - 1] == before;
    var bare := Bare(before);
    if piece.Plain? {
      assert Bare(pieces) == bare + [piece.c];
    } else {
      assert Bare(pieces) == bare + [] == bare;
    }
  }

  lemma TextSnoc(before: seq<Piece>, piece: Piece)
    ensures TextOf(before + [piece]) == TextOf(before) + PieceText(piece)
  {
    assert (before + [piece])[..|before|] == before;
  }

  lemma AddPiece(before: seq<Piece>, added: Option<Piece>) returns (pieces: seq<Piece>)
    requires AllProper(before) && (added.Some? ==> Proper(added.value))
    ensures AllProper(pieces)
    ensures TextOf(pieces) == TextOf(before) + AddedText(added)
    ensures Balance(Bare(pieces)) == Balance(Bare(before)) + AddedNesting(added)
  {
    if added.Some? {
      pieces := before + [added.value];
      BareSnoc(before, added.value);
      TextSnoc(before, added.value);
    } else {
      pieces := before;
    }
  }

  lemma ExplainNext(st: Scan, init: string, c: char, text: string, depth: int, was: Piece)
    returns (added: Option<Piece>, open: Piece)
    requires Explained(st, init, text, depth, was)
    ensures added.Some? ==> Proper(added.value)
    ensures Explained(Step(st, c), init + [c], text + AddedText(added), depth + AddedNesting(added), open)
  {
    if st.quote.Some? {
      added, open := NextQuoted(st, init, c, text, depth, was);
    } else if c == '"' || c == '\'' {
      assert init + [c] == text + [] + [c] == text + [] + ([] + [c]);
      open := Opening(st, c);
      added := None;
    } else {
      assert init + [c] == text + [] + [c] == text + [c] + [];
      added, open := Some(Plain(c)), was;
    }
  }

  lemma NextQuoted(st: Scan, init: string, c: char, text: string, depth: int, was: Piece)
    returns (added: Option<Piece>, open: Piece)
    requires st.quote.Some? && Explained(st, init, text, depth, was)
    ensures added.Some? ==> Proper(added.value)
    ensures Explained(Step(st, c), init + [c], text + AddedText(added), depth + AddedNesting(added), open)
  {
    assert init + [c] == text + (OpenText(st, was) + [c]);
    if Step(st, c).quote.Some? {
      open := Inside(st, c, was);
      added := None;
      assert text + [] == text;
    } else {
      Closing(st, c, was);
      added, open := Some(was), was;
      assert text + PieceText(was) + [] == text + PieceText(was);
    }
  }

  lemma Opening(st: Scan, c: char) returns (open: Piece)
    requires st.quote.None? && !st.escaped && (c == '"' || c == '\'')
    ensures Fits(Step(st, c), open) && OpenText(Step(st, c), open) == [c] && Step(st, c).depth == st.depth
  {
    open := if c == '"' then Double([]) else Single([]);
  }

  /** A character inside a literal that does not close it. */
  lemma Inside(st: Scan, c: char, was: Piece) returns (open: Piece)
    requires st.quote.Some? && Fits(st, was) && Step(st, c).quote.Some?
    ensures Fits(Step(st, c), open) && OpenText(Step(st, c), open) == OpenText(st, was) + [c]
  {
    if was.Double? {
      open := Double(was.body + [c]);
    } else if !st.escaped && c == '\\' {
      open := was;
    } else {
      var unit := if st.escaped then Escaped(c) else Raw(c);
      open := Single(was.units + [unit]);
      assert (was.units + [unit])[..|was.units|] == was.units;
      assert UnitsText(open.units) == UnitsText(was.units) + UnitText(unit);
    }
  }

  lemma Closing(st: Scan, c: char, was: Piece)
    requires st.quote.Some? && Fits(st, was) && Step(st, c).quote.None?
    ensures OpenText(st, was) + [c] == PieceText(was) && !st.escaped && Step(st, c).depth == st.depth && !was.Plain?
  {
  }

  /** `p` is closed exactly when it is balanced. */
  lemma ClosedIff(p: string)
    ensures Closed(p) <==> Balanced(p)
  {
    if Closed(p) {
      var pieces, open := Explain(p);
      assert AllProper(pieces) && TextOf(pieces) == p;
    }
    if Balanced(p) {
      var pieces: seq<Piece> :| AllProper(pieces) && TextOf(pieces) == p &&
        multiset(Bare(pieces))['('] == multiset(Bare(pieces))[')'];
      RunPieces(pieces);
    }
  }

  /** The text is cut at exactly the commas with a balanced text before them. */
  lemma CutIff(s: string, i: nat)
    requires i < |s|
    ensures IsCut(TOP, s, i) <==> s[i] == ',' && Balanced(s[..i])
  {
    ClosedIff(s[..i]);
  }

  lemma {:induction false} RunUnquoted(s: string)
    requires '\'' !in s && '"' !in s
    ensures Run(TOP, s) == Scan(Balance(s), None, false)
  {
    if s != [] {
      var init, c := s[..|s| - 1], s[|s| - 1];
      assert s == init + [c];
      RunUnquoted(init);
      RunSnoc(TOP, init, c);
    }
  }

  /** Before the first quote, a comma is a cut exactly when as many parentheses have been
      closed as opened. */
  lemma UnquotedCutIff(s: string, i: nat)
    requires i < |s| && '\'' !in s[..i] && '"' !in s[..i]
    ensures IsCut(TOP, s, i) <==> s[i] == ',' && multiset(s[..i])['('] == multiset(s[..i])[')']
  {
    RunUnquoted(s[..i]);
  }

  /** Every part that the splitter returns is trimmed and not empty, and there is one for each
      segment that is not blank. */
  lemma {:induction false} PartsAreTrimmed(segs: seq<string>)
    ensures forall k :: 0 <= k < |KeepNonBlank(segs)| ==> Trimmed(KeepNonBlank(segs)[k], PySpace)
    ensures |KeepNonBlank(segs)| == |Filter(segs, (t: string) => !AllSpace(t, PySpace))|
  {
    if segs != [] {
      PartsAreTrimmed(segs[1..]);
      var left, right := TrimParts(segs[0], PySpace);
      BlankIff(segs[0], PySpace);
    }
  }
}
