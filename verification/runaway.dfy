/** Documents on which `makeDynamicSvg` as written never returns: those
    that begin with a `<text>` whose `fill` paint is itself the text `<text`. The piece the
    loop inserts repeats that paint (`skip` keeps the paint literal), the
    loop resumes inside the piece, finds the `<text` there, and inserts the
    same piece again, one step further on, for ever. The corrected loop,
    which resumes after its piece, finishes on every input. */
module Runaway {
  import opened Optional
  import opened JsString
  import opened OrderedMap
  import opened Attributes
  import opened Resolver
  import opened Rewriter
  import Scanner

  /** The beginning of the documents and their parameters: the text's fill
      is kept as it is. */
  const LoopSvg: string := "<svg><text fill=\"<text\">"
  const LoopParams: StringMap := [("text-fill", "skip")]

  /** The element's fill attribute. */
  const FillAttr: string := "fill=\"<text\""

  /** The piece every turn inserts, with the `<text` of the paint 12
      characters in. */
  const Piece: string := "style=\"fill:<text;\"  "

  /** The tail of the piece after the insertion point of the next turn,
      repeated: what the turns leave between the last piece and the
      attribute. */
  function Rep(n: nat): (r: string)
    ensures |r| == 3 * n
    ensures forall j :: 0 <= j < |r| ==> r[j] == '"' || r[j] == ' '
  {
    if n == 0 then "" else Piece[18..] + Rep(n - 1)
  }

  /** `fill="v"` matches `fill=(?:"|').*?(?:"|')` as a whole. */
  lemma QuotedMatches(v: string)
    requires Plain(v)
    ensures AttrLen(Quoted("fill", v), "fill") == Some(|Quoted("fill", v)|)
  {
    AttrLenOf("fill", '"', v, '"', "");
    assert Quoted("fill", v) + "" == Quoted("fill", v);
  }

  /** The value of `fill="v"` is `v`. */
  lemma QuotedValue(v: string)
    requires Plain(v) && '=' !in v
    ensures PropertyStrip(Quoted("fill", v)) == v
  {
    NoTerminator("fill", '"', v, '"');
    ValueWithoutEq("fill", '"', v, '"');
  }

  /** The fill attribute matches `fill=(?:"|').*?(?:"|')` as a whole. */
  lemma FillAttrMatches()
    ensures AttrLen(FillAttr, "fill") == Some(|FillAttr|)
  {
    assert Quoted("fill", "<text") == FillAttr;
    QuotedMatches("<text");
  }

  /** Its value is `<text`. */
  lemma FillAttrValue()
    ensures PropertyStrip(FillAttr) == "<text"
  {
    assert Quoted("fill", "<text") == FillAttr;
    QuotedValue("<text");
  }

  /** After the repeated tails, the first fill match is the attribute. */
  lemma FillFound(n: nat)
    ensures MatchedAttr(Rep(n) + FillAttr, "fill") == Some(FillAttr)
  {
    var style := Rep(n) + FillAttr;
    FirstAttrSkip(style, "fill", 0, 3 * n);
    assert style[3 * n..] == FillAttr;
    FillAttrMatches();
    assert style[3 * n..3 * n + |FillAttr|] == FillAttr;
  }

  /** There is no stroke attribute: no `s` at all. */
  lemma NoStroke(n: nat)
    ensures MatchedAttr(Rep(n) + FillAttr, "stroke").None?
  {
    var style := Rep(n) + FillAttr;
    forall j | 0 <= j < |style| ensures style[j] != 's' {
      if j >= |Rep(n)| {
        assert style[j] == FillAttr[j - |Rep(n)|];
      }
    }
    NoAttr(style, "stroke");
  }

  /** The parameters: the fill's only token is `skip`, and the implicit
      stroke is not set. */
  lemma LoopTokens()
    ensures Tokens(LoopParams, "text", Fill) == ["skip"] && "skip" in Tokens(LoopParams, "text", Fill)
    ensures Tokens(LoopParams, "text", Stroke) == [""]
    ensures !IsSet(LoopParams, "text-implicit-stroke")
  {
    assert "text" + "-" + AxisName(Fill) == "text-fill";
    assert Get(LoopParams, "text-fill") == Some("skip");
    assert FindChar("skip", ',').None?;
    assert LoopParams[0].0 != "text-implicit-stroke";
    assert "text" + "-" + AxisName(Stroke) == "text-stroke";
    assert LoopParams[0].0 != "text-stroke";
    assert FindChar("", ',').None?;
  }

  /** The fill is kept literally. */
  lemma FillPaint(n: nat)
    ensures Paint(Rep(n) + FillAttr, "text", Fill, LoopParams) == Some("<text")
  {
    FillFound(n);
    FillAttrValue();
    assert FromRgb("<text") == "<text" by {
      assert "<text"[0] != "rgb"[0];
    }
  }

  /** There is no stroke to paint. */
  lemma StrokePaint(n: nat)
    ensures Paint(Rep(n) + FillAttr, "text", Stroke, LoopParams).None?
  {
    NoStroke(n);
    LoopTokens();
  }

  lemma FillDeclText()
    ensures DeclOf(Fill, "<text") == "fill:<text;"
  {
    assert AxisName(Fill) + ":" + "<text" + ";" == "fill:<text;";
  }

  /** The fill declaration repeats the paint, with no class. */
  lemma FillDecl(f: Flavor, t: Tables, n: nat)
    ensures AxisDecl(f, t, LoopParams, "text", Fill, Rep(n) + FillAttr, "") == Decl("fill:<text;", "")
  {
    FillPaint(n);
    LoopTokens();
    FillDeclText();
  }

  /** There is no stroke declaration. */
  lemma StrokeDecl(f: Flavor, t: Tables, n: nat)
    ensures AxisDecl(f, t, LoopParams, "text", Stroke, Rep(n) + FillAttr, "") == Decl("", "")
  {
    StrokePaint(n);
  }

  /** `Piece` is `style="`, the fill declaration, `" ` and a space. */
  lemma PieceParts()
    ensures "style=\"" + "fill:<text;" + "" + "\" " + "" + " " == Piece
  {
  }

  /** The attribute text every turn reads holds the fill attribute and no
      stroke, so the piece it makes is `Piece` again. */
  lemma PieceAgain(f: Flavor, t: Tables, n: nat)
    ensures ElementStyle(f, t, LoopParams, "text", Rep(n) + FillAttr) == Piece
  {
    var style := Rep(n) + FillAttr;
    FillDecl(f, t, n);
    StrokeDecl(f, t, n);
    var fill := AxisDecl(f, t, LoopParams, "text", Fill, style, "");
    var stroke := AxisDecl(f, t, LoopParams, "text", Stroke, style, fill.keep);
    PieceParts();
  }

  /** The attribute text from `ci` is `b` when `b` has no `>` and a `>`
      follows it. */
  lemma StyleTextUpTo(s: string, ci: nat, b: string, c: string)
    requires ci <= |s| && s[ci..] == b + ">" + c && '>' !in b
    ensures StyleText(s, ci) == b
  {
    var last := ci + |b|;
    assert s[last] == (b + ">" + c)[|b|];
    assert s[last..last + 1] == ">";
    assert OccursAt(s, ">", last);
    forall j | ci <= j < last ensures !OccursAt(s, ">", j) {
      assert s[j] == b[j - ci];
    }
    assert IndexOf(s, ">", ci) == Some(last);
    assert s[ci..last] == (b + ">" + c)[..|b|] == b;
  }

  /** What follows the last piece after `n` turns: the tails, the element's
      attribute and the rest of the document. */
  function Tail(n: nat, rest: string): string {
    Rep(n) + FillAttr + ">" + rest
  }

  /** The text after `n` turns from a text `prefix + Piece + Tail(0, rest)`:
      everything up to the last piece is `prefix`. */
  function State(prefix: string, n: nat, rest: string): string {
    prefix + Piece + Tail(n, rest)
  }

  /** A state, cut where the next piece goes. */
  lemma TurnSlices(prefix: string, n: nat, rest: string)
    ensures var s := State(prefix, n, rest);
      var ci := |prefix| + 18;
      && ci <= |s| && s[..ci] == prefix + Piece[..18] && s[ci..] == Tail(n + 1, rest)
      && '>' !in Rep(n + 1) + FillAttr
  {
    var s := State(prefix, n, rest);
    var ci := |prefix| + 18;
    assert s == (prefix + Piece[..18]) + (Piece[18..] + Tail(n, rest));
    assert Piece[18..] + Tail(n, rest) == Tail(n + 1, rest);
    var u := Rep(n + 1) + FillAttr;
    forall j | 0 <= j < |u| ensures u[j] != '>' {
      if j >= |Rep(n + 1)| {
        assert u[j] == FillAttr[j - |Rep(n + 1)|];
      }
    }
  }

  /** A search from the start of a copy of `Piece` stops at the `<text` of
      its paint, 12 characters in. */
  lemma FindInPiece(a: string, c: string)
    ensures Scanner.Find(a + Piece + c, "<" + "text", |a|) == Some(|a| + 12)
  {
    var s := a + Piece + c;
    var x := |a|;
    var open := "<" + "text";
    assert forall k :: 0 <= k < |Piece| ==> s[x + k] == Piece[k];
    assert forall k :: 0 <= k < 12 ==> Piece[k] != '<';
    forall j | x <= j < x + 12 ensures s[j] != open[0] {
      assert s[j] == Piece[j - x];
    }
    Scanner.FindSkip(s, open, x, x + 12);
    assert s[x + 12..x + 17] == open by {
      forall k | 0 <= k < 5 ensures s[x + 12 + k] == open[k] {
        assert s[x + 12 + k] == Piece[12 + k];
      }
    }
    Scanner.MatchesFromSlices(s, open, x + 12, 0);
  }

  /** The search from the start of the last piece stops at the `<text` of
      its paint. */
  lemma TurnFind(prefix: string, n: nat, rest: string)
    ensures Scanner.Find(State(prefix, n, rest), "<" + "text", |prefix|) == Some(|prefix| + 12)
  {
    FindInPiece(prefix, Tail(n, rest));
  }

  /** The attribute text the turn reads: the repeated tails and the fill
      attribute. */
  lemma TurnStyle(prefix: string, n: nat, rest: string)
    ensures StyleText(State(prefix, n, rest), |prefix| + 18) == Rep(n + 1) + FillAttr
  {
    TurnSlices(prefix, n, rest);
    StyleTextUpTo(State(prefix, n, rest), |prefix| + 18, Rep(n + 1) + FillAttr, rest);
  }

  /** Wherever the attribute text is the repeated tails and the fill
      attribute, the piece is `Piece`. */
  lemma PieceFrom(f: Flavor, t: Tables, s: string, ci: nat, n: nat)
    requires StyleText(s, ci) == Rep(n) + FillAttr
    ensures PieceOf(f, t, LoopParams, "text")(s, ci) == Piece
  {
    PieceAgain(f, t, n);
  }

  /** The piece the turn makes is `Piece` again. */
  lemma TurnPiece(f: Flavor, t: Tables, prefix: string, n: nat, rest: string)
    ensures PieceOf(f, t, LoopParams, "text")(State(prefix, n, rest), |prefix| + 18) == Piece
  {
    TurnStyle(prefix, n, rest);
    PieceFrom(f, t, State(prefix, n, rest), |prefix| + 18, n + 1);
  }

  /** One turn from the state after `n` turns: the search from the start of
      the last piece finds the `<text` in it, and the new text is the state
      after `n + 1` turns, with the last piece 18 characters further on. */
  lemma Turn(f: Flavor, t: Tables, prefix: string, n: nat, rest: string)
    ensures Scanner.Find(State(prefix, n, rest), "<" + "text", |prefix|) == Some(|prefix| + 12)
    ensures Scanner.NextStep(PieceOf(f, t, LoopParams, "text"), "<" + "text", State(prefix, n, rest), |prefix| + 12).next
         == State(prefix + Piece[..18], n + 1, rest)
  {
    TurnFind(prefix, n, rest);
    TurnPiece(f, t, prefix, n, rest);
    TurnSlices(prefix, n, rest);
  }

  /** The text one turn makes from a state. */
  function Next(p: (string, nat) -> string, prefix: string, n: nat, rest: string): string {
    Scanner.NextStep(p, "<" + "text", State(prefix, n, rest), |prefix| + 12).next
  }

  /** A way of making pieces under which every turn leads from a state to
      the next one. */
  ghost predicate Loops(p: (string, nat) -> string) {
    forall prefix: string, n: nat, rest: string {:trigger Next(p, prefix, n, rest)} ::
      Next(p, prefix, n, rest) == State(prefix + Piece[..18], n + 1, rest)
  }

  /** The element's own piece function loops. */
  lemma PieceLoops(f: Flavor, t: Tables)
    ensures Loops(PieceOf(f, t, LoopParams, "text"))
  {
    forall prefix: string, n: nat, rest: string
      ensures Next(PieceOf(f, t, LoopParams, "text"), prefix, n, rest) == State(prefix + Piece[..18], n + 1, rest)
    {
      Turn(f, t, prefix, n, rest);
    }
  }

  /** The text before the last piece after `k` turns: `<svg><text ` and the
      first 18 characters of each earlier piece. */
  function Before(k: nat): (r: string)
    ensures |r| == 11 + 18 * k
  {
    if k == 0 then "<svg><text " else Before(k - 1) + Piece[..18]
  }

  /** The texts after successive turns on `LoopSvg + rest`, and where the
      loop as written resumes its search in each: at the start of the last
      piece. */
  function Texts(rest: string): nat -> string {
    (k: nat) => State(Before(k), k, rest)
  }

  function Resumes(k: nat): nat {
    |Before(k)|
  }

  /** Each turn leads from one of these texts to the next. */
  lemma TurnAt(p: (string, nat) -> string, rest: string, k: nat)
    requires Loops(p)
    ensures Scanner.TurnsInto(p, "<" + "text", Texts(rest)(k), Resumes(k), Texts(rest)(k + 1), Resumes(k + 1))
  {
    TurnFind(Before(k), k, rest);
    assert Next(p, Before(k), k, rest) == State(Before(k) + Piece[..18], k + 1, rest);
  }

  /** Under a looping piece function the texts form an endless run. */
  lemma TextsEndless(p: (string, nat) -> string, rest: string)
    requires Loops(p)
    ensures Scanner.Endless(p, "<" + "text", Texts(rest), Resumes)
  {
    forall k: nat ensures Scanner.TurnsInto(p, "<" + "text", Texts(rest)(k), Resumes(k), Texts(rest)(k + 1), Resumes(k + 1)) {
      TurnAt(p, rest, k);
    }
  }

  /** The document's `<text` is right after `<svg>`. */
  lemma FirstFind(rest: string)
    ensures Scanner.Find(LoopSvg + rest, "<" + "text", 4) == Some(5)
  {
    var s := LoopSvg + rest;
    var open := "<" + "text";
    assert s[4] == LoopSvg[4];
    Scanner.FindSkip(s, open, 4, 5);
    assert s[5..10] == LoopSvg[5..10] == open;
    Scanner.MatchesFromSlices(s, open, 5, 0);
  }

  /** The document, cut where the first piece goes. */
  lemma FirstSlices(rest: string)
    ensures (LoopSvg + rest)[..11] == "<svg><text " && (LoopSvg + rest)[11..] == Tail(0, rest)
    ensures '>' !in Rep(0) + FillAttr
  {
    assert LoopSvg[..11] == "<svg><text ";
    assert LoopSvg[11..] == FillAttr + ">";
    assert (LoopSvg + rest)[11..] == LoopSvg[11..] + rest;
  }

  /** The first turn on the document reaches the state after no turns: the
      element's piece goes in before its fill attribute. */
  lemma FirstTurn(f: Flavor, t: Tables, rest: string)
    ensures Scanner.Find(LoopSvg + rest, "<" + "text", 4) == Some(5)
    ensures var st := Scanner.NextStep(PieceOf(f, t, LoopParams, "text"), "<" + "text", LoopSvg + rest, 5);
      st.at == 11 && st.piece == Piece && st.next == State("<svg><text ", 0, rest)
  {
    FirstFind(rest);
    FirstSlices(rest);
    StyleTextUpTo(LoopSvg + rest, 11, Rep(0) + FillAttr, rest);
    PieceFrom(f, t, LoopSvg + rest, 11, 0);
  }

  /** The parameters set no width, and the document starts with `<svg`. */
  lemma LoopStart(rest: string)
    ensures Widened(LoopParams, LoopSvg + rest) == LoopSvg + rest
    ensures SvgStart(LoopSvg + rest) == 4 && (LoopSvg + rest)[..4] == "<svg"
  {
    assert LoopParams[0].0 != "width";
    assert (LoopSvg + rest)[..4] == LoopSvg[..4];
    assert OccursAt(LoopSvg + rest, "<svg", 0);
  }

  /** From the state after no turns, resuming at the start of its piece,
      the loop as written does not finish. */
  lemma RunsOutFromStart(fuel: nat, p: (string, nat) -> string, rest: string)
    requires Loops(p)
    ensures Scanner.ScanAsWritten(fuel, p, "<" + "text", State("<svg><text ", 0, rest), 11) == None
  {
    TextsEndless(p, rest);
    Scanner.EndlessRunsOut(fuel, p, "<" + "text", Texts(rest), Resumes, 0);
    assert Texts(rest)(0) == State("<svg><text ", 0, rest);
    assert Resumes(0) == 11;
  }

  /** The first turn of the loop as written on a hit at 5 resumes at 11 in
      the text it made. */
  lemma FirstTurnAsWritten(fuel: nat, p: (string, nat) -> string, s: string, x: nat, u: string)
    requires fuel > 0 && Scanner.Find(s, "<" + "text", x) == Some(5)
    requires Scanner.NextStep(p, "<" + "text", s, 5).next == u
    ensures Scanner.ScanAsWritten(fuel, p, "<" + "text", s, x) == Scanner.ScanAsWritten(fuel - 1, p, "<" + "text", u, 11)
  {
    Scanner.AsWrittenUnfold(fuel, p, "<" + "text", s, x, 5, Scanner.NextStep(p, "<" + "text", s, 5));
    assert |"<" + "text"| == 5;
  }

  /** A first turn at 5 that leads to the state after no turns starts the
      loop, for a piece function that then loops. */
  lemma FirstTurnRunsAway(fuel: nat, p: (string, nat) -> string, s: string, x: nat, rest: string)
    requires Scanner.Find(s, "<" + "text", x) == Some(5)
    requires Scanner.NextStep(p, "<" + "text", s, 5).next == State("<svg><text ", 0, rest)
    requires Loops(p)
    ensures Scanner.ScanAsWritten(fuel, p, "<" + "text", s, x) == None
  {
    if fuel > 0 {
      FirstTurnAsWritten(fuel, p, s, x, State("<svg><text ", 0, rest));
      RunsOutFromStart(fuel - 1, p, rest);
    }
  }

  /** The element's `<text` loop as written does not finish. */
  lemma TextRunsAway(fuel: nat, f: Flavor, t: Tables, rest: string)
    ensures Scanner.ScanAsWritten(fuel, PieceOf(f, t, LoopParams, "text"), "<" + "text", LoopSvg + rest, 4) == None
  {
    FirstTurn(f, t, rest);
    PieceLoops(f, t);
    FirstTurnRunsAway(fuel, PieceOf(f, t, LoopParams, "text"), LoopSvg + rest, 4, rest);
  }

  /** `makeDynamicSvg` as written does not finish on any document that
      begins with `LoopSvg`, whatever the tables, the flavour and the number
      of turns allowed. */
  lemma AsWrittenRunsAway(fuel: nat, f: Flavor, t: Tables, rest: string)
    ensures MakeDynamicSvgAsWritten(fuel, f, t, LoopParams, LoopSvg + rest) == None
  {
    LoopStart(rest);
    TextRunsAway(fuel, f, t, rest);
    assert SvgTags[0] == "text";
  }

  /** The corrected `<text` loop's first insertion is `Piece`, before the
      fill attribute. */
  lemma FirstInsertion(f: Flavor, t: Tables, rest: string)
    ensures var a := ScanTag(f, t, LoopParams, "text", LoopSvg + rest, 4);
      |a.trace| > 0 && a.trace[0] == Scanner.Insertion(11, Piece)
  {
    var p := PieceOf(f, t, LoopParams, "text");
    var open := "<" + "text";
    FirstTurn(f, t, rest);
    var st := Scanner.NextStep(p, open, LoopSvg + rest, 5);
    var r := Scanner.Scan(p, open, st.next, st.at + |st.piece|);
    Scanner.ScanUnfold(p, open, LoopSvg + rest, 4, 5, st, r);
  }

  /** The corrected loop keeps `<svg`, and deleting its pieces gives the
      document back. */
  lemma CorrectedUndo(f: Flavor, t: Tables, rest: string)
    ensures var r := Restyled(f, t, LoopParams, LoopSvg + rest);
      Scanner.Undo(r.svg, r.trace) == LoopSvg + rest && StartsWith(r.svg, "<svg")
  {
    var out := MakeDynamicSvg(f, t, LoopParams, LoopSvg + rest);
    LoopStart(rest);
  }

  /** The corrected loop's first piece is `Piece`, before the fill
      attribute. */
  lemma CorrectedFirst(f: Flavor, t: Tables, rest: string)
    ensures var r := Restyled(f, t, LoopParams, LoopSvg + rest);
      |r.trace| > 0 && r.trace[0] == Scanner.Insertion(11, Piece)
  {
    LoopStart(rest);
    FirstInsertion(f, t, rest);
    assert SvgTags[0] == "text";
  }

  /** The corrected loop on the same documents: it finishes, keeps `<svg`,
      and deleting its pieces gives the document back; the first piece is
      `Piece`, inserted before the fill attribute. */
  lemma CorrectedFinishes(f: Flavor, t: Tables, rest: string)
    ensures var r := Restyled(f, t, LoopParams, LoopSvg + rest);
      && Scanner.Undo(r.svg, r.trace) == LoopSvg + rest
      && StartsWith(r.svg, "<svg")
      && |r.trace| > 0 && r.trace[0] == Scanner.Insertion(11, Piece)
  {
    CorrectedUndo(f, t, rest);
    CorrectedFirst(f, t, rest);
  }
}
