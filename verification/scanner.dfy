/** The search-and-insert loop at the heart of `makeDynamicSvg`, for any one
    opening text (`<text`, `<path`, …) and any way of making the inserted
    piece from the element's attribute text. Two versions: the loop as
    written, which resumes its search at the insertion point and so can find
    its own piece again, and the corrected loop, which resumes after it. */
module Scanner {
  import opened Optional
  import opened JsString

  /** One insertion: where the piece went and what it was. */
  datatype Insertion = Insertion(at: nat, piece: string)

  /** The rewritten text and the insertions that made it, in order. */
  datatype Scanned = Scanned(svg: string, trace: seq<Insertion>)

  /** Deletes an inserted piece again. */
  function Delete(s: string, ins: Insertion): string {
    if ins.at + |ins.piece| <= |s| then s[..ins.at] + s[ins.at + |ins.piece|..] else s
  }

  /** Deletes the pieces of `trace`, the latest first. */
  function Undo(s: string, trace: seq<Insertion>): string
    decreases |trace|
  {
    if |trace| == 0 then s else Delete(Undo(s, trace[1..]), trace[0])
  }

  /** Every insertion lands at or after `from` and after the text the
      previous one inserted. */
  predicate Ordered(trace: seq<Insertion>, from: nat) {
    && (forall i :: 0 <= i < |trace| ==> from <= trace[i].at)
    && (forall i :: 0 <= i < |trace| - 1 ==> trace[i].at + |trace[i].piece| <= trace[i + 1].at)
  }

  /** `open` occurs in `s` at `i`, checked from its `j`-th character on. */
  predicate MatchesFrom(s: string, open: string, i: nat, j: nat)
    decreases |open| - j
  {
    j >= |open| || (i + j < |s| && s[i + j] == open[j] && MatchesFrom(s, open, i, j + 1))
  }

  lemma {:induction false} MatchesFromSlices(s: string, open: string, i: nat, j: nat)
    requires j <= |open| && i + |open| <= |s|
    ensures MatchesFrom(s, open, i, j) <==> s[i + j..i + |open|] == open[j..]
    decreases |open| - j
  {
    if j < |open| {
      MatchesFromSlices(s, open, i, j + 1);
      assert s[i + j..i + |open|] == [s[i + j]] + s[i + j + 1..i + |open|];
      assert open[j..] == [open[j]] + open[j + 1..];
    }
  }

  /** `s.indexOf(open, from)`, with only the bounds of a hit in its
      contract; `FindIsIndexOf` connects it with the full search. */
  function Find(s: string, open: string, from: nat): (r: Option<nat>)
    requires |open| > 0
    ensures r.Some? ==> from <= r.value && r.value + |open| <= |s|
    decreases |s| - from
  {
    if from + |open| > |s| then None
    else if MatchesFrom(s, open, from, 0) then Some(from)
    else Find(s, open, from + 1)
  }

  lemma {:induction false} FindIsIndexOf(s: string, open: string, from: nat)
    requires |open| > 0
    ensures Find(s, open, from) == IndexOf(s, open, from)
    decreases |s| - from
  {
    if from + |open| <= |s| {
      MatchesFromSlices(s, open, from, 0);
      assert open[0..] == open;
      if !MatchesFrom(s, open, from, 0) {
        FindIsIndexOf(s, open, from + 1);
      }
    }
  }

  /** One turn of the loop on the opening text found at `i`: the piece goes
      `|open| + 1` characters in (past the opening text and one more, the
      space), clamped to the end of the text. */
  datatype Step = Step(at: nat, piece: string, next: string)

  function NextStep(pieceOf: (string, nat) -> string, open: string, s: string, i: nat): (st: Step)
    requires |open| > 0 && i + |open| <= |s|
    ensures i < st.at <= |s| && |st.next| == |s| + |st.piece|
  {
    var k := Clamp(i + |open| + 1, |s|);
    var piece := pieceOf(s, i + |open| + 1);
    Step(k, piece, Splice(s, k, piece))
  }

  /** `insertStr(s, k, piece)` at an index inside the text. */
  function Splice(s: string, k: nat, piece: string): (r: string)
    requires k <= |s|
    ensures |r| == |s| + |piece|
  {
    s[..k] + piece + s[k..]
  }

  /** The step's new text is `insertStr(s, ci, piece)`. */
  lemma StepInserts(pieceOf: (string, nat) -> string, open: string, s: string, i: nat)
    requires |open| > 0 && i + |open| <= |s|
    ensures var st := NextStep(pieceOf, open, s, i);
      st.next == InsertAt(s, i + |open| + 1, st.piece)
  {
  }

  /** The piece is made from the attribute text and sits at `at` in the new
      text, which is the old text around it. */
  lemma StepFacts(pieceOf: (string, nat) -> string, open: string, s: string, i: nat)
    requires |open| > 0 && i + |open| <= |s|
    ensures var st := NextStep(pieceOf, open, s, i);
      && st.piece == pieceOf(s, i + |open| + 1)
      && st.at == Clamp(i + |open| + 1, |s|)
      && st.next[..st.at] == s[..st.at] && st.next[st.at..st.at + |st.piece|] == st.piece
      && st.next[st.at + |st.piece|..] == s[st.at..]
      && Delete(st.next, Insertion(st.at, st.piece)) == s
  {
    var st := NextStep(pieceOf, open, s, i);
    assert st.next == s[..st.at] + st.piece + s[st.at..];
    assert st.next[..st.at] == s[..st.at];
    assert st.next[st.at + |st.piece|..] == s[st.at..];
  }

  /** The loop for one opening text, corrected to resume after the inserted
      piece. The text only grows; it inserts something exactly when the
      opening text occurs from `from` on, and then its first piece is made
      from the text after the first occurrence and goes after it. */
  function Scan(pieceOf: (string, nat) -> string, open: string, s: string, from: nat): (r: Scanned)
    requires |open| > 0
    ensures r.trace == [] <==> Find(s, open, from).None?
    ensures r.trace == [] ==> r.svg == s
    decreases |s| - from
  {
    match Find(s, open, from)
    case None => Scanned(s, [])
    case Some(i) =>
      var st := NextStep(pieceOf, open, s, i);
      var rest := Scan(pieceOf, open, st.next, st.at + |st.piece|);
      Scanned(rest.svg, [Insertion(st.at, st.piece)] + rest.trace)
  }

  /** One turn of the corrected loop, from the step `st` on the hit `i`
      and the scan `rest` of the text that step made. */
  lemma ScanUnfold(pieceOf: (string, nat) -> string, open: string, s: string, from: nat, i: nat, st: Step, rest: Scanned)
    requires |open| > 0 && Find(s, open, from) == Some(i)
    requires st == NextStep(pieceOf, open, s, i)
    requires rest == Scan(pieceOf, open, st.next, st.at + |st.piece|)
    ensures Scan(pieceOf, open, s, from) == Scanned(rest.svg, [Insertion(st.at, st.piece)] + rest.trace)
  {
  }

  /** The new text of a step begins with the old text up to the piece. */
  lemma StepPrefix(pieceOf: (string, nat) -> string, open: string, s: string, i: nat)
    requires |open| > 0 && i + |open| <= |s|
    ensures var st := NextStep(pieceOf, open, s, i); st.next[..st.at] == s[..st.at]
  {
    var st := NextStep(pieceOf, open, s, i);
  }

  /** Agreement on a prefix carries over to every shorter prefix. */
  lemma PrefixOfPrefix(a: string, b: string, m: nat, n: nat)
    requires m <= n <= |a| && n <= |b| && a[..n] == b[..n]
    ensures a[..m] == b[..m]
  {
    assert a[..m] == a[..n][..m];
    assert b[..m] == b[..n][..m];
  }

  /** The scan only inserts, so it keeps the text before `from`. */
  lemma {:induction false} ScanKeeps(pieceOf: (string, nat) -> string, open: string, s: string, from: nat)
    requires |open| > 0
    ensures var r := Scan(pieceOf, open, s, from);
      && |r.svg| >= |s|
      && (from <= |s| ==> r.svg[..from] == s[..from])
    decreases |s| - from
  {
    match Find(s, open, from)
    case None =>
    case Some(i) =>
      var st := NextStep(pieceOf, open, s, i);
      var rest := Scan(pieceOf, open, st.next, st.at + |st.piece|);
      ScanKeeps(pieceOf, open, st.next, st.at + |st.piece|);
      ScanUnfold(pieceOf, open, s, from, i, st, rest);
      if from <= |s| {
        StepPrefix(pieceOf, open, s, i);
        PrefixOfPrefix(rest.svg, st.next, st.at, st.at + |st.piece|);
        PrefixOfPrefix(rest.svg, s, from, st.at);
      }
  }

  /** Each piece goes after the previous one: the corrected loop never
      looks inside a piece it inserted. */
  lemma {:induction false} ScanOrdered(pieceOf: (string, nat) -> string, open: string, s: string, from: nat)
    requires |open| > 0
    ensures Ordered(Scan(pieceOf, open, s, from).trace, from)
    decreases |s| - from
  {
    match Find(s, open, from)
    case None =>
    case Some(i) =>
      var st := NextStep(pieceOf, open, s, i);
      var rest := Scan(pieceOf, open, st.next, st.at + |st.piece|);
      ScanOrdered(pieceOf, open, st.next, st.at + |st.piece|);
      ScanUnfold(pieceOf, open, s, from, i, st, rest);
      OrderedCons(Insertion(st.at, st.piece), rest.trace, from);
  }

  lemma OrderedCons(head: Insertion, tail: seq<Insertion>, from: nat)
    requires from <= head.at && Ordered(tail, head.at + |head.piece|)
    ensures Ordered([head] + tail, from)
  {
    var t := [head] + tail;
    assert forall i :: 0 < i < |t| ==> t[i] == tail[i - 1];
  }

  /** Deleting the inserted pieces gives back the text the scan started on. */
  lemma {:induction false} ScanUndo(pieceOf: (string, nat) -> string, open: string, s: string, from: nat)
    requires |open| > 0
    ensures var r := Scan(pieceOf, open, s, from); Undo(r.svg, r.trace) == s
    decreases |s| - from
  {
    match Find(s, open, from)
    case None =>
    case Some(i) =>
      var st := NextStep(pieceOf, open, s, i);
      var rest := Scan(pieceOf, open, st.next, st.at + |st.piece|);
      StepUndo(pieceOf, open, s, i, st);
      ScanUndo(pieceOf, open, st.next, st.at + |st.piece|);
      ScanUnfold(pieceOf, open, s, from, i, st, rest);
  }

  /** Deleting a step's piece gives back the text before the step. */
  lemma StepUndo(pieceOf: (string, nat) -> string, open: string, s: string, i: nat, st: Step)
    requires |open| > 0 && i + |open| <= |s| && st == NextStep(pieceOf, open, s, i)
    ensures Delete(st.next, Insertion(st.at, st.piece)) == s
  {
    StepFacts(pieceOf, open, s, i);
  }

  /** Undoing two runs of insertions is undoing the later run, then the
      earlier one. */
  lemma {:induction false} UndoAppend(s: string, x: seq<Insertion>, y: seq<Insertion>)
    ensures Undo(s, x + y) == Undo(Undo(s, y), x)
    decreases |x|
  {
    if |x| == 0 {
      assert x + y == y;
    } else {
      assert (x + y)[1..] == x[1..] + y;
      UndoAppend(s, x[1..], y);
    }
  }

  lemma StepSame(p1: (string, nat) -> string, p2: (string, nat) -> string, open: string, s: string, i: nat)
    requires |open| > 0 && i + |open| <= |s|
    requires p1(s, i + |open| + 1) == p2(s, i + |open| + 1)
    ensures NextStep(p1, open, s, i) == NextStep(p2, open, s, i)
  {
  }

  /** Piece makers that agree everywhere give the same scan. */
  lemma {:induction false} ScanSame(p1: (string, nat) -> string, p2: (string, nat) -> string, open: string, s: string, from: nat)
    requires |open| > 0
    requires forall x, n :: p1(x, n) == p2(x, n)
    ensures Scan(p1, open, s, from) == Scan(p2, open, s, from)
    decreases |s| - from
  {
    match Find(s, open, from)
    case None =>
    case Some(i) =>
      var st := NextStep(p1, open, s, i);
      StepSame(p1, p2, open, s, i);
      var rest := Scan(p1, open, st.next, st.at + |st.piece|);
      ScanSame(p1, p2, open, st.next, st.at + |st.piece|);
      ScanUnfold(p1, open, s, from, i, st, rest);
      ScanUnfold(p2, open, s, from, i, st, rest);
  }

  /** The loop as written: after inserting the piece at `ci` it searches
      again from `ci`, that is from the start of its own piece. It need not
      stop, so it runs on `fuel`; `None` means the fuel ran out. */
  function ScanAsWritten(fuel: nat, pieceOf: (string, nat) -> string, open: string, s: string, from: nat): (r: Option<string>)
    requires |open| > 0
    ensures r.Some? ==> fuel > 0 && |r.value| >= |s|
    ensures fuel > 0 && Find(s, open, from).None? ==> r == Some(s)
    decreases fuel
  {
    if fuel == 0 then None
    else match Find(s, open, from)
      case None => Some(s)
      case Some(i) =>
        var st := NextStep(pieceOf, open, s, i);
        ScanAsWritten(fuel - 1, pieceOf, open, st.next, i + |open| + 1)
  }

  /** One turn of the loop as written. */
  lemma AsWrittenUnfold(fuel: nat, pieceOf: (string, nat) -> string, open: string, s: string, from: nat, i: nat, st: Step)
    requires |open| > 0 && fuel > 0 && Find(s, open, from) == Some(i)
    requires st == NextStep(pieceOf, open, s, i)
    ensures ScanAsWritten(fuel, pieceOf, open, s, from) == ScanAsWritten(fuel - 1, pieceOf, open, st.next, i + |open| + 1)
  {
  }

  /** One turn of the loop as written leads from the text `a`, searched
      from `x`, to the text `b`, searched from `y`. */
  predicate TurnsInto(pieceOf: (string, nat) -> string, open: string, a: string, x: nat, b: string, y: nat)
    requires |open| > 0
  {
    match Find(a, open, x)
    case None => false
    case Some(i) => NextStep(pieceOf, open, a, i).next == b && i + |open| + 1 == y
  }

  /** An endless run of texts, each of which one turn of the loop as
      written leads to the next. */
  ghost predicate Endless(pieceOf: (string, nat) -> string, open: string, texts: nat -> string, from: nat -> nat)
    requires |open| > 0
  {
    forall k: nat :: TurnsInto(pieceOf, open, texts(k), from(k), texts(k + 1), from(k + 1))
  }

  /** On a text of an endless run the loop as written does not finish,
      however many turns it is given. */
  lemma {:induction false} EndlessRunsOut(fuel: nat, pieceOf: (string, nat) -> string, open: string,
                                          texts: nat -> string, from: nat -> nat, k: nat)
    requires |open| > 0 && Endless(pieceOf, open, texts, from)
    ensures ScanAsWritten(fuel, pieceOf, open, texts(k), from(k)) == None
    decreases fuel
  {
    if fuel > 0 {
      assert TurnsInto(pieceOf, open, texts(k), from(k), texts(k + 1), from(k + 1));
      var i := Find(texts(k), open, from(k)).value;
      AsWrittenUnfold(fuel, pieceOf, open, texts(k), from(k), i, NextStep(pieceOf, open, texts(k), i));
      EndlessRunsOut(fuel - 1, pieceOf, open, texts, from, k + 1);
    }
  }

  /** Text without the first character of `open` cannot hold it, so the
      search may start after such text. */
  lemma {:induction false} FindSkip(s: string, open: string, x: nat, y: nat)
    requires |open| > 0 && x <= y
    requires forall j :: x <= j < y && j < |s| ==> s[j] != open[0]
    ensures Find(s, open, x) == Find(s, open, y)
    decreases y - x
  {
    if x < y {
      FindSkip(s, open, x + 1, y);
    }
  }

  /** Every piece of `trace` is non-empty and none holds `c`. */
  predicate Clean(trace: seq<Insertion>, c: char) {
    forall k :: 0 <= k < |trace| ==> |trace[k].piece| > 0 && c !in trace[k].piece
  }

  /** Two runs of insertions are clean together exactly when each is. */
  lemma CleanAppend(x: seq<Insertion>, y: seq<Insertion>, c: char)
    ensures Clean(x + y, c) <==> Clean(x, c) && Clean(y, c)
  {
    assert forall k :: 0 <= k < |x| ==> (x + y)[k] == x[k];
    assert forall k :: 0 <= k < |y| ==> (x + y)[|x| + k] == y[k];
  }

  /** A clean scan has a clean first piece and a clean rest. */
  lemma CleanUnfold(pieceOf: (string, nat) -> string, open: string, s: string, from: nat, i: nat, st: Step, rest: Scanned)
    requires |open| > 0 && Find(s, open, from) == Some(i)
    requires st == NextStep(pieceOf, open, s, i)
    requires rest == Scan(pieceOf, open, st.next, st.at + |st.piece|)
    requires Clean(Scan(pieceOf, open, s, from).trace, open[0])
    ensures |st.piece| > 0 && open[0] !in st.piece && Clean(rest.trace, open[0])
  {
    ScanUnfold(pieceOf, open, s, from, i, st, rest);
    var t := Scan(pieceOf, open, s, from).trace;
    assert t[0] == Insertion(st.at, st.piece);
    assert forall k :: 0 <= k < |rest.trace| ==> rest.trace[k] == t[k + 1];
  }

  /** From the resume point of the loop as written to the end of the piece,
      the new text is piece text. */
  lemma PieceStretch(pieceOf: (string, nat) -> string, open: string, s: string, i: nat, st: Step)
    requires |open| > 0 && i + |open| <= |s| && st == NextStep(pieceOf, open, s, i)
    requires |st.piece| > 0 && open[0] !in st.piece
    ensures i + |open| + 1 <= st.at + |st.piece|
    ensures forall j :: i + |open| + 1 <= j < st.at + |st.piece| && j < |st.next| ==> st.next[j] != open[0]
    ensures |st.next| - (st.at + |st.piece|) < |s| - i
  {
    StepFacts(pieceOf, open, s, i);
    forall j | i + |open| + 1 <= j < st.at + |st.piece| && j < |st.next|
      ensures st.next[j] != open[0]
    {
      assert st.next[j] == st.next[st.at..st.at + |st.piece|][j - st.at];
    }
  }

  /** Started anywhere in a stretch without `open[0]` that ends where the
      corrected loop starts, the loop as written does what the corrected
      one does, as long as every piece the corrected loop inserts is
      non-empty and free of `open[0]`, and the fuel covers the rest of the
      text. */
  lemma {:induction false} AgreeFrom(fuel: nat, pieceOf: (string, nat) -> string, open: string, s: string, x: nat, y: nat, r: Scanned)
    requires |open| > 0 && x <= y
    requires forall j :: x <= j < y && j < |s| ==> s[j] != open[0]
    requires r == Scan(pieceOf, open, s, y) && Clean(r.trace, open[0])
    requires fuel > 0 && fuel > |s| - y
    ensures ScanAsWritten(fuel, pieceOf, open, s, x) == Some(r.svg)
    decreases fuel, 3
  {
    FindSkip(s, open, x, y);
    if Find(s, open, y).Some? {
      AgreeHit(fuel, pieceOf, open, s, x, y, r, Find(s, open, y).value);
    }
  }

  /** `AgreeFrom` when the corrected loop finds the opening text at `i`. */
  lemma {:induction false} AgreeHit(fuel: nat, pieceOf: (string, nat) -> string, open: string, s: string, x: nat, y: nat, r: Scanned, i: nat)
    requires |open| > 0 && Find(s, open, x) == Some(i) && Find(s, open, y) == Some(i)
    requires r == Scan(pieceOf, open, s, y) && Clean(r.trace, open[0])
    requires fuel > 0 && fuel > |s| - y
    ensures ScanAsWritten(fuel, pieceOf, open, s, x) == Some(r.svg)
    decreases fuel, 2
  {
    var st := NextStep(pieceOf, open, s, i);
    var rest := Scan(pieceOf, open, st.next, st.at + |st.piece|);
    HitFacts(pieceOf, open, s, y, r, i, st, rest);
    AgreeStep(fuel, pieceOf, open, s, x, i, st, rest);
  }

  /** The turn on `i` of the loop as written, followed by the agreement on
      the new text. */
  lemma {:induction false} AgreeStep(fuel: nat, pieceOf: (string, nat) -> string, open: string, s: string, x: nat, i: nat,
                                     st: Step, rest: Scanned)
    requires |open| > 0 && Find(s, open, x) == Some(i) && st == NextStep(pieceOf, open, s, i)
    requires rest == Scan(pieceOf, open, st.next, st.at + |st.piece|) && Clean(rest.trace, open[0])
    requires i + |open| + 1 <= st.at + |st.piece|
    requires forall j :: i + |open| + 1 <= j < st.at + |st.piece| && j < |st.next| ==> st.next[j] != open[0]
    requires fuel > |s| - i && |st.next| - (st.at + |st.piece|) < |s| - i
    ensures ScanAsWritten(fuel, pieceOf, open, s, x) == Some(rest.svg)
    decreases fuel, 1
  {
    AgreeNext(fuel, pieceOf, open, st.next, i + |open| + 1, st.at + |st.piece|, rest);
    AsWrittenUnfold(fuel, pieceOf, open, s, x, i, st);
  }

  /** What the corrected loop's step on `i` leaves for the loop as written:
      the same result, a clean rest, and a piece free of `open[0]` between
      the resume point and the end of the piece. */
  lemma HitFacts(pieceOf: (string, nat) -> string, open: string, s: string, y: nat, r: Scanned, i: nat, st: Step, rest: Scanned)
    requires |open| > 0 && Find(s, open, y) == Some(i)
    requires st == NextStep(pieceOf, open, s, i) && rest == Scan(pieceOf, open, st.next, st.at + |st.piece|)
    requires r == Scan(pieceOf, open, s, y) && Clean(r.trace, open[0])
    ensures r.svg == rest.svg && Clean(rest.trace, open[0])
    ensures i + |open| + 1 <= st.at + |st.piece|
    ensures forall j :: i + |open| + 1 <= j < st.at + |st.piece| && j < |st.next| ==> st.next[j] != open[0]
    ensures |st.next| - (st.at + |st.piece|) < |s| - i && y <= i
  {
    ScanUnfold(pieceOf, open, s, y, i, st, rest);
    CleanUnfold(pieceOf, open, s, y, i, st, rest);
    PieceStretch(pieceOf, open, s, i, st);
  }

  /** After a step, the loop as written resumes at `a` inside the piece,
      which ends at `b`, and reaches the corrected loop's result. */
  lemma {:induction false} AgreeNext(fuel: nat, pieceOf: (string, nat) -> string, open: string, t: string, a: nat, b: nat,
                                     rest: Scanned)
    requires |open| > 0 && a <= b
    requires forall j :: a <= j < b && j < |t| ==> t[j] != open[0]
    requires rest == Scan(pieceOf, open, t, b) && Clean(rest.trace, open[0])
    requires fuel > 1 && fuel - 1 > |t| - b
    ensures ScanAsWritten(fuel - 1, pieceOf, open, t, a) == Some(rest.svg)
    decreases fuel, 0
  {
    AgreeFrom(fuel - 1, pieceOf, open, t, a, b, rest);
  }
}
