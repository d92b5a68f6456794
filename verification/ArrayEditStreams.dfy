/** Any instruction stream, whatever its repetition counts: which edits it is decoded to, where
    decoding stops, and how it is printed (src/next/crate/crate-reader.cc, UnpackArrayEditData;
    src/value-pprint-dispatch.cc). */
module ArrayEditStreams {
  import opened Options
  import opened Texts
  import opened ArrayEditOps
  import opened ArrayEditSurface
  import opened ArrayEditParser
  import opened ArrayEditEval
  import opened ArrayEditPrinter

  // ----- runs ------------------------------------------------------------------------------------

  /** How many operands the op of that number takes. */
  function Operands(op: nat): (n: nat)
    ensures 0 < n <= 2
  {
    if op in [0, 1, 2, 3, 6, 8] then 2 else 1
  }

  /** An instruction word with the operands of its repetitions. */
  datatype Run = Run(word: Int64, rows: seq<seq<Int64>>)

  ghost predicate AreRows(op: nat, rows: seq<seq<Int64>>) {
    forall i :: 0 <= i < |rows| ==> |rows[i]| == Operands(op)
  }

  ghost predicate AreRuns(gs: seq<Run>) {
    forall g :: g in gs ==> |g.rows| == WordCount(g.word) && AreRows(WordOp(g.word), g.rows)
  }

  function Flat(rows: seq<seq<Int64>>): seq<Int64> {
    if rows == [] then [] else rows[0] + Flat(rows[1..])
  }

  function Stream(gs: seq<Run>): seq<Int64> {
    if gs == [] then [] else [gs[0].word] + Flat(gs[0].rows) + Stream(gs[1..])
  }

  /** A last run that is cut off: its word, some repetitions, and less than is needed for all. */
  ghost predicate CutRun(cut: seq<Int64>, rows: seq<seq<Int64>>, tail: seq<Int64>) {
    && cut != [] && cut[1..] == Flat(rows) + tail
    && AreRows(WordOp(cut[0]), rows) && |rows| < WordCount(cut[0])
  }

  // ----- decoding ----------------------------------------------------------------------------------

  /** The edit of one repetition; None for an unknown op and for a literal that is not there. */
  function EditAt<T>(lits: seq<T>, op: nat, row: seq<Int64>): Option<Edit<T>>
    requires |row| == Operands(op)
  {
    match op
    case 0 => if 0 <= row[0] < |lits| then Some(Write(Lit(lits[row[0]]), row[1])) else None
    case 1 => Some(Write(Ref(row[0]), row[1]))
    case 2 => if 0 <= row[0] < |lits| then Some(Insert(Lit(lits[row[0]]), row[1])) else None
    case 3 => Some(Insert(Ref(row[0]), row[1]))
    case 4 => Some(Erase(row[0]))
    case 5 => Some(MinSize(row[0], None))
    case 6 => if 0 <= row[1] < |lits| then Some(MinSize(row[0], Some(lits[row[1]]))) else None
    case 7 => Some(Resize(row[0], None))
    case 8 => if 0 <= row[1] < |lits| then Some(Resize(row[0], Some(lits[row[1]]))) else None
    case 9 => Some(MaxSize(row[0]))
    case _ => None
  }

  /** `es` are the edits of the repetitions. */
  ghost predicate RowsMean<T>(lits: seq<T>, op: nat, rows: seq<seq<Int64>>, es: seq<Edit<T>>) {
    && AreRows(op, rows) && |es| == |rows|
    && forall i :: 0 <= i < |rows| ==> EditAt(lits, op, rows[i]) == Some(es[i])
  }

  /** `es` are the edits of the runs; a run without repetitions has a known op too. */
  ghost predicate RunsMean<T>(lits: seq<T>, gs: seq<Run>, es: seq<Edit<T>>) {
    if gs == [] then es == []
    else
      var n := |gs[0].rows|;
      && WordOp(gs[0].word) <= 9 && n <= |es|
      && RowsMean(lits, WordOp(gs[0].word), gs[0].rows, es[..n]) && RunsMean(lits, gs[1..], es[n..])
  }

  /** What stands next is too short, or names a literal that is not there. */
  ghost predicate Stuck<T>(lits: seq<T>, op: nat, tail: seq<Int64>) {
    |tail| < Operands(op) || EditAt(lits, op, tail[..Operands(op)]) == None
  }

  lemma ArityIs(op: Op)
    ensures Arity(op) == Operands(op)
  {
  }

  lemma RowDecodes<T>(lits: seq<T>, op: Op, row: seq<Int64>)
    requires op <= 9 && |row| == Operands(op)
    ensures RecOf(lits, op, row[0], if Arity(op) == 2 then row[1] else 0) ==
      match EditAt(lits, op, row) case Some(e) => Some(RecordOf(e)) case None => None
  {
  }

  lemma {:induction false} RecordsJoined<T>(a: seq<Edit<T>>, b: seq<Edit<T>>)
    ensures Records(a + b) == Records(a) + Records(b)
  {
    if a == [] {
      assert a + b == b;
    } else {
      assert (a + b)[0] == a[0] && (a + b)[1..] == a[1..] + b;
      RecordsJoined(a[1..], b);
      Associate([RecordOf(a[0])], Records(a[1..]), Records(b));
    }
  }

  lemma FirstRow(row: seq<Int64>, rows: seq<seq<Int64>>)
    ensures Flat([row] + rows) == row + Flat(rows)
  {
    assert ([row] + rows)[1..] == rows;
  }

  /** One repetition after the other. */
  lemma {:induction false} RunDecodes<T>(lits: seq<T>, op: Op, count: Count, ins: seq<Int64>)
      returns (rows: seq<seq<Int64>>, es: seq<Edit<T>>, tail: seq<Int64>)
    requires op <= 9
    ensures ins == Flat(rows) + tail && RowsMean(lits, op, rows, es) && |rows| <= count
    ensures |rows| < count ==> Stuck(lits, op, tail)
    ensures DecodeRun(lits, op, count, ins) ==
      if |rows| < count then Decoded(false, Records(es))
      else Decoded(Decode(lits, tail).ok, Records(es) + Decode(lits, tail).recs)
    decreases count
  {
    hide EditAt, RecOf, RecordOf, Arity, Operands;
    ArityIs(op);
    rows, es, tail := [], [], ins;
    var n := Operands(op);
    if count > 0 && |ins| >= n {
      var row := ins[..n];
      RowDecodes(lits, op, row);
      if EditAt(lits, op, row).Some? {
        rows, es, tail := RunDecodes(lits, op, count - 1, ins[n..]);
        FirstRow(row, rows);
        RecordsJoined([EditAt(lits, op, row).value], es);
        rows, es := [row] + rows, [EditAt(lits, op, row).value] + es;
        assert ins == row + ins[n..];
      }
    }
  }

  lemma FirstRun<T>(lits: seq<T>, g: Run, gs: seq<Run>, first: seq<Edit<T>>, es: seq<Edit<T>>)
    requires WordOp(g.word) <= 9 && |g.rows| == WordCount(g.word) && RowsMean(lits, WordOp(g.word), g.rows, first)
    requires AreRuns(gs) && RunsMean(lits, gs, es)
    ensures AreRuns([g] + gs) && RunsMean(lits, [g] + gs, first + es)
    ensures Stream([g] + gs) == [g.word] + Flat(g.rows) + Stream(gs)
  {
    assert |first| == |g.rows| && AreRows(WordOp(g.word), g.rows);
    hide RowsMean, Flat;
    assert ([g] + gs)[1..] == gs && (first + es)[..|first|] == first && (first + es)[|first|..] == es;
  }

  /** Any stream: whole runs, which are decoded to the records of their edits, and a rest that is
      empty exactly when decoding succeeds.  Otherwise the rest starts with an unknown op, or with
      a run that is cut off or names a literal that is not there; the records of its repetitions
      before that are kept. */
  lemma {:induction false} DecodesExactly<T>(lits: seq<T>, ins: seq<Int64>)
      returns (gs: seq<Run>, es: seq<Edit<T>>, rest: seq<Int64>, rows: seq<seq<Int64>>, kept: seq<Edit<T>>,
        tail: seq<Int64>)
    ensures ins == Stream(gs) + rest && AreRuns(gs) && RunsMean(lits, gs, es)
    ensures Decode(lits, ins) == Decoded(rest == [], Records(es) + Records(kept))
    ensures rest == [] ==> kept == []
    ensures rest != [] && WordOp(rest[0]) > 9 ==> kept == []
    ensures rest != [] && WordOp(rest[0]) <= 9 ==>
      && CutRun(rest, rows, tail) && RowsMean(lits, WordOp(rest[0]), rows, kept)
      && Stuck(lits, WordOp(rest[0]), tail)
    decreases |ins|
  {
    hide WordOp, WordCount, RecordOf, EditAt, Operands, DecodeRun, Stuck;
    gs, es, rest, rows, kept, tail := [], [], ins, [], [], [];
    if ins != [] && WordOp(ins[0]) <= 9 {
      var first, behind;
      rows, first, behind := RunDecodes(lits, WordOp(ins[0]), WordCount(ins[0]), ins[1..]);
      if |rows| < WordCount(ins[0]) {
        kept, tail := first, behind;
      } else {
        var g := Run(ins[0], rows);
        gs, es, rest, rows, kept, tail := DecodesExactly(lits, behind);
        assert ins == [g.word] + Flat(g.rows) + Stream(gs) + rest;
        FirstRun(lits, g, gs, first, es);
        RecordsJoined(first, es);
        gs, es := [g] + gs, first + es;
      }
    }
  }

  /** Running a stream that decodes does what its edits do, repetition by repetition. */
  lemma StreamMeaning<T>(lits: seq<T>, ins: seq<Int64>, a: seq<T>, zero: T) returns (gs: seq<Run>, es: seq<Edit<T>>)
    requires Decode(lits, ins).ok
    ensures ins == Stream(gs) && AreRuns(gs) && RunsMean(lits, gs, es)
    ensures ApplyRecs(Decode(lits, ins).recs, a, zero) == RunEdits(es, a, zero)
  {
    var rest, rows, kept, tail;
    gs, es, rest, rows, kept, tail := DecodesExactly(lits, ins);
    RunRecords(es, a, zero);
    assert Stream(gs) + [] == Stream(gs) && Records(es) + Records<T>([]) == Records(es);
  }

  // ----- printing ------------------------------------------------------------------------------------

  /** The text of one repetition: that of its edit, with `<?>` for a literal that is not there, and
      nothing for an unknown op. */
  ghost predicate RowText<T>(w: Writers<T>, lits: seq<T>, op: nat, row: seq<Int64>, text: seq<Lexeme>)
    requires |row| == Operands(op)
  {
    match op
    case 0 => text == [Word("write"), LitText(w, lits, row[0]), Word("to"), LBracket, w.int64(row[1]), RBracket]
    case 2 => AtText([LitText(w, lits, row[0])], row[1], w.int64(row[1]), text)
    case 6 => text == [Word("minsize"), w.int64(row[0]), Word("fill"), LitText(w, lits, row[1])]
    case 8 => text == [Word("resize"), w.int64(row[0]), Word("fill"), LitText(w, lits, row[1])]
    case _ => match EditAt(lits, op, row) case Some(e) => text == EditText(w, e) case None => text == []
  }

  function LitText<T>(w: Writers<T>, lits: seq<T>, i: int): Lexeme {
    if 0 <= i < |lits| then w.elem(lits[i]) else Atom("<?>")
  }

  /** An insertion at 0 is printed as `prepend` and one at the end as `append`. */
  ghost predicate AtText(what: seq<Lexeme>, at: Int64, number: Lexeme, text: seq<Lexeme>) {
    text == if at == 0 then [Word("prepend")] + what
            else if at == -0x8000_0000_0000_0000 then [Word("append")] + what
            else [Word("insert")] + what + [Word("at"), LBracket, number, RBracket]
  }

  /** `texts` are those of the repetitions. */
  ghost predicate RowTexts<T>(w: Writers<T>, lits: seq<T>, op: nat, rows: seq<seq<Int64>>, texts: seq<seq<Lexeme>>) {
    && AreRows(op, rows) && |texts| == |rows|
    && forall i :: 0 <= i < |rows| ==> RowText(w, lits, op, rows[i], texts[i])
  }

  ghost predicate RunTexts<T>(w: Writers<T>, lits: seq<T>, gs: seq<Run>, texts: seq<seq<Lexeme>>) {
    if gs == [] then texts == []
    else
      var n := |gs[0].rows|;
      && n <= |texts| && RowTexts(w, lits, WordOp(gs[0].word), gs[0].rows, texts[..n])
      && RunTexts(w, lits, gs[1..], texts[n..])
  }

  /** All texts with a semicolon in front of each, the very first aside. */
  function Listed(texts: seq<seq<Lexeme>>, first: bool): seq<Lexeme> {
    if texts == [] then [] else (if first then [] else [Semi]) + texts[0] + Listed(texts[1..], false)
  }

  lemma RowPrints<T>(w: Writers<T>, lits: seq<T>, op: Op, row: seq<Int64>)
    requires |row| == Operands(op)
    ensures RowText(w, lits, op, row, OpText(w, lits, op, row[0], if Arity(op) == 2 then row[1] else 0))
  {
  }

  lemma ListedFirst(text: seq<Lexeme>, texts: seq<seq<Lexeme>>, first: bool)
    ensures Listed([text] + texts, first) == Separator(first) + text + Listed(texts, false)
  {
    assert ([text] + texts)[1..] == texts;
  }

  lemma {:induction false} ListedJoined(a: seq<seq<Lexeme>>, b: seq<seq<Lexeme>>, first: bool)
    ensures Listed(a + b, first) == Listed(a, first) + Listed(b, first && a == [])
  {
    if a == [] {
      assert a + b == b;
    } else {
      assert (a + b)[0] == a[0] && (a + b)[1..] == a[1..] + b;
      ListedJoined(a[1..], b, false);
      Associate((if first then [] else [Semi]) + a[0], Listed(a[1..], false), Listed(b, false));
    }
  }

  lemma RowFirst<T>(w: Writers<T>, lits: seq<T>, op: nat, row: seq<Int64>, rows: seq<seq<Int64>>, text: seq<Lexeme>,
      texts: seq<seq<Lexeme>>)
    requires |row| == Operands(op) && RowText(w, lits, op, row, text) && RowTexts(w, lits, op, rows, texts)
    ensures RowTexts(w, lits, op, [row] + rows, [text] + texts)
  {
    hide RowText;
  }

  lemma NoRows<T>(w: Writers<T>, lits: seq<T>, op: nat, first: bool)
    ensures RowTexts(w, lits, op, [], []) && Flat([]) == [] && Listed([], first) == []
    ensures Printed(w, lits, [], first) == []
  {
  }

  lemma {:induction false} RunPrints<T>(w: Writers<T>, lits: seq<T>, op: Op, count: Count, ins: seq<Int64>, first: bool)
      returns (rows: seq<seq<Int64>>, texts: seq<seq<Lexeme>>, tail: seq<Int64>)
    ensures ins == Flat(rows) + tail && RowTexts(w, lits, op, rows, texts) && |rows| <= count
    ensures |rows| < count ==> |tail| < Operands(op)
    ensures PrintedRun(w, lits, op, count, ins, first) ==
      Listed(texts, first) + if |rows| < count then [] else Printed(w, lits, tail, first && rows == [])
    decreases count
  {
    hide RowText, OpText, Arity, Operands, Printed, PrintedRun, RowTexts, Flat, Listed;
    NoRows(w, lits, op, first);
    ArityIs(op);
    rows, texts, tail := [], [], ins;
    var n := Operands(op);
    if count == 0 || |ins| < n {
      PrintRunEnd(w, lits, op, count, ins, first);
      assert Flat(rows) + tail == tail;
      assert [] + Printed(w, lits, tail, first) == Printed(w, lits, tail, first);
    } else {
      var row, text := ins[..n], OpText(w, lits, op, ins[0], if Arity(op) == 2 then ins[1] else 0);
      RowPrints(w, lits, op, row);
      rows, texts, tail := RunPrints(w, lits, op, count - 1, ins[n..], false);
      var behind := if |rows| < count - 1 then [] else Printed(w, lits, tail, false);
      TurnPrinted(w, lits, op, count, ins, first, text, texts, behind);
      FirstRow(row, rows);
      RowFirst(w, lits, op, row, rows, text, texts);
      assert ins == row + ins[n..];
      rows, texts := [row] + rows, [text] + texts;
    }
  }

  lemma TurnPrinted<T>(w: Writers<T>, lits: seq<T>, op: Op, count: Count, ins: seq<Int64>, first: bool,
      text: seq<Lexeme>, texts: seq<seq<Lexeme>>, behind: seq<Lexeme>)
    requires count > 0 && |ins| >= Arity(op)
    requires text == OpText(w, lits, op, ins[0], if Arity(op) == 2 then ins[1] else 0)
    requires PrintedRun(w, lits, op, count - 1, ins[Arity(op)..], false) == Listed(texts, false) + behind
    ensures PrintedRun(w, lits, op, count, ins, first) == Listed([text] + texts, first) + behind
  {
    hide OpText, Arity, Printed, PrintedRun, Listed, Separator;
    var all, front := PrintedRun(w, lits, op, count, ins, first), Separator(first) + text;
    PrintTurn(w, lits, op, count, ins, first, [], front);
    assert all == [] + all && [] + front == front;
    ListedFirst(text, texts, first);
    Associate(front, Listed(texts, false), behind);
  }

  lemma FirstTexts<T>(w: Writers<T>, lits: seq<T>, g: Run, gs: seq<Run>, first: seq<seq<Lexeme>>,
      texts: seq<seq<Lexeme>>)
    requires |g.rows| == WordCount(g.word) && RowTexts(w, lits, WordOp(g.word), g.rows, first)
    requires AreRuns(gs) && RunTexts(w, lits, gs, texts)
    ensures AreRuns([g] + gs) && RunTexts(w, lits, [g] + gs, first + texts)
    ensures Stream([g] + gs) == [g.word] + Flat(g.rows) + Stream(gs)
  {
    assert |first| == |g.rows| && AreRows(WordOp(g.word), g.rows);
    hide RowTexts, Flat;
    assert ([g] + gs)[1..] == gs && (first + texts)[..|first|] == first && (first + texts)[|first|..] == texts;
  }

  lemma RowTextsAre<T>(w: Writers<T>, lits: seq<T>, op: nat, rows: seq<seq<Int64>>, texts: seq<seq<Lexeme>>)
    requires RowTexts(w, lits, op, rows, texts)
    ensures |texts| == |rows| && AreRows(op, rows)
  {
  }

  lemma NoRuns<T>(w: Writers<T>, lits: seq<T>, first: bool)
    ensures Stream([]) == [] && AreRuns([]) && RunTexts(w, lits, [], [])
    ensures Listed([], first) == [] && Printed(w, lits, [], first) == []
  {
  }

  /** Any stream is printed repetition by repetition, up to a last run that is cut off. */
  lemma {:induction false} PrintsExactly<T>(w: Writers<T>, lits: seq<T>, ins: seq<Int64>, first: bool)
      returns (gs: seq<Run>, texts: seq<seq<Lexeme>>, rest: seq<Int64>, rows: seq<seq<Int64>>,
        last: seq<seq<Lexeme>>, tail: seq<Int64>)
    ensures ins == Stream(gs) + rest && AreRuns(gs) && RunTexts(w, lits, gs, texts)
    ensures Printed(w, lits, ins, first) == Listed(texts + last, first)
    ensures rest == [] ==> last == []
    ensures rest != [] ==>
      CutRun(rest, rows, tail) && |tail| < Operands(WordOp(rest[0])) && RowTexts(w, lits, WordOp(rest[0]), rows, last)
    decreases |ins|
  {
    hide WordOp, WordCount, RowText, Operands, PrintedRun, RowTexts, Stream, Flat, AreRuns, RunTexts, Listed, Printed;
    NoRuns(w, lits, first);
    gs, texts, rest, rows, last, tail := [], [], ins, [], [], [];
    assert Stream(gs) + rest == ins;
    if ins != [] {
      var own, behind;
      assert ins[0..] == ins;
      PrintStart(w, lits, ins, 0, first);
      rows, own, behind := RunPrints(w, lits, WordOp(ins[0]), WordCount(ins[0]), ins[1..], first);
      RowTextsAre(w, lits, WordOp(ins[0]), rows, own);
      if |rows| < WordCount(ins[0]) {
        last, tail := own, behind;
        assert [] + last == last && Listed(own, first) + [] == Listed(own, first);
      } else {
        var g := Run(ins[0], rows);
        gs, texts, rest, rows, last, tail := PrintsExactly(w, lits, behind, first && rows == []);
        assert ins == [g.word] + Flat(g.rows) + Stream(gs) + rest;
        FirstTexts(w, lits, g, gs, own, texts);
        ListedJoined(own, texts + last, first);
        assert own + (texts + last) == own + texts + last && (own == [] <==> g.rows == []);
        gs, texts := [g] + gs, own + texts;
      }
    }
  }
}
