/** The printer of array edits (src/value-pprint-dispatch.cc) and its round trip through the
    parser. */
module ArrayEditPrinter {
  import opened Decimals
  import opened Options
  import opened Texts
  import opened ArrayEditOps
  import opened ArrayEditSurface
  import opened ArrayEditCode
  import opened ArrayEditParser

  /** How numbers and elements are written, each as one lexeme. */
  datatype Writers<!T> = Writers(int64: int -> Lexeme, elem: T -> Lexeme)

  /** The readers undo the writers, and no written value looks like punctuation. */
  ghost predicate Inverse<T(!new)>(r: Readers<T>, w: Writers<T>) {
    && (forall n: Int64 :: r.int64(w.int64(n)) == Some(n))
    && (forall v :: r.elem(w.elem(v)) == Some(v) && (w.elem(v).Atom? || w.elem(v).Word?))
  }

  function LiteralText<T>(w: Writers<T>, lits: seq<T>, i: int): Lexeme {
    if 0 <= i < |lits| then w.elem(lits[i]) else Atom("<?>")
  }

  function IndexText<T>(w: Writers<T>, i: int): seq<Lexeme> {
    [LBracket, w.int64(i), RBracket]
  }

  function InsertionText<T>(w: Writers<T>, what: seq<Lexeme>, at: int): seq<Lexeme> {
    if at == 0 then [Word("prepend")] + what
    else if at == END_INDEX then [Word("append")] + what
    else [Word("insert")] + what + [Word("at")] + IndexText(w, at)
  }

  /** One instruction's text; unknown ops print nothing. */
  function OpText<T>(w: Writers<T>, lits: seq<T>, op: Op, a1: int, a2: int): seq<Lexeme> {
    if op == WRITE_LITERAL then [Word("write"), LiteralText(w, lits, a1), Word("to")] + IndexText(w, a2)
    else if op == WRITE_REF then [Word("write")] + IndexText(w, a1) + [Word("to")] + IndexText(w, a2)
    else if op == INSERT_LITERAL then InsertionText(w, [LiteralText(w, lits, a1)], a2)
    else if op == INSERT_REF then InsertionText(w, IndexText(w, a1), a2)
    else if op == ERASE_REF then [Word("erase")] + IndexText(w, a1)
    else if op == MIN_SIZE then [Word("minsize"), w.int64(a1)]
    else if op == MIN_SIZE_FILL then [Word("minsize"), w.int64(a1), Word("fill"), LiteralText(w, lits, a2)]
    else if op == SET_SIZE then [Word("resize"), w.int64(a1)]
    else if op == SET_SIZE_FILL then [Word("resize"), w.int64(a1), Word("fill"), LiteralText(w, lits, a2)]
    else if op == MAX_SIZE then [Word("maxsize"), w.int64(a1)]
    else []
  }

  function Separator(first: bool): seq<Lexeme> {
    if first then [] else [Semi]
  }

  function Printed<T>(w: Writers<T>, lits: seq<T>, ins: seq<int>, first: bool): seq<Lexeme>
    decreases |ins|, 0
  {
    if ins == [] then [] else PrintedRun(w, lits, WordOp(ins[0]), WordCount(ins[0]), ins[1..], first)
  }

  function PrintedRun<T>(w: Writers<T>, lits: seq<T>, op: Op, count: Count, ins: seq<int>, first: bool): seq<Lexeme>
    decreases |ins|, 1
  {
    if count == 0 then Printed(w, lits, ins, first)
    else if |ins| < Arity(op) then []
    else
      Separator(first) + OpText(w, lits, op, ins[0], if Arity(op) == 2 then ins[1] else 0)
      + PrintedRun(w, lits, op, count - 1, ins[Arity(op)..], false)
  }

  /** One turn of the printing loop moves its text from what is left to what is out. */
  lemma PrintTurn<T>(w: Writers<T>, lits: seq<T>, op: Op, count: Count, ins: seq<int>, first: bool, out: seq<Lexeme>,
      text: seq<Lexeme>)
    requires count > 0 && |ins| >= Arity(op)
    requires text == Separator(first) + OpText(w, lits, op, ins[0], if Arity(op) == 2 then ins[1] else 0)
    ensures out + PrintedRun(w, lits, op, count, ins, first)
         == out + text + PrintedRun(w, lits, op, count - 1, ins[Arity(op)..], false)
  {
  }

  lemma PrintStart<T>(w: Writers<T>, lits: seq<T>, ins: seq<int>, i: nat, first: bool)
    requires i < |ins|
    ensures Printed(w, lits, ins[i..], first)
        == PrintedRun(w, lits, WordOp(ins[i]), WordCount(ins[i]), ins[i + 1..], first)
  {
  }

  lemma PrintRunEnd<T>(w: Writers<T>, lits: seq<T>, op: Op, count: Count, ins: seq<int>, first: bool)
    ensures count == 0 ==> PrintedRun(w, lits, op, count, ins, first) == Printed(w, lits, ins, first)
    ensures count > 0 && |ins| < Arity(op)
        ==> PrintedRun(w, lits, op, count, ins, first) == [] == Printed(w, lits, [], first)
  {
  }

  /** The printing loop; a truncated stream ends it. */
  method PrintLoop<T>(w: Writers<T>, lits: seq<T>, ins: seq<int>) returns (out: seq<Lexeme>)
    ensures out == [LBracket] + Printed(w, lits, ins, true) + [RBracket]
  {
    hide OpText, Arity, WordOp, WordCount, Printed, PrintedRun, Separator;
    out := [];
    var i, emitted := 0, 0;
    assert ins[0..] == ins;
    while i < |ins|
      invariant 0 <= i <= |ins| && 0 <= emitted
      invariant Printed(w, lits, ins, true) == out + Printed(w, lits, ins[i..], emitted == 0)
    {
      var op, count := WordOp(ins[i]), WordCount(ins[i]);
      ghost var start := i;
      PrintStart(w, lits, ins, i, emitted == 0);
      i := i + 1;
      var arity := Arity(op);
      var c: int := 0;
      while c < count
        invariant start < i <= |ins| && 0 <= c <= count && 0 <= emitted
        invariant Printed(w, lits, ins, true)
               == out + PrintedRun(w, lits, op, count - c, ins[i..], emitted == 0)
      {
        if i + arity > |ins| {
          PrintRunEnd(w, lits, op, count - c, ins[i..], emitted == 0);
          i := |ins|;
          assert ins[i..] == [];
          break;
        }
        var a1 := ins[i];
        var a2 := if arity == 2 then ins[i + 1] else 0;
        assert ins[i..][arity..] == ins[i + arity..];
        var text := Separator(emitted == 0) + OpText(w, lits, op, a1, a2);
        PrintTurn(w, lits, op, count - c, ins[i..], emitted == 0, out, text);
        i, out, emitted, c := i + arity, out + text, emitted + 1, c + 1;
      }
      PrintRunEnd(w, lits, op, 0, ins[i..], emitted == 0);
    }
    assert ins[i..] == [];
    NothingPrinted(w, lits, emitted == 0);
    out := [LBracket] + out + [RBracket];
  }

  lemma NothingPrinted<T>(w: Writers<T>, lits: seq<T>, first: bool)
    ensures Printed(w, lits, [], first) == []
  {
  }

  // ----- printing what was compiled -------------------------------------------------------

  function SourceText<T>(w: Writers<T>, src: Source<T>): seq<Lexeme> {
    match src case Lit(v) => [w.elem(v)] case Ref(i) => IndexText(w, i)
  }

  function SizedText<T>(w: Writers<T>, word: string, n: int, fill: Option<T>): seq<Lexeme> {
    match fill
    case None => [Word(word), w.int64(n)]
    case Some(v) => [Word(word), w.int64(n), Word("fill"), w.elem(v)]
  }

  /** The canonical text of an edit. */
  function EditText<T>(w: Writers<T>, e: Edit<T>): seq<Lexeme> {
    match e
    case Write(src, to) => [Word("write")] + SourceText(w, src) + [Word("to")] + IndexText(w, to)
    case Insert(src, at) => InsertionText(w, SourceText(w, src), at)
    case Prepend(src) => [Word("prepend")] + SourceText(w, src)
    case Append(src) => [Word("append")] + SourceText(w, src)
    case Erase(i) => [Word("erase")] + IndexText(w, i)
    case MinSize(n, fill) => SizedText(w, "minsize", n, fill)
    case Resize(n, fill) => SizedText(w, "resize", n, fill)
    case MaxSize(n) => [Word("maxsize"), w.int64(n)]
  }

  function EditTexts<T>(w: Writers<T>, es: seq<Edit<T>>, first: bool): seq<Lexeme> {
    if es == [] then [] else Separator(first) + EditText(w, es[0]) + EditTexts(w, es[1..], false)
  }

  /** Insertions at the two canonical places read back as `prepend` and `append`. */
  function Sugar<T>(e: Edit<T>): Edit<T> {
    match e
    case Insert(src, at) => if at == 0 then Prepend(src) else if at == END_INDEX then Append(src) else e
    case _ => e
  }

  function Sugared<T>(es: seq<Edit<T>>): seq<Edit<T>> {
    if es == [] then [] else [Sugar(es[0])] + Sugared(es[1..])
  }

  lemma PrintInstr<T>(w: Writers<T>, e: Edit<T>, base: nat, pool: seq<T>)
    requires LitsOf(e) != [] ==> base < |pool| && pool[base] == LitsOf(e)[0]
    ensures var i := InstrOf(e, base);
      |i.args| == Arity(i.op) && i.count == 1
      && OpText(w, pool, i.op, i.args[0], if Arity(i.op) == 2 then i.args[1] else 0) == EditText(w, e)
  {
  }

  lemma PrintStep<T>(w: Writers<T>, pool: seq<T>, i: Instr, rest: seq<int>, first: bool, text: seq<Lexeme>)
    requires |i.args| == Arity(i.op) && i.count == 1
    requires OpText(w, pool, i.op, i.args[0], if Arity(i.op) == 2 then i.args[1] else 0) == text
    ensures Printed(w, pool, Words(i) + rest, first) == Separator(first) + text + Printed(w, pool, rest, false)
  {
    var ins := Words(i) + rest;
    WordRoundTrip(i.op, 1, 0);
    var tail := ins[1..];
    assert tail == i.args + rest;
    assert tail[Arity(i.op)..] == rest;
    assert PrintedRun(w, pool, i.op, 0, rest, false) == Printed(w, pool, rest, false);
  }

  lemma PrintFirst<T>(w: Writers<T>, e: Edit<T>, base: nat, pool: seq<T>, rest: seq<int>, first: bool)
    requires LitsOf(e) != [] ==> base < |pool| && pool[base] == LitsOf(e)[0]
    ensures Printed(w, pool, Words(InstrOf(e, base)) + rest, first)
         == Separator(first) + EditText(w, e) + Printed(w, pool, rest, false)
  {
    PrintInstr(w, e, base, pool);
    PrintStep(w, pool, InstrOf(e, base), rest, first, EditText(w, e));
  }

  lemma PoolSplit<T>(es: seq<Edit<T>>, before: seq<T>, after: seq<T>)
    requires es != []
    ensures var own := LitsOf(es[0]); var pool := before + Lits(es) + after;
      && pool == (before + own) + Lits(es[1..]) + after
      && (own != [] ==> |before| < |pool| && pool[|before|] == own[0])
  {
    hide LitsOf;
  }

  lemma {:induction false} PrintCompiled<T>(w: Writers<T>, es: seq<Edit<T>>, before: seq<T>, after: seq<T>, first: bool)
    ensures Printed(w, before + Lits(es) + after, Ops(es, |before|), first) == EditTexts(w, es, first)
  {
    hide EditText, InstrOf, LitsOf, Lits, Ops, Printed, Words, Separator;
    var pool := before + Lits(es) + after;
    if es == [] {
      assert Ops(es, |before|) == [] by { NoOps<T>(|before|); }
      NothingPrinted(w, pool, first);
    } else {
      var own := LitsOf(es[0]);
      PoolSplit(es, before, after);
      PrintCompiled(w, es[1..], before + own, after, false);
      PrintFirst(w, es[0], |before|, pool, Ops(es[1..], |before + own|), first);
      UnfoldOps(es, |before|);
    }
  }

  lemma NoOps<T>(base: nat)
    ensures Ops<T>([], base) == []
  {
  }

  // ----- parsing what was printed -----------------------------------------------------------

  lemma ReadIndex<T(!new)>(r: Readers<T>, w: Writers<T>, ts: seq<Lexeme>, p: nat, i: Int64)
    requires Inverse(r, w) && StandsAt(ts, p, IndexText(w, i))
    ensures Index(r, ts, p) == Some((i, p + 3))
  {
  }

  lemma ReadOperand<T(!new)>(r: Readers<T>, w: Writers<T>, ts: seq<Lexeme>, p: nat, src: Source<T>)
    requires Inverse(r, w) && StandsAt(ts, p, SourceText(w, src))
    ensures Operand(r, ts, p) == Some((src, p + |SourceText(w, src)|))
  {
  }

  lemma ReadPlaced<T(!new)>(r: Readers<T>, w: Writers<T>, ts: seq<Lexeme>, p: nat, src: Source<T>, word: string,
      at: Int64)
    requires Inverse(r, w) && StandsAt(ts, p, SourceText(w, src) + [Word(word)] + IndexText(w, at))
    ensures Placed(r, ts, p, word) == Some((src, at, p + |SourceText(w, src)| + 4))
  {
    var s := SourceText(w, src);
    StandsJoined(ts, p, s + [Word(word)], IndexText(w, at));
    StandsJoined(ts, p, s, [Word(word)]);
    ReadOperand(r, w, ts, p, src);
    ElementAt(ts, p + |s|, [Word(word)], 0);
    ReadIndex(r, w, ts, p + |s| + 1, at);
  }

  lemma ReadSized<T(!new)>(r: Readers<T>, w: Writers<T>, ts: seq<Lexeme>, p: nat, word: string, n: Int64,
      fill: Option<T>)
    requires Inverse(r, w) && StandsAt(ts, p, SizedText(w, word, n, fill))
    requires p + |SizedText(w, word, n, fill)| < |ts| && !ts[p + |SizedText(w, word, n, fill)|].Word?
    ensures ts[p] == Word(word)
    ensures Sized(r, ts, p + 1) == Some((n, fill, p + |SizedText(w, word, n, fill)|))
  {
    var t := SizedText(w, word, n, fill);
    ElementAt(ts, p, t, 0);
    ElementAt(ts, p, t, 1);
    assert r.int64(ts[p + 1]) == Some(n);
    match fill
    case None => assert |t| == 2 && ts[p + 2] != Word("fill");
    case Some(v) =>
      ElementAt(ts, p, t, 2);
      ElementAt(ts, p, t, 3);
      assert |t| == 4 && ts[p + 2] == Word("fill");
      assert r.elem(ts[p + 3]) == Some(v);
  }

  /** A keyword followed by the two operands of `write` or `insert`. */
  lemma ReadWordPlaced<T(!new)>(r: Readers<T>, w: Writers<T>, kw: string, src: Source<T>, word: string, at: Int64,
      ts: seq<Lexeme>, p: nat)
    requires Inverse(r, w) && StandsAt(ts, p, [Word(kw)] + SourceText(w, src) + [Word(word)] + IndexText(w, at))
    ensures ts[p] == Word(kw)
    ensures Placed(r, ts, p + 1, word) == Some((src, at, p + 1 + |SourceText(w, src)| + 4))
  {
    var args := SourceText(w, src) + [Word(word)] + IndexText(w, at);
    assert [Word(kw)] + SourceText(w, src) + [Word(word)] + IndexText(w, at) == [Word(kw)] + args;
    StandsJoined(ts, p, [Word(kw)], args);
    ElementAt(ts, p, [Word(kw)], 0);
    ReadPlaced(r, w, ts, p + 1, src, word, at);
  }

  lemma ReadWordOperand<T(!new)>(r: Readers<T>, w: Writers<T>, kw: string, src: Source<T>, ts: seq<Lexeme>, p: nat)
    requires Inverse(r, w) && StandsAt(ts, p, [Word(kw)] + SourceText(w, src))
    ensures ts[p] == Word(kw)
    ensures Operand(r, ts, p + 1) == Some((src, p + 1 + |SourceText(w, src)|))
  {
    StandsJoined(ts, p, [Word(kw)], SourceText(w, src));
    ElementAt(ts, p, [Word(kw)], 0);
    hide Operand, SourceText;
    ReadOperand(r, w, ts, p + 1, src);
  }

  lemma ReadPlacing<T(!new)>(r: Readers<T>, w: Writers<T>, e: Edit<T>, ts: seq<Lexeme>, p: nat)
    requires Inverse(r, w) && StandsAt(ts, p, EditText(w, e))
    requires e.Insert? || e.Prepend? || e.Append? || e.Write?
    ensures p < |ts| && ts[p].Word?
    ensures Operation(r, ts[p].w, ts, p + 1) == Some((Sugar(e), p + |EditText(w, e)|))
  {
    if e.Write? {
      ReadWordPlaced(r, w, "write", e.src, "to", e.to, ts, p);
    } else if e.Prepend? || (e.Insert? && e.at == 0) {
      ReadWordOperand(r, w, "prepend", e.src, ts, p);
    } else if e.Append? || (e.Insert? && e.at == END_INDEX) {
      ReadWordOperand(r, w, "append", e.src, ts, p);
    } else {
      ReadWordPlaced(r, w, "insert", e.src, "at", e.at, ts, p);
    }
  }

  lemma ReadSizing<T(!new)>(r: Readers<T>, w: Writers<T>, e: Edit<T>, ts: seq<Lexeme>, p: nat)
    requires Inverse(r, w) && StandsAt(ts, p, EditText(w, e)) && (e.MinSize? || e.Resize?)
    requires p + |EditText(w, e)| < |ts| && !ts[p + |EditText(w, e)|].Word?
    ensures ts[p].Word? && Operation(r, ts[p].w, ts, p + 1) == Some((e, p + |EditText(w, e)|))
  {
    hide Placed, Operand, Sized, Index, SizedText, Inverse;
    ReadSized(r, w, ts, p, if e.MinSize? then "minsize" else "resize", e.n, e.fill);
  }

  lemma ReadOther<T(!new)>(r: Readers<T>, w: Writers<T>, e: Edit<T>, ts: seq<Lexeme>, p: nat)
    requires Inverse(r, w) && StandsAt(ts, p, EditText(w, e)) && (e.Erase? || e.MaxSize?)
    ensures p < |ts| && ts[p].Word?
    ensures Operation(r, ts[p].w, ts, p + 1) == Some((e, p + |EditText(w, e)|))
  {
    hide Placed, Operand, Sized, Index;
    if e.Erase? {
      StandsJoined(ts, p, [Word("erase")], IndexText(w, e.i));
      ElementAt(ts, p, [Word("erase")], 0);
      ReadIndex(r, w, ts, p + 1, e.i);
    } else {
      ElementAt(ts, p, EditText(w, e), 0);
      ElementAt(ts, p, EditText(w, e), 1);
    }
  }

  /** Wherever the text of an edit stands, it reads back as the edit. */
  lemma ReadEdit<T(!new)>(r: Readers<T>, w: Writers<T>, e: Edit<T>, ts: seq<Lexeme>, p: nat)
    requires Inverse(r, w) && StandsAt(ts, p, EditText(w, e))
    requires p + |EditText(w, e)| < |ts| && !ts[p + |EditText(w, e)|].Word?
    ensures ts[p].Word? && Operation(r, ts[p].w, ts, p + 1) == Some((Sugar(e), p + |EditText(w, e)|))
  {
    hide Operation, EditText, Inverse;
    if e.Insert? || e.Prepend? || e.Append? || e.Write? {
      ReadPlacing(r, w, e, ts, p);
    } else if e.MinSize? || e.Resize? {
      ReadSizing(r, w, e, ts, p);
    } else {
      ReadOther(r, w, e, ts, p);
    }
  }

  lemma {:induction false} ReadEdits<T(!new)>(r: Readers<T>, w: Writers<T>, es: seq<Edit<T>>, first: bool,
      ts: seq<Lexeme>, p: nat)
    requires Inverse(r, w) && StandsAt(ts, p, EditTexts(w, es, first) + [RBracket])
    ensures Body(r, ts, p) == Some((Sugared(es), p + |EditTexts(w, es, first)| + 1))
  {
    hide EditText, Operation, Sugar, Inverse, StandsAt;
    if es == [] {
      assert EditTexts(w, es, first) + [RBracket] == [RBracket];
      ElementAt(ts, p, [RBracket], 0);
    } else {
      var sep, text, rest := Separator(first), EditText(w, es[0]), EditTexts(w, es[1..], false);
      var after := rest + [RBracket];
      assert EditTexts(w, es, first) + [RBracket] == sep + (text + after);
      StandsJoined(ts, p, sep, text + after);
      if !first {
        ElementAt(ts, p, sep, 0);
      }
      ReadFirstEdit(r, w, es, ts, p + |sep|);
      ReadEdits(r, w, es[1..], false, ts, p + |sep| + |text|);
    }
  }

  lemma ReadFirstEdit<T(!new)>(r: Readers<T>, w: Writers<T>, es: seq<Edit<T>>, ts: seq<Lexeme>, p: nat)
    requires Inverse(r, w) && es != []
    requires StandsAt(ts, p, EditText(w, es[0]) + (EditTexts(w, es[1..], false) + [RBracket]))
    ensures StandsAt(ts, p + |EditText(w, es[0])|, EditTexts(w, es[1..], false) + [RBracket])
    ensures p + |EditText(w, es[0])| < |ts| && ts[p].Word?
    ensures Operation(r, ts[p].w, ts, p + 1) == Some((Sugar(es[0]), p + |EditText(w, es[0])|))
  {
    hide EditText, Operation, Sugar, Inverse;
    var text := EditText(w, es[0]);
    var after := EditTexts(w, es[1..], false) + [RBracket];
    StandsJoined(ts, p, text, after);
    assert after[0] == Semi || after[0] == RBracket;
    ElementAt(ts, p + |text|, after, 0);
    ReadEdit(r, w, es[0], ts, p);
  }

  lemma SugarCompiles<T>(e: Edit<T>, base: nat)
    ensures LitsOf(Sugar(e)) == LitsOf(e) && InstrOf(Sugar(e), base) == InstrOf(e, base)
  {
  }

  lemma {:induction false} SugaredCompile<T>(es: seq<Edit<T>>, base: nat)
    ensures Lits(Sugared(es)) == Lits(es) && Ops(Sugared(es), base) == Ops(es, base)
  {
    hide LitsOf, InstrOf, Sugar, Words;
    if es != [] {
      var ss := Sugared(es);
      assert ss[1..] == Sugared(es[1..]);
      SugarCompiles(es[0], base);
      SugaredCompile(es[1..], base + |LitsOf(es[0])|);
      UnfoldOps(es, base);
      UnfoldOps(ss, base);
    }
  }

  /** Printing what was parsed and parsing it again gives the same literals and the same
      stream, for every accepted text. */
  lemma PrintParse<T(!new)>(r: Readers<T>, w: Writers<T>, source: seq<Lexeme>, p: nat)
    requires Inverse(r, w) && EditValue(r, source, p).Some?
    ensures var es := EditValue(r, source, p).value.0;
      var text := [LBracket] + Printed(w, Lits(es), Ops(es, 0), true) + [RBracket];
      var again := EditValue(r, text, 0);
      again.Some? && again.value.1 == |text|
      && Lits(again.value.0) == Lits(es) && Ops(again.value.0, 0) == Ops(es, 0)
  {
    var es := EditValue(r, source, p).value.0;
    assert [] + Lits(es) + [] == Lits(es);
    PrintCompiled(w, es, [], [], true);
    var texts := EditTexts(w, es, true);
    var text := [LBracket] + Printed(w, Lits(es), Ops(es, 0), true) + [RBracket];
    assert text == [LBracket] + (texts + [RBracket]);
    assert StandsAt(text, 0, [LBracket] + (texts + [RBracket]));
    StandsJoined(text, 0, [LBracket], texts + [RBracket]);
    ReadEdits(r, w, es, true, text, 1);
    SugaredCompile(es, 0);
  }

  // ----- the assumption is met ------------------------------------------------------------------

  function ReadInt64(l: Lexeme): Option<Int64> {
    match l
    case Atom(t) =>
      (match ReadNumeral(t) case Some(n) => if -TWO63 <= n < TWO63 then Some(n) else None case None => None)
    case _ => None
  }

  function ReadInt(l: Lexeme): Option<int> {
    match l case Atom(t) => ReadNumeral(t) case _ => None
  }

  /** Decimal readers and writers of whole numbers undo each other. */
  lemma InverseIsMet()
    ensures Inverse(Readers(ReadInt64, ReadInt), Writers(n => Atom(Numeral(n)), (n: int) => Atom(Numeral(n))))
  {
    hide Numeral, ReadNumeral;
    forall n: int ensures ReadNumeral(Numeral(n)) == Some(n) {
      NumeralReadsBack(n);
    }
  }
}
