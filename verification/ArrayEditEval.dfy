/** The consumers of an instruction stream: the decoder into edit records
    (src/next/crate/crate-reader.cc) and the evaluator over an array
    (src/next/layer/array-edit.cc).  Elements are opaque values here; the evaluator's
    round trip through printed element text is not part of this model. */
module ArrayEditEval {
  import opened Options
  import opened ArrayEditOps
  import opened ArrayEditSurface
  import opened ArrayEditCode

  datatype Kind = KWriteLiteral | KWriteRef | KInsertLiteral | KInsertRef | KErase | KMinSize | KSetSize | KMaxSize

  datatype Rec<T> = Rec(kind: Kind, a1: int, a2: int, hasFill: bool, literal: Option<T>)

  /** On failure `recs` keeps what was decoded before the bad instruction. */
  datatype Decoded<T> = Decoded(ok: bool, recs: seq<Rec<T>>)

  function LiteralAt<T>(lits: seq<T>, i: int): Option<T> {
    if 0 <= i < |lits| then Some(lits[i]) else None
  }

  /** The record of one instruction; None when it names a literal that does not exist. */
  function RecOf<T>(lits: seq<T>, op: Op, a1: int, a2: int): Option<Rec<T>>
    requires op <= 9
  {
    if op == WRITE_REF then Some(Rec(KWriteRef, a1, a2, false, None))
    else if op == INSERT_REF then Some(Rec(KInsertRef, a1, a2, false, None))
    else if op == ERASE_REF then Some(Rec(KErase, a1, 0, false, None))
    else if op == MIN_SIZE then Some(Rec(KMinSize, a1, 0, false, None))
    else if op == SET_SIZE then Some(Rec(KSetSize, a1, 0, false, None))
    else if op == MAX_SIZE then Some(Rec(KMaxSize, a1, 0, false, None))
    else
      var lit := LiteralAt(lits, if op == MIN_SIZE_FILL || op == SET_SIZE_FILL then a2 else a1);
      if lit.None? then None
      else if op == WRITE_LITERAL then Some(Rec(KWriteLiteral, 0, a2, false, lit))
      else if op == INSERT_LITERAL then Some(Rec(KInsertLiteral, 0, a2, false, lit))
      else if op == MIN_SIZE_FILL then Some(Rec(KMinSize, a1, 0, true, lit))
      else Some(Rec(KSetSize, a1, 0, true, lit))
  }

  function Decode<T>(lits: seq<T>, ins: seq<int>): Decoded<T>
    decreases |ins|, 0
  {
    if ins == [] then Decoded(true, [])
    else if WordOp(ins[0]) > 9 then Decoded(false, [])
    else DecodeRun(lits, WordOp(ins[0]), WordCount(ins[0]), ins[1..])
  }

  function DecodeRun<T>(lits: seq<T>, op: Op, count: Count, ins: seq<int>): Decoded<T>
    requires op <= 9
    decreases |ins|, 1
  {
    if count == 0 then Decode(lits, ins)
    else if |ins| < Arity(op) then Decoded(false, [])
    else
      match RecOf(lits, op, ins[0], if Arity(op) == 2 then ins[1] else 0)
      case None => Decoded(false, [])
      case Some(rec) =>
        var rest := DecodeRun(lits, op, count - 1, ins[Arity(op)..]);
        Decoded(rest.ok, [rec] + rest.recs)
  }

  /** What is decoded already and what is left make up the whole. */
  ghost predicate Continues<T>(whole: Decoded<T>, recs: seq<Rec<T>>, rest: Decoded<T>) {
    whole == Decoded(rest.ok, recs + rest.recs)
  }

  lemma RunTurn<T>(whole: Decoded<T>, recs: seq<Rec<T>>, lits: seq<T>, op: Op, count: Count, ins: seq<int>, pos: nat)
    requires count > 0 && op <= 9 && pos <= |ins| && Continues(whole, recs, DecodeRun(lits, op, count, ins[pos..]))
    ensures var after := pos + Arity(op);
      if after > |ins| then whole == Decoded(false, recs)
      else
        match RecOf(lits, op, ins[pos], if Arity(op) == 2 then ins[pos + 1] else 0)
        case None => whole == Decoded(false, recs)
        case Some(rec) => Continues(whole, recs + [rec], DecodeRun(lits, op, count - 1, ins[after..]))
  {
  }

  lemma RunStart<T>(whole: Decoded<T>, recs: seq<Rec<T>>, lits: seq<T>, ins: seq<int>, pos: nat)
    requires pos < |ins| && Continues(whole, recs, Decode(lits, ins[pos..]))
    ensures if WordOp(ins[pos]) > 9 then whole == Decoded(false, recs)
            else Continues(whole, recs, DecodeRun(lits, WordOp(ins[pos]), WordCount(ins[pos]), ins[pos + 1..]))
  {
  }

  lemma RunEnd<T>(lits: seq<T>, op: Op, ins: seq<int>)
    requires op <= 9
    ensures DecodeRun(lits, op, 0, ins) == Decode(lits, ins)
  {
  }

  lemma StreamEnd<T>(whole: Decoded<T>, recs: seq<Rec<T>>, lits: seq<T>)
    ensures Continues(whole, recs, Decode(lits, [])) <==> whole == Decoded(true, recs)
  {
  }

  /** UnpackArrayEditData's loop over the stream. */
  method DecodeLoop<T>(lits: seq<T>, ins: seq<int>) returns (ok: bool, recs: seq<Rec<T>>)
    ensures Decoded(ok, recs) == Decode(lits, ins)
  {
    hide RecOf, WordOp, WordCount, Decode, DecodeRun, Continues;
    ok, recs := true, [];
    var pos := 0;
    ghost var whole := Decode(lits, ins);
    assert Continues(whole, recs, Decode(lits, ins[0..])) by { StreamStart(whole, lits, ins); }
    while pos < |ins|
      invariant 0 <= pos <= |ins| && ok && Continues(whole, recs, Decode(lits, ins[pos..]))
    {
      var op, count := WordOp(ins[pos]), WordCount(ins[pos]);
      ghost var start := pos;
      RunStart(whole, recs, lits, ins, pos);
      pos := pos + 1;
      if op > 9 {
        return false, recs;
      }
      while count > 0
        invariant start < pos <= |ins| && 0 <= count < TWO56
            && Continues(whole, recs, DecodeRun(lits, op, count, ins[pos..]))
        decreases count
      {
        RunTurn(whole, recs, lits, op, count, ins, pos);
        var arity := Arity(op);
        if pos + arity > |ins| {
          return false, recs;
        }
        var rec := RecOf(lits, op, ins[pos], if arity == 2 then ins[pos + 1] else 0);
        if rec.None? {
          return false, recs;
        }
        pos, recs, count := pos + arity, recs + [rec.value], count - 1;
      }
      RunEnd(lits, op, ins[pos..]);
    }
    assert ins[pos..] == [];
    StreamEnd(whole, recs, lits);
  }

  lemma StreamStart<T>(whole: Decoded<T>, lits: seq<T>, ins: seq<int>)
    requires whole == Decode(lits, ins)
    ensures Continues(whole, [], Decode(lits, ins[0..]))
  {
  }

  // ----- evaluation ---------------------------------------------------------------------

  /** Negative indices count from the end; None when the index is out of range. */
  function NormalizeRef(i: int, size: nat): Option<nat> {
    var k := if i < 0 then i + size else i;
    if 0 <= k < size then Some(k) else None
  }

  function NormalizeInsert(i: int, size: nat): Option<nat> {
    var j := if i == END_INDEX then size else i;
    var k := if j < 0 then j + size else j;
    if 0 <= k <= size then Some(k) else None
  }

  function InsertAt<T>(a: seq<T>, k: nat, v: T): seq<T>
    requires k <= |a|
  {
    a[..k] + [v] + a[k..]
  }

  function Resized<T>(a: seq<T>, n: nat, fill: T): seq<T> {
    if n <= |a| then a[..n] else a + Copies(n - |a|, fill)
  }

  /** One turn of the evaluator's loop; None is its size-limit error. */
  function ApplyRec<T>(rec: Rec<T>, elems: seq<T>, zero: T): Option<seq<T>> {
    var literal := rec.literal.GetOr(zero);
    var fill := if rec.hasFill then literal else zero;
    match rec.kind
    case KWriteLiteral =>
      Some(match NormalizeRef(rec.a2, |elems|) case Some(k) => elems[k := literal] case None => elems)
    case KWriteRef =>
      Some(match (NormalizeRef(rec.a1, |elems|), NormalizeRef(rec.a2, |elems|))
           case (Some(j), Some(k)) => elems[k := elems[j]]
           case _ => elems)
    case KInsertLiteral =>
      Some(match NormalizeInsert(rec.a2, |elems|) case Some(k) => InsertAt(elems, k, literal) case None => elems)
    case KInsertRef =>
      Some(match (NormalizeRef(rec.a1, |elems|), NormalizeInsert(rec.a2, |elems|))
           case (Some(j), Some(k)) => InsertAt(elems, k, elems[j])
           case _ => elems)
    case KErase =>
      Some(match NormalizeRef(rec.a1, |elems|) case Some(k) => elems[..k] + elems[k + 1..] case None => elems)
    case KMinSize =>
      if rec.a1 < 0 then Some(elems) else if rec.a1 > MAX_ELEMENTS then None
      else Some(if |elems| < rec.a1 then Resized(elems, rec.a1, fill) else elems)
    case KSetSize =>
      if rec.a1 < 0 then Some(elems) else if rec.a1 > MAX_ELEMENTS then None
      else Some(Resized(elems, rec.a1, fill))
    case KMaxSize => Some(if 0 <= rec.a1 < |elems| then elems[..rec.a1] else elems)
  }

  function ApplyRecs<T>(recs: seq<Rec<T>>, elems: seq<T>, zero: T): Option<seq<T>> {
    if recs == [] then Some(elems)
    else
      match ApplyRec(recs[0], elems, zero)
      case Some(next) => ApplyRecs(recs[1..], next, zero)
      case None => None
  }

  /** ApplyArrayEdit's loop over the records. */
  method ApplyLoop<T>(recs: seq<Rec<T>>, base: seq<T>, zero: T) returns (ok: bool, elems: seq<T>)
    ensures ok <==> ApplyRecs(recs, base, zero).Some?
    ensures ok ==> elems == ApplyRecs(recs, base, zero).value
  {
    ok, elems := true, base;
    for i := 0 to |recs|
      invariant ok && ApplyRecs(recs, base, zero) == ApplyRecs(recs[i..], elems, zero)
    {
      assert recs[i..][1..] == recs[i + 1..];
      var next := ApplyRec(recs[i], elems, zero);
      if next.None? {
        return false, elems;
      }
      elems := next.value;
    }
  }

  // ----- the compiled stream means what the edits mean -----------------------------------

  function SourceKind<T>(src: Source<T>, lit: Kind, ref: Kind): Kind {
    if src.Lit? then lit else ref
  }

  function SourceIndex<T>(src: Source<T>): int {
    match src case Lit(_) => 0 case Ref(i) => i
  }

  function SourceLit<T>(src: Source<T>): Option<T> {
    match src case Lit(v) => Some(v) case Ref(_) => None
  }

  /** The record an edit stands for: prepend and append are insertions at 0 and at the end. */
  function RecordOf<T>(e: Edit<T>): Rec<T> {
    match e
    case Write(s, to) => Rec(SourceKind(s, KWriteLiteral, KWriteRef), SourceIndex(s), to, false, SourceLit(s))
    case Insert(s, at) => Rec(SourceKind(s, KInsertLiteral, KInsertRef), SourceIndex(s), at, false, SourceLit(s))
    case Prepend(s) => Rec(SourceKind(s, KInsertLiteral, KInsertRef), SourceIndex(s), 0, false, SourceLit(s))
    case Append(s) => Rec(SourceKind(s, KInsertLiteral, KInsertRef), SourceIndex(s), END_INDEX, false, SourceLit(s))
    case Erase(i) => Rec(KErase, i, 0, false, None)
    case MinSize(n, fill) => Rec(KMinSize, n, 0, fill.Some?, fill)
    case Resize(n, fill) => Rec(KSetSize, n, 0, fill.Some?, fill)
    case MaxSize(n) => Rec(KMaxSize, n, 0, false, None)
  }

  function Records<T>(es: seq<Edit<T>>): seq<Rec<T>> {
    if es == [] then [] else [RecordOf(es[0])] + Records(es[1..])
  }

  lemma DecodeInstr<T>(e: Edit<T>, base: nat, pool: seq<T>)
    requires LitsOf(e) != [] ==> base < |pool| && pool[base] == LitsOf(e)[0]
    ensures var i := InstrOf(e, base);
      |i.args| == Arity(i.op) && i.op <= 9 && i.count == 1
      && RecOf(pool, i.op, i.args[0], if Arity(i.op) == 2 then i.args[1] else 0) == Some(RecordOf(e))
  {
  }

  lemma DecodeStep<T>(i: Instr, rest: seq<int>, pool: seq<T>, rec: Rec<T>)
    requires |i.args| == Arity(i.op) && i.op <= 9 && i.count == 1
    requires RecOf(pool, i.op, i.args[0], if Arity(i.op) == 2 then i.args[1] else 0) == Some(rec)
    ensures Decode(pool, Words(i) + rest) == Decoded(Decode(pool, rest).ok, [rec] + Decode(pool, rest).recs)
  {
    var ins := Words(i) + rest;
    WordRoundTrip(i.op, 1, 0);
    var tail := ins[1..];
    assert tail == i.args + rest;
    assert tail[Arity(i.op)..] == rest;
    assert DecodeRun(pool, i.op, 0, rest) == Decode(pool, rest);
  }

  /** Decoding a compiled stream gives the edits' records in source order, whatever the pool
      holds before and after the edits' own literals. */
  lemma {:induction false} DecodeCompiled<T>(es: seq<Edit<T>>, before: seq<T>, after: seq<T>)
    ensures Decode(before + Lits(es) + after, Ops(es, |before|)) == Decoded(true, Records(es))
  {
    hide LitsOf, InstrOf, Words, RecOf, RecordOf;
    if es != [] {
      var own := LitsOf(es[0]);
      var pool := before + Lits(es) + after;
      DecodeCompiled(es[1..], before + own, after);
      assert before + own + Lits(es[1..]) + after == pool;
      assert own != [] ==> pool[|before|] == own[0];
      DecodeInstr(es[0], |before|, pool);
      DecodeStep(InstrOf(es[0], |before|), Ops(es[1..], |before + own|), pool, RecordOf(es[0]));
      UnfoldOps(es, |before|);
    }
  }

  /** Insertion at a normalized index, spelled as the edits spell it. */
  lemma InsertSpellings<T>(a: seq<T>, v: T)
    ensures InsertAt(a, 0, v) == [v] + a && InsertAt(a, |a|, v) == a + [v]
  {
  }

  /** Where an insertion record puts its value. */
  function Inserted<T>(a: seq<T>, at: int, v: Option<T>): seq<T> {
    match (v, NormalizeInsert(at, |a|))
    case (Some(x), Some(k)) => InsertAt(a, k, x)
    case _ => a
  }

  lemma InsertRecord<T>(src: Source<T>, at: int, a: seq<T>, zero: T)
    ensures ApplyRec(Rec(SourceKind(src, KInsertLiteral, KInsertRef), SourceIndex(src), at, false, SourceLit(src)),
                     a, zero)
         == Some(Inserted(a, at, SourceValue(src, a)))
  {
  }

  lemma ApplyInsertion<T>(e: Edit<T>, a: seq<T>, zero: T)
    requires e.Insert? || e.Prepend? || e.Append?
    ensures ApplyRec(RecordOf(e), a, zero) == RunEdit(e, a, zero)
  {
    var v := SourceValue(e.src, a);
    if v.Some? {
      InsertSpellings(a, v.value);
    }
    if e.Insert? {
      InsertRecord(e.src, e.at, a, zero);
    } else if e.Prepend? {
      InsertRecord(e.src, 0, a, zero);
    } else {
      InsertRecord(e.src, END_INDEX, a, zero);
    }
  }

  lemma ApplyWrite<T>(e: Edit<T>, a: seq<T>, zero: T)
    requires e.Write?
    ensures ApplyRec(RecordOf(e), a, zero) == RunEdit(e, a, zero)
  {
  }

  lemma ApplyRemoval<T>(e: Edit<T>, a: seq<T>, zero: T)
    requires e.Erase? || e.MaxSize?
    ensures ApplyRec(RecordOf(e), a, zero) == RunEdit(e, a, zero)
  {
  }

  lemma ApplyResizing<T>(e: Edit<T>, a: seq<T>, zero: T)
    requires e.MinSize? || e.Resize?
    ensures ApplyRec(RecordOf(e), a, zero) == RunEdit(e, a, zero)
  {
    assert a[..|a|] == a && a + [] == a;
  }

  /** The evaluator's index arithmetic on a record agrees with the edit's own meaning. */
  lemma ApplyRecordOf<T>(e: Edit<T>, a: seq<T>, zero: T)
    ensures ApplyRec(RecordOf(e), a, zero) == RunEdit(e, a, zero)
  {
    if e.Write? {
      ApplyWrite(e, a, zero);
    } else if e.Erase? || e.MaxSize? {
      ApplyRemoval(e, a, zero);
    } else if e.MinSize? || e.Resize? {
      ApplyResizing(e, a, zero);
    } else {
      ApplyInsertion(e, a, zero);
    }
  }

  lemma {:induction false} RunRecords<T>(es: seq<Edit<T>>, a: seq<T>, zero: T)
    ensures ApplyRecs(Records(es), a, zero) == RunEdits(es, a, zero)
  {
    hide RecordOf, ApplyRec, RunEdit;
    if es != [] {
      ApplyRecordOf(es[0], a, zero);
      assert Records(es)[1..] == Records(es[1..]);
      if RunEdit(es[0], a, zero).Some? {
        RunRecords(es[1..], RunEdit(es[0], a, zero).value, zero);
      }
    }
  }

  /** Evaluating a compiled stream over any array does what the edits say, including the
      size-limit error. */
  lemma CompiledMeaning<T>(es: seq<Edit<T>>, before: seq<T>, after: seq<T>, a: seq<T>, zero: T)
    ensures var d := Decode(before + Lits(es) + after, Ops(es, |before|));
      d.ok && ApplyRecs(d.recs, a, zero) == RunEdits(es, a, zero)
  {
    DecodeCompiled(es, before, after);
    RunRecords(es, a, zero);
  }

  /** Stacking a stronger edit list on a weaker one is running the weaker one first. */
  lemma {:induction false} StackedEdits<T>(weak: seq<Edit<T>>, strong: seq<Edit<T>>, a: seq<T>, zero: T)
    ensures RunEdits(weak + strong, a, zero) ==
            match RunEdits(weak, a, zero) case Some(b) => RunEdits(strong, b, zero) case None => None
  {
    hide RunEdit;
    if weak == [] {
      assert weak + strong == strong;
    } else {
      assert (weak + strong)[1..] == weak[1..] + strong;
      if RunEdit(weak[0], a, zero).Some? {
        StackedEdits(weak[1..], strong, RunEdit(weak[0], a, zero).value, zero);
      }
    }
  }
}
