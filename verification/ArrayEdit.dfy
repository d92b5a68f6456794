/** src/array-edit.hh: the op codes of a sparse array edit and the packed instruction word. */
module ArrayEditOps {

  type Op = n: nat | n < 256

  const WRITE_LITERAL: Op := 0
  const WRITE_REF: Op := 1
  const INSERT_LITERAL: Op := 2
  const INSERT_REF: Op := 3
  const ERASE_REF: Op := 4
  const MIN_SIZE: Op := 5
  const MIN_SIZE_FILL: Op := 6
  const SET_SIZE: Op := 7
  const SET_SIZE_FILL: Op := 8
  const MAX_SIZE: Op := 9

  const TWO56: int := 0x100_0000_0000_0000
  const TWO63: int := 0x8000_0000_0000_0000
  const TWO64: int := 0x1_0000_0000_0000_0000

  type Int64 = n: int | -TWO63 <= n < TWO63

  /** The stream's spelling of "at the end": the smallest int64. */
  const END_INDEX: Int64 := -TWO63

  /** Repetition counts have 56 bits. */
  type Count = n: int | 0 <= n < TWO56

  function Arity(op: Op): (n: nat)
    ensures n == 1 || n == 2
  {
    if op == WRITE_LITERAL || op == WRITE_REF || op == INSERT_LITERAL || op == INSERT_REF
       || op == MIN_SIZE_FILL || op == SET_SIZE_FILL
    then 2 else 1
  }

  function Signed(u: nat): Int64
    requires u < TWO64
  {
    if u < TWO63 then u else u - TWO64
  }

  /** Two's complement: the stream's words are read modulo 2^64. */
  function Unsigned(w: int): (u: nat)
    ensures u < TWO64
    ensures -TWO63 <= w < TWO63 ==> Signed(u) == w
  {
    w % TWO64
  }

  /** The low 56 bits hold the count, the high 8 bits the op. */
  function PackOpWord(op: Op, count: Int64): Int64 {
    Signed(op * TWO56 + count % TWO56)
  }

  function WordOp(w: int): Op {
    Unsigned(w) / TWO56
  }

  function WordCount(w: int): Count {
    Unsigned(w) % TWO56
  }

  /** Packing and unpacking are inverse: a word is exactly an op and a 56-bit count. */
  lemma WordRoundTrip(op: Op, count: Int64, w: Int64)
    ensures WordOp(PackOpWord(op, count)) == op
    ensures WordCount(PackOpWord(op, count)) == count <==> 0 <= count < TWO56
    ensures PackOpWord(WordOp(w), WordCount(w)) == w
  {
  }
}

/** The surface syntax of an array edit and its meaning, before any compilation. */
module ArrayEditSurface {
  import opened Options
  import opened ArrayEditOps

  /** An operand that is either a literal element or the index of an existing one. */
  datatype Source<T> = Lit(v: T) | Ref(i: Int64)

  datatype Edit<T> =
    | Write(src: Source<T>, to: Int64)
    | Insert(src: Source<T>, at: Int64)
    | Prepend(src: Source<T>)
    | Append(src: Source<T>)
    | Erase(i: Int64)
    | MinSize(n: Int64, fill: Option<T>)
    | Resize(n: Int64, fill: Option<T>)
    | MaxSize(n: Int64)

  /** Growth beyond this many elements is an error. */
  const MAX_ELEMENTS: nat := 0x4000_0000

  function Get<T>(a: seq<T>, i: Int64): Option<T> {
    if 0 <= i < |a| then Some(a[i])
    else if -|a| <= i < 0 then Some(a[|a| + i])
    else None
  }

  function SourceValue<T>(src: Source<T>, a: seq<T>): Option<T> {
    match src case Lit(v) => Some(v) case Ref(i) => Get(a, i)
  }

  function Copies<T>(n: nat, v: T): seq<T> {
    if n == 0 then [] else [v] + Copies(n - 1, v)
  }

  function Grown<T>(a: seq<T>, n: nat, fill: T): seq<T>
    requires |a| <= n
  {
    a + Copies(n - |a|, fill)
  }

  /** What one edit does to an array.  Indices below zero count from the end; an edit whose
      index or source does not exist is skipped, and so is a negative size. */
  function RunEdit<T>(e: Edit<T>, a: seq<T>, zero: T): Option<seq<T>> {
    match e
    case Write(src, to) =>
      (match (SourceValue(src, a), Get(a, to))
       case (Some(v), Some(_)) => Some(a[if to < 0 then |a| + to else to := v])
       case _ => Some(a))
    case Insert(src, at) =>
      (match SourceValue(src, a)
       case Some(v) =>
         if at == END_INDEX then Some(a + [v])
         else if 0 <= at <= |a| then Some(a[..at] + [v] + a[at..])
         else if -|a| <= at < 0 then Some(a[..|a| + at] + [v] + a[|a| + at..])
         else Some(a)
       case None => Some(a))
    case Prepend(src) => Some(match SourceValue(src, a) case Some(v) => [v] + a case None => a)
    case Append(src) => Some(match SourceValue(src, a) case Some(v) => a + [v] case None => a)
    case Erase(i) =>
      (match Get(a, i)
       case Some(_) =>
         var k := if i < 0 then |a| + i else i;
         Some(a[..k] + a[k + 1..])
       case None => Some(a))
    case MinSize(n, fill) =>
      if n < 0 then Some(a) else if n > MAX_ELEMENTS then None
      else Some(if |a| < n then Grown(a, n, fill.GetOr(zero)) else a)
    case Resize(n, fill) =>
      if n < 0 then Some(a) else if n > MAX_ELEMENTS then None
      else Some(if |a| <= n then Grown(a, n, fill.GetOr(zero)) else a[..n])
    case MaxSize(n) => Some(if 0 <= n < |a| then a[..n] else a)
  }

  function RunEdits<T>(es: seq<Edit<T>>, a: seq<T>, zero: T): Option<seq<T>> {
    if es == [] then Some(a)
    else
      match RunEdit(es[0], a, zero)
      case Some(b) => RunEdits(es[1..], b, zero)
      case None => None
  }
}

/** The compiler from edits to a literal pool and an int64 instruction stream, as the parser
    emits them (src/ascii-parser-props.cc, ParseArrayEditValue). */
module ArrayEditCode {
  import opened Options
  import opened ArrayEditOps
  import opened ArrayEditSurface

  function SourceLits<T>(src: Source<T>): seq<T> {
    match src case Lit(v) => [v] case Ref(_) => []
  }

  function FillLits<T>(fill: Option<T>): seq<T> {
    match fill case Some(v) => [v] case None => []
  }

  /** The literals an edit adds to the pool. */
  function LitsOf<T>(e: Edit<T>): seq<T> {
    match e
    case Write(src, _) => SourceLits(src)
    case Insert(src, _) => SourceLits(src)
    case Prepend(src) => SourceLits(src)
    case Append(src) => SourceLits(src)
    case Erase(_) => []
    case MinSize(_, fill) => FillLits(fill)
    case Resize(_, fill) => FillLits(fill)
    case MaxSize(_) => []
  }

  /** One instruction: an op, its repetition count and its operands. */
  datatype Instr = Instr(op: Op, count: Count, args: seq<int>)

  function SourceArg<T>(src: Source<T>, base: nat): int {
    match src case Lit(_) => base case Ref(i) => i
  }

  /** The instruction of an edit whose literal, if it has one, is number `base` in the pool. */
  function InstrOf<T>(e: Edit<T>, base: nat): Instr {
    match e
    case Write(src, to) => Instr(if src.Lit? then WRITE_LITERAL else WRITE_REF, 1, [SourceArg(src, base), to])
    case Insert(src, at) => Instr(if src.Lit? then INSERT_LITERAL else INSERT_REF, 1, [SourceArg(src, base), at])
    case Prepend(src) => Instr(if src.Lit? then INSERT_LITERAL else INSERT_REF, 1, [SourceArg(src, base), 0])
    case Append(src) => Instr(if src.Lit? then INSERT_LITERAL else INSERT_REF, 1, [SourceArg(src, base), END_INDEX])
    case Erase(i) => Instr(ERASE_REF, 1, [i])
    case MinSize(n, None) => Instr(MIN_SIZE, 1, [n])
    case MinSize(n, Some(_)) => Instr(MIN_SIZE_FILL, 1, [n, base])
    case Resize(n, None) => Instr(SET_SIZE, 1, [n])
    case Resize(n, Some(_)) => Instr(SET_SIZE_FILL, 1, [n, base])
    case MaxSize(n) => Instr(MAX_SIZE, 1, [n])
  }

  /** The stream words of an instruction. */
  function Words(i: Instr): seq<int> {
    [PackOpWord(i.op, i.count)] + i.args
  }

  function Lits<T>(es: seq<Edit<T>>): seq<T> {
    if es == [] then [] else LitsOf(es[0]) + Lits(es[1..])
  }

  function Instrs<T>(es: seq<Edit<T>>, base: nat): seq<Instr> {
    if es == [] then [] else [InstrOf(es[0], base)] + Instrs(es[1..], base + |LitsOf(es[0])|)
  }

  function Stream(code: seq<Instr>): seq<int> {
    if code == [] then [] else Words(code[0]) + Stream(code[1..])
  }

  function Ops<T>(es: seq<Edit<T>>, base: nat): seq<int> {
    Stream(Instrs(es, base))
  }

  lemma {:induction false} LitsAppend<T>(a: seq<Edit<T>>, b: seq<Edit<T>>)
    ensures Lits(a + b) == Lits(a) + Lits(b)
  {
    hide LitsOf;
    if a == [] {
      assert a + b == b;
    } else {
      assert (a + b)[1..] == a[1..] + b;
      LitsAppend(a[1..], b);
    }
  }

  lemma {:induction false} InstrsAppend<T>(a: seq<Edit<T>>, b: seq<Edit<T>>, base: nat)
    ensures Instrs(a + b, base) == Instrs(a, base) + Instrs(b, base + |Lits(a)|)
  {
    hide LitsOf, InstrOf;
    if a == [] {
      assert a + b == b;
    } else {
      assert (a + b)[1..] == a[1..] + b;
      InstrsAppend(a[1..], b, base + |LitsOf(a[0])|);
    }
  }

  lemma {:induction false} StreamAppend(a: seq<Instr>, b: seq<Instr>)
    ensures Stream(a + b) == Stream(a) + Stream(b)
  {
    hide Words;
    if a == [] {
      assert a + b == b;
    } else {
      assert (a + b)[1..] == a[1..] + b;
      StreamAppend(a[1..], b);
    }
  }

  lemma OpsAppend<T>(a: seq<Edit<T>>, b: seq<Edit<T>>, base: nat)
    ensures Ops(a + b, base) == Ops(a, base) + Ops(b, base + |Lits(a)|)
  {
    hide Lits, Instrs, Stream;
    InstrsAppend(a, b, base);
    StreamAppend(Instrs(a, base), Instrs(b, base + |Lits(a)|));
  }

  lemma UnfoldOps<T>(es: seq<Edit<T>>, base: nat)
    requires es != []
    ensures Ops(es, base) == Words(InstrOf(es[0], base)) + Ops(es[1..], base + |LitsOf(es[0])|)
  {
  }

  lemma OneEdit<T>(e: Edit<T>, base: nat)
    ensures Lits([e]) == LitsOf(e) && Ops([e], base) == Words(InstrOf(e, base))
  {
    UnfoldOps([e], base);
    assert [e][1..] == [];
    assert LitsOf(e) + [] == LitsOf(e) && Words(InstrOf(e, base)) + [] == Words(InstrOf(e, base));
  }

  // ----- walking a stream with the arity table -----------------------------------------

  /** Reads a stream instruction by instruction; fails on a repetition count other than 1,
      or when an operand is missing. */
  function Walk(ins: seq<int>): Option<seq<Instr>> {
    if ins == [] then Some([])
    else if WordCount(ins[0]) != 1 || |ins| < 1 + Arity(WordOp(ins[0])) then None
    else
      var n := Arity(WordOp(ins[0]));
      match Walk(ins[1 + n..])
      case Some(code) => Some([Instr(WordOp(ins[0]), 1, ins[1..1 + n])] + code)
      case None => None
  }

  lemma InstrShape<T>(e: Edit<T>, base: nat)
    ensures InstrOf(e, base).count == 1 && |InstrOf(e, base).args| == Arity(InstrOf(e, base).op)
  {
  }

  lemma WalkStep(i: Instr, rest: seq<int>)
    requires i.count == 1 && |i.args| == Arity(i.op) && Walk(rest).Some?
    ensures Walk(Words(i) + rest) == Some([i] + Walk(rest).value)
  {
    var ws := Words(i) + rest;
    WordRoundTrip(i.op, 1, 0);
    assert ws[0] == PackOpWord(i.op, 1);
    assert ws[1 + Arity(i.op)..] == rest && ws[1..1 + Arity(i.op)] == i.args;
  }

  /** Walking the emitted stream gives back the edits' instructions in source order, each
      word with count 1, and leaves no operand over. */
  lemma {:induction false} WalkCompiled<T>(es: seq<Edit<T>>, base: nat)
    ensures |Instrs(es, base)| == |es|
    ensures Walk(Ops(es, base)) == Some(Instrs(es, base))
  {
    hide LitsOf, InstrOf, Words;
    if es != [] {
      var next := base + |LitsOf(es[0])|;
      WalkCompiled(es[1..], next);
      InstrShape(es[0], base);
      WalkStep(InstrOf(es[0], base), Ops(es[1..], next));
      UnfoldOps(es, base);
    }
  }

  /** The literal an instruction refers to, by op. */
  function LiteralArg(i: Instr): Option<int> {
    if |i.args| == 2 && (i.op == WRITE_LITERAL || i.op == INSERT_LITERAL) then Some(i.args[0])
    else if |i.args| == 2 && (i.op == MIN_SIZE_FILL || i.op == SET_SIZE_FILL) then Some(i.args[1])
    else None
  }

  /** Whatever literals come before and after, each literal operand names the literal its
      edit was written with. */
  lemma {:induction false} LiteralIndexNames<T>(es: seq<Edit<T>>, before: seq<T>, after: seq<T>, k: nat)
    requires k < |es| == |Instrs(es, |before|)|
    ensures NamesItsLiteral(Instrs(es, |before|)[k], es[k], before + Lits(es) + after)
  {
    hide LitsOf, InstrOf, NamesItsLiteral;
    var own := LitsOf(es[0]);
    var tail := Instrs(es[1..], |before + own|);
    assert Instrs(es, |before|) == [InstrOf(es[0], |before|)] + tail;
    assert Lits(es) == own + Lits(es[1..]);
    if k > 0 {
      LiteralIndexNames(es[1..], before + own, after, k - 1);
      assert before + own + Lits(es[1..]) + after == before + Lits(es) + after;
      assert Instrs(es, |before|)[k] == tail[k - 1];
    } else {
      var pool := before + Lits(es) + after;
      assert own != [] ==> pool[|before|] == own[0];
      FirstLiteralNamed(es[0], |before|, pool);
    }
  }

  ghost predicate NamesItsLiteral<T>(i: Instr, e: Edit<T>, pool: seq<T>) {
    match LiteralArg(i)
    case Some(j) => 0 <= j < |pool| && LitsOf(e) == [pool[j]]
    case None => LitsOf(e) == []
  }

  lemma FirstLiteralNamed<T>(e: Edit<T>, base: nat, pool: seq<T>)
    requires LitsOf(e) != [] ==> base < |pool| && pool[base] == LitsOf(e)[0]
    ensures NamesItsLiteral(InstrOf(e, base), e, pool)
  {
  }
}
