/** The parser of array edits (src/ascii-parser-props.cc, ParseArrayEditValue).  Input is a
    sequence of lexemes; blanks between them carry no meaning, line ends do. */
module ArrayEditParser {
  import opened Options
  import opened Texts
  import opened ArrayEditOps
  import opened ArrayEditSurface
  import opened ArrayEditCode

  datatype Lexeme =
    | Word(w: string)     // an identifier
    | Atom(text: string)  // any other value text: a number, a tuple, a quoted string, ...
    | LBracket | RBracket | Comma | Semi
    | LineEnd             // a line end, or a comment up to one

  /** How numbers and array elements are read; both see one lexeme. */
  datatype Readers<!T> = Readers(int64: Lexeme -> Option<Int64>, elem: Lexeme -> Option<T>)

  // ----- the grammar --------------------------------------------------------------------

  /** `[ n ]` */
  function Index<T>(r: Readers<T>, ts: seq<Lexeme>, p: nat): Option<(Int64, nat)> {
    if p + 2 < |ts| && ts[p] == LBracket && r.int64(ts[p + 1]).Some? && ts[p + 2] == RBracket
    then Some((r.int64(ts[p + 1]).value, p + 3)) else None
  }

  function Elem<T>(r: Readers<T>, ts: seq<Lexeme>, p: nat): Option<(T, nat)> {
    if p < |ts| && r.elem(ts[p]).Some? then Some((r.elem(ts[p]).value, p + 1)) else None
  }

  /** `[ n ]` or an element */
  function Operand<T>(r: Readers<T>, ts: seq<Lexeme>, p: nat): Option<(Source<T>, nat)> {
    if p < |ts| && ts[p] == LBracket then
      match Index(r, ts, p) case Some(x) => Some((Ref(x.0), x.1)) case None => None
    else
      match Elem(r, ts, p) case Some(x) => Some((Lit(x.0), x.1)) case None => None
  }

  /** `<operand> <word> [ n ]` */
  function Placed<T>(r: Readers<T>, ts: seq<Lexeme>, p: nat, word: string): Option<(Source<T>, Int64, nat)> {
    match Operand(r, ts, p)
    case None => None
    case Some(x) =>
      if x.1 < |ts| && ts[x.1] == Word(word) && Index(r, ts, x.1 + 1).Some?
      then Some((x.0, Index(r, ts, x.1 + 1).value.0, Index(r, ts, x.1 + 1).value.1))
      else None
  }

  /** `n` with an optional `fill <element>` on the same line */
  function Sized<T>(r: Readers<T>, ts: seq<Lexeme>, p: nat): Option<(Int64, Option<T>, nat)> {
    if p >= |ts| || r.int64(ts[p]).None? then None
    else if p + 1 < |ts| && ts[p + 1] == Word("fill") then
      match Elem(r, ts, p + 2)
      case Some(x) => Some((r.int64(ts[p]).value, Some(x.0), x.1))
      case None => None
    else Some((r.int64(ts[p]).value, None, p + 1))
  }

  /** The operands of one operation, after its keyword `w`. */
  function Operation<T>(r: Readers<T>, w: string, ts: seq<Lexeme>, p: nat): (e: Option<(Edit<T>, nat)>)
    ensures e.Some? ==> p < e.value.1 <= |ts|
  {
    if w == "write" then
      match Placed(r, ts, p, "to") case Some(x) => Some((Write(x.0, x.1), x.2)) case None => None
    else if w == "insert" then
      match Placed(r, ts, p, "at") case Some(x) => Some((Insert(x.0, x.1), x.2)) case None => None
    else if w == "prepend" then
      match Operand(r, ts, p) case Some(x) => Some((Prepend(x.0), x.1)) case None => None
    else if w == "append" then
      match Operand(r, ts, p) case Some(x) => Some((Append(x.0), x.1)) case None => None
    else if w == "erase" then
      match Index(r, ts, p) case Some(x) => Some((Erase(x.0), x.1)) case None => None
    else if w == "minsize" then
      match Sized(r, ts, p) case Some(x) => Some((MinSize(x.0, x.1), x.2)) case None => None
    else if w == "resize" then
      match Sized(r, ts, p) case Some(x) => Some((Resize(x.0, x.1), x.2)) case None => None
    else if w == "maxsize" then
      if p < |ts| && r.int64(ts[p]).Some? then Some((MaxSize(r.int64(ts[p]).value), p + 1)) else None
    else None
  }

  predicate IsSeparator(t: Lexeme) { t == LineEnd || t == Semi || t == Comma }

  /** Operations and separators up to the closing bracket. */
  function Body<T>(r: Readers<T>, ts: seq<Lexeme>, p: nat): (b: Option<(seq<Edit<T>>, nat)>)
    decreases |ts| - p
  {
    if p >= |ts| then None
    else if IsSeparator(ts[p]) then Body(r, ts, p + 1)
    else if ts[p] == RBracket then Some(([], p + 1))
    else if !ts[p].Word? then None
    else
      match Operation(r, ts[p].w, ts, p + 1)
      case None => None
      case Some(x) =>
        match Body(r, ts, x.1)
        case Some(rest) => Some(([x.0] + rest.0, rest.1))
        case None => None
  }

  /** The value after the `edit` keyword. */
  function EditValue<T>(r: Readers<T>, ts: seq<Lexeme>, p: nat): Option<(seq<Edit<T>>, nat)> {
    if p < |ts| && ts[p] == LBracket then Body(r, ts, p + 1) else None
  }

  // ----- the parser ---------------------------------------------------------------------

  class Parser<T> {
    const ts: seq<Lexeme>
    const r: Readers<T>
    var pos: nat
    var literals: seq<T>
    var ops: seq<int>

    constructor (ts: seq<Lexeme>, r: Readers<T>, pos: nat)
      ensures this.ts == ts && this.r == r && this.pos == pos && literals == [] && ops == []
    {
      this.ts, this.r, this.pos := ts, r, pos;
      literals, ops := [], [];
    }

    /** parseIndex */
    method ParseIndex() returns (ok: bool, i: Int64)
      modifies this`pos
      ensures ok <==> Index(r, ts, old(pos)).Some?
      ensures ok ==> (i, pos) == Index(r, ts, old(pos)).value
    {
      ok, i := false, 0;
      if pos >= |ts| || ts[pos] != LBracket { return; }
      pos := pos + 1;
      if pos >= |ts| { return; }
      var n := r.int64(ts[pos]);
      if n.None? { return; }
      pos := pos + 1;
      if pos >= |ts| || ts[pos] != RBracket { return; }
      pos := pos + 1;
      return true, n.value;
    }

    /** addLiteral: reads an element into the pool and gives its index. */
    method AddLiteral() returns (ok: bool, li: int)
      modifies this`pos, this`literals
      ensures ok <==> Elem(r, ts, old(pos)).Some?
      ensures ok ==> pos == Elem(r, ts, old(pos)).value.1
      ensures ok ==> literals == old(literals) + [Elem(r, ts, old(pos)).value.0] && li == |old(literals)|
      ensures !ok ==> literals == old(literals)
    {
      ok, li := false, 0;
      if pos >= |ts| { return; }
      var v := r.elem(ts[pos]);
      if v.None? { return; }
      pos := pos + 1;
      literals := literals + [v.value];
      return true, |literals| - 1;
    }

    /** An operand: the literal's pool index or the reference, and which of the two it is. */
    method ParseOperand() returns (ok: bool, isRef: bool, a1: int)
      modifies this`pos, this`literals
      ensures ok <==> Operand(r, ts, old(pos)).Some?
      ensures ok ==> pos == Operand(r, ts, old(pos)).value.1
      ensures ok ==> var src := Operand(r, ts, old(pos)).value.0;
        isRef == src.Ref? && a1 == SourceArg(src, |old(literals)|) && literals == old(literals) + SourceLits(src)
      ensures !ok ==> literals == old(literals)
    {
      isRef := pos < |ts| && ts[pos] == LBracket;
      if isRef {
        ok, a1 := ParseIndex();
      } else {
        ok, a1 := AddLiteral();
      }
    }

    method Emit(op: Op, args: seq<int>)
      modifies this`ops
      ensures ops == old(ops) + Words(Instr(op, 1, args))
    {
      ops := ops + [PackOpWord(op, 1)] + args;
    }

    /** `write` and `insert`. */
    method ParsePlaced(word: string, litOp: Op, refOp: Op) returns (ok: bool)
      modifies this`pos, this`literals, this`ops
      ensures ok <==> Placed(r, ts, old(pos), word).Some?
      ensures ok ==> var x := Placed(r, ts, old(pos), word).value;
        pos == x.2 && literals == old(literals) + SourceLits(x.0)
        && ops == old(ops) + Words(Instr(if x.0.Lit? then litOp else refOp, 1, [SourceArg(x.0, |old(literals)|), x.1]))
      ensures old(literals) <= literals && old(ops) <= ops
    {
      var isRef, a1, a2;
      ok, isRef, a1 := ParseOperand();
      if !ok { return; }
      if pos >= |ts| || ts[pos] != Word(word) { return false; }
      pos := pos + 1;
      ok, a2 := ParseIndex();
      if !ok { return; }
      Emit(if isRef then refOp else litOp, [a1, a2]);
    }

    /** `prepend` and `append`. */
    method ParseAtEnd(at: int) returns (ok: bool)
      modifies this`pos, this`literals, this`ops
      ensures ok <==> Operand(r, ts, old(pos)).Some?
      ensures ok ==> var x := Operand(r, ts, old(pos)).value;
        pos == x.1 && literals == old(literals) + SourceLits(x.0)
        && ops == old(ops)
           + Words(Instr(if x.0.Lit? then INSERT_LITERAL else INSERT_REF, 1, [SourceArg(x.0, |old(literals)|), at]))
      ensures old(literals) <= literals && old(ops) <= ops
    {
      var isRef, a1;
      ok, isRef, a1 := ParseOperand();
      if !ok { return; }
      Emit(if isRef then INSERT_REF else INSERT_LITERAL, [a1, at]);
    }

    /** `minsize` and `resize`, with the look-ahead for `fill`. */
    method ParseSized(plainOp: Op, fillOp: Op) returns (ok: bool)
      modifies this`pos, this`literals, this`ops
      ensures ok <==> Sized(r, ts, old(pos)).Some?
      ensures ok ==> var x := Sized(r, ts, old(pos)).value;
        pos == x.2 && literals == old(literals) + FillLits(x.1)
        && ops == old(ops)
           + Words(if x.1.Some? then Instr(fillOp, 1, [x.0, |old(literals)|]) else Instr(plainOp, 1, [x.0]))
      ensures old(literals) <= literals && old(ops) <= ops
    {
      if pos >= |ts| { return false; }
      var n := r.int64(ts[pos]);
      if n.None? { return false; }
      pos := pos + 1;
      var loc, hasFill, li := pos, false, 0;
      if pos < |ts| && ts[pos].Word? {
        var fkw := ts[pos].w;
        pos := pos + 1;
        if fkw == "fill" {
          ok, li := AddLiteral();
          if !ok { return; }
          hasFill := true;
        } else {
          pos := loc;
        }
      } else {
        pos := loc;
      }
      Emit(if hasFill then fillOp else plainOp, if hasFill then [n.value, li] else [n.value]);
      ok := true;
    }

    /** What one operation adds to the pool and the stream. */
    ghost predicate Emitted(e: Edit<T>, literals0: seq<T>, ops0: seq<int>)
      reads this
    {
      literals == literals0 + LitsOf(e) && ops == ops0 + Words(InstrOf(e, |literals0|))
    }

    /** The keyword dispatch. */
    method ParseOperation(kw: string) returns (ok: bool)
      modifies this`pos, this`literals, this`ops
      ensures ok <==> Operation(r, kw, ts, old(pos)).Some?
      ensures ok ==> pos == Operation(r, kw, ts, old(pos)).value.1
      ensures ok ==> Emitted(Operation(r, kw, ts, old(pos)).value.0, old(literals), old(ops))
      ensures old(literals) <= literals && old(ops) <= ops
    {
      if kw == "write" {
        ok := ParsePlaced("to", WRITE_LITERAL, WRITE_REF);
      } else if kw == "insert" {
        ok := ParsePlaced("at", INSERT_LITERAL, INSERT_REF);
      } else if kw == "prepend" {
        ok := ParseAtEnd(0);
      } else if kw == "append" {
        ok := ParseAtEnd(END_INDEX);
      } else if kw == "erase" {
        var i;
        ok, i := ParseIndex();
        if ok { Emit(ERASE_REF, [i]); }
      } else if kw == "minsize" {
        ok := ParseSized(MIN_SIZE, MIN_SIZE_FILL);
      } else if kw == "resize" {
        ok := ParseSized(SET_SIZE, SET_SIZE_FILL);
      } else if kw == "maxsize" {
        if pos >= |ts| { return false; }
        var n := r.int64(ts[pos]);
        if n.None? { return false; }
        pos := pos + 1;
        Emit(MAX_SIZE, [n.value]);
        ok := true;
      } else {
        ok := false;
      }
    }

    /** SkipCommentAndWhitespaceAndNewline with semicolons allowed. */
    method SkipLines()
      modifies this`pos
      ensures old(pos) <= pos && Body(r, ts, pos) == Body(r, ts, old(pos))
      ensures pos < |ts| ==> ts[pos] != LineEnd && ts[pos] != Semi
    {
      while pos < |ts| && (ts[pos] == LineEnd || ts[pos] == Semi)
        invariant old(pos) <= pos && Body(r, ts, pos) == Body(r, ts, old(pos))
      {
        pos := pos + 1;
      }
    }

    /** ParseArrayEditValue: accepts exactly the texts of the grammar, and turns them into
        the edits' literals and instructions, appended to what the vectors held. */
    method Parse() returns (ok: bool)
      modifies this`pos, this`literals, this`ops
      ensures ok <==> EditValue(r, ts, old(pos)).Some?
      ensures ok ==> var x := EditValue(r, ts, old(pos)).value;
        pos == x.1 && literals == old(literals) + Lits(x.0) && ops == old(ops) + Ops(x.0, |old(literals)|)
      ensures old(literals) <= literals && old(ops) <= ops
    {
      hide Operation, LitsOf, InstrOf, Words;
      if pos >= |ts| || ts[pos] != LBracket { return false; }
      pos := pos + 1;
      ghost var start := pos;
      ghost var done: seq<Edit<T>> := [];
      assert Body(r, ts, start).Some? ==> [] + Body(r, ts, start).value.0 == Body(r, ts, start).value.0;
      while true
        invariant start <= pos
        invariant Follows(Body(r, ts, start), done, Body(r, ts, pos))
        invariant literals == old(literals) + Lits(done) && ops == old(ops) + Ops(done, |old(literals)|)
        decreases |ts| - pos
      {
        SkipLines();
        if pos >= |ts| { return false; }
        if ts[pos] == RBracket {
          pos := pos + 1;
          assert done + [] == done;
          return true;
        }
        if ts[pos] == Comma {
          pos := pos + 1;
          continue;
        }
        if !ts[pos].Word? { return false; }
        var kw := ts[pos].w;
        pos := pos + 1;
        ghost var here, literals1, ops1 := pos, literals, ops;
        ok := ParseOperation(kw);
        if !ok { return; }
        ghost var e := Operation(r, kw, ts, here).value.0;
        AppendEdit(done, e, old(literals), literals1, literals, old(ops), ops1, ops);
        StepFollows(Body(r, ts, start), done, e, Body(r, ts, pos));
        done := done + [e];
      }
    }
  }

  /** `whole` is `done` followed by what `rest` still reads. */
  ghost predicate Follows<T>(whole: Option<(seq<Edit<T>>, nat)>, done: seq<Edit<T>>,
      rest: Option<(seq<Edit<T>>, nat)>) {
    match rest
    case Some(x) => whole == Some((done + x.0, x.1))
    case None => whole == None
  }

  lemma StepFollows<T>(whole: Option<(seq<Edit<T>>, nat)>, done: seq<Edit<T>>, e: Edit<T>,
      rest: Option<(seq<Edit<T>>, nat)>)
    requires Follows(whole, done, match rest case Some(x) => Some(([e] + x.0, x.1)) case None => None)
    ensures Follows(whole, done + [e], rest)
  {
    if rest.Some? {
      assert done + ([e] + rest.value.0) == (done + [e]) + rest.value.0;
    }
  }

  lemma AppendEdit<T>(done: seq<Edit<T>>, e: Edit<T>, literals0: seq<T>, literals1: seq<T>, literals2: seq<T>,
      ops0: seq<int>, ops1: seq<int>, ops2: seq<int>)
    requires literals1 == literals0 + Lits(done) && ops1 == ops0 + Ops(done, |literals0|)
    requires literals2 == literals1 + LitsOf(e) && ops2 == ops1 + Words(InstrOf(e, |literals1|))
    ensures literals2 == literals0 + Lits(done + [e]) && ops2 == ops0 + Ops(done + [e], |literals0|)
  {
    EditAppended(done, e, |literals0|);
    Associate(literals0, Lits(done), LitsOf(e));
    Associate(ops0, Ops(done, |literals0|), Words(InstrOf(e, |literals1|)));
  }

  lemma EditAppended<T>(done: seq<Edit<T>>, e: Edit<T>, base: nat)
    ensures Lits(done + [e]) == Lits(done) + LitsOf(e)
    ensures Ops(done + [e], base) == Ops(done, base) + Words(InstrOf(e, base + |Lits(done)|))
  {
    hide LitsOf, InstrOf, Words, Lits, Ops;
    LitsAppend(done, [e]);
    OpsAppend(done, [e], base);
    OneEdit(e, base + |Lits(done)|);
  }
}
