/** The grammar of array edits, stated apart from the parser: which lexemes are the text of which
    edits (src/ascii-parser-props.cc, ParseArrayEditValue). */
module ArrayEditGrammar {
  import opened Options
  import opened ArrayEditOps
  import opened ArrayEditSurface
  import opened ArrayEditParser

  // ----- the text of an edit ---------------------------------------------------------------------

  /** `[ n ]` */
  ghost predicate IndexText<T>(r: Readers<T>, t: seq<Lexeme>, i: Int64) {
    |t| == 3 && t[0] == LBracket && r.int64(t[1]) == Some(i) && t[2] == RBracket
  }

  /** `[ n ]`, or one lexeme that is read as an element. */
  ghost predicate OperandText<T>(r: Readers<T>, t: seq<Lexeme>, src: Source<T>) {
    match src
    case Ref(i) => IndexText(r, t, i)
    case Lit(v) => |t| == 1 && t[0] != LBracket && r.elem(t[0]) == Some(v)
  }

  /** An operand, a word and an index. */
  ghost predicate PlacedText<T>(r: Readers<T>, t: seq<Lexeme>, src: Source<T>, word: string, at: Int64) {
    exists k: nat :: k < |t| && OperandText(r, t[..k], src) && t[k] == Word(word) && IndexText(r, t[k + 1..], at)
  }

  ghost predicate SizedText<T>(r: Readers<T>, t: seq<Lexeme>, n: Int64, fill: Option<T>) {
    match fill
    case None => |t| == 1 && r.int64(t[0]) == Some(n)
    case Some(v) => |t| == 3 && r.int64(t[0]) == Some(n) && t[1] == Word("fill") && r.elem(t[2]) == Some(v)
  }

  ghost predicate EditText<T>(r: Readers<T>, t: seq<Lexeme>, e: Edit<T>) {
    && t != []
    && match e
       case Write(src, to) => t[0] == Word("write") && PlacedText(r, t[1..], src, "to", to)
       case Insert(src, at) => t[0] == Word("insert") && PlacedText(r, t[1..], src, "at", at)
       case Prepend(src) => t[0] == Word("prepend") && OperandText(r, t[1..], src)
       case Append(src) => t[0] == Word("append") && OperandText(r, t[1..], src)
       case Erase(i) => t[0] == Word("erase") && IndexText(r, t[1..], i)
       case MinSize(n, fill) => t[0] == Word("minsize") && SizedText(r, t[1..], n, fill)
       case Resize(n, fill) => t[0] == Word("resize") && SizedText(r, t[1..], n, fill)
       case MaxSize(n) => t == [Word("maxsize"), t[|t| - 1]] && r.int64(t[|t| - 1]) == Some(n)
  }

  ghost predicate Unfilled<T>(e: Edit<T>) { (e.MinSize? || e.Resize?) && e.fill == None }

  /** Edits and separators in any number up to the closing bracket; between two edits none is
      needed, but a size without a fill cannot stand in front of the word `fill`. */
  ghost predicate EditsText<T>(r: Readers<T>, t: seq<Lexeme>, es: seq<Edit<T>>)
    decreases |t|
  {
    || (es == [] && t == [RBracket])
    || (t != [] && t[0] in [LineEnd, Semi, Comma] && EditsText(r, t[1..], es))
    || (es != [] && exists k: nat :: 0 < k < |t| && EditText(r, t[..k], es[0]) && EditsText(r, t[k..], es[1..])
                                     && (Unfilled(es[0]) ==> t[k] != Word("fill")))
  }

  // ----- the parser reads exactly these texts ----------------------------------------------------

  lemma IndexExactly<T>(r: Readers<T>, ts: seq<Lexeme>, p: nat, q: nat, i: Int64)
    requires p <= q <= |ts|
    ensures Index(r, ts, p) == Some((i, q)) <==> IndexText(r, ts[p..q], i)
  {
  }

  lemma OperandExactly<T>(r: Readers<T>, ts: seq<Lexeme>, p: nat, q: nat, src: Source<T>)
    requires p <= q <= |ts|
    ensures Operand(r, ts, p) == Some((src, q)) <==> OperandText(r, ts[p..q], src)
  {
    if src.Ref? {
      IndexExactly(r, ts, p, q, src.i);
    }
  }

  lemma PlacedRead<T>(r: Readers<T>, ts: seq<Lexeme>, p: nat, src: Source<T>, word: string, at: Int64)
    requires p <= |ts| && Placed(r, ts, p, word).Some?
    requires Placed(r, ts, p, word).value.0 == src && Placed(r, ts, p, word).value.1 == at
    ensures var q := Placed(r, ts, p, word).value.2; p < q <= |ts| && PlacedText(r, ts[p..q], src, word, at)
  {
    hide IndexText, OperandText;
    var m, q := Operand(r, ts, p).value.1, Placed(r, ts, p, word).value.2;
    OperandExactly(r, ts, p, m, src);
    IndexExactly(r, ts, m + 1, q, at);
    var t := ts[p..q];
    assert t[..m - p] == ts[p..m] && t[m - p] == ts[m] && t[m - p + 1..] == ts[m + 1..q];
  }

  lemma PlacedWritten<T>(r: Readers<T>, ts: seq<Lexeme>, p: nat, q: nat, src: Source<T>, word: string, at: Int64)
    requires p <= q <= |ts| && PlacedText(r, ts[p..q], src, word, at)
    ensures Placed(r, ts, p, word) == Some((src, at, q))
  {
    hide IndexText, OperandText, Index, Operand;
    var t := ts[p..q];
    var k: nat :| k < |t| && OperandText(r, t[..k], src) && t[k] == Word(word) && IndexText(r, t[k + 1..], at);
    assert t[..k] == ts[p..p + k] && t[k] == ts[p + k] && t[k + 1..] == ts[p + k + 1..q];
    OperandExactly(r, ts, p, p + k, src);
    IndexExactly(r, ts, p + k + 1, q, at);
  }

  lemma PlacedExactly<T>(r: Readers<T>, ts: seq<Lexeme>, p: nat, q: nat, src: Source<T>, word: string, at: Int64)
    requires p <= q <= |ts|
    ensures Placed(r, ts, p, word) == Some((src, at, q)) <==> PlacedText(r, ts[p..q], src, word, at)
  {
    hide PlacedText, Placed;
    if Placed(r, ts, p, word) == Some((src, at, q)) {
      PlacedRead(r, ts, p, src, word, at);
    }
    if PlacedText(r, ts[p..q], src, word, at) {
      PlacedWritten(r, ts, p, q, src, word, at);
    }
  }

  lemma SizedExactly<T>(r: Readers<T>, ts: seq<Lexeme>, p: nat, q: nat, n: Int64, fill: Option<T>)
    requires p <= q <= |ts|
    ensures Sized(r, ts, p) == Some((n, fill, q)) <==>
      SizedText(r, ts[p..q], n, fill) && (fill.None? ==> q == |ts| || ts[q] != Word("fill"))
  {
    var t := ts[p..q];
    assert forall i :: 0 <= i < |t| ==> t[i] == ts[p + i];
  }

  lemma OperationExactly<T>(r: Readers<T>, ts: seq<Lexeme>, p: nat, q: nat, e: Edit<T>)
    requires p < q <= |ts| && ts[p].Word?
    ensures Operation(r, ts[p].w, ts, p + 1) == Some((e, q)) <==>
      EditText(r, ts[p..q], e) && (Unfilled(e) ==> q == |ts| || ts[q] != Word("fill"))
  {
    hide Placed, Operand, Sized, Index, PlacedText, OperandText, SizedText, IndexText;
    var t := ts[p..q];
    assert t[0] == ts[p] && t[1..] == ts[p + 1..q];
    match e
    case Write(src, to) => PlacedExactly(r, ts, p + 1, q, src, "to", to);
    case Insert(src, at) => PlacedExactly(r, ts, p + 1, q, src, "at", at);
    case Prepend(src) => OperandExactly(r, ts, p + 1, q, src);
    case Append(src) => OperandExactly(r, ts, p + 1, q, src);
    case Erase(i) => IndexExactly(r, ts, p + 1, q, i);
    case MinSize(n, fill) => SizedExactly(r, ts, p + 1, q, n, fill);
    case Resize(n, fill) => SizedExactly(r, ts, p + 1, q, n, fill);
    case MaxSize(n) => assert |t| == 2 ==> t == [ts[p], ts[p + 1]];
  }

  lemma {:induction false} BodyRead<T>(r: Readers<T>, ts: seq<Lexeme>, p: nat)
    requires p <= |ts| && Body(r, ts, p).Some?
    ensures var (es, q) := Body(r, ts, p).value; p < q <= |ts| && EditsText(r, ts[p..q], es)
    decreases |ts| - p
  {
    hide Operation, EditText, Unfilled;
    var (es, q) := Body(r, ts, p).value;
    if IsSeparator(ts[p]) {
      BodyRead(r, ts, p + 1);
      assert ts[p..q][1..] == ts[p + 1..q];
    } else if ts[p] != RBracket {
      var (e, m) := Operation(r, ts[p].w, ts, p + 1).value;
      BodyRead(r, ts, m);
      OperationExactly(r, ts, p, m, e);
      EditInFront(r, ts[p..q], es, m - p, ts[p..m], ts[m..q]);
    }
  }

  lemma EditInFront<T>(r: Readers<T>, t: seq<Lexeme>, es: seq<Edit<T>>, k: nat, own: seq<Lexeme>, rest: seq<Lexeme>)
    requires 0 < k < |t| && own == t[..k] && rest == t[k..] && es != []
    requires EditText(r, own, es[0]) && EditsText(r, rest, es[1..]) && (Unfilled(es[0]) ==> rest[0] != Word("fill"))
    ensures EditsText(r, t, es)
  {
    hide EditText, Unfilled;
  }

  lemma EditWritten<T>(r: Readers<T>, ts: seq<Lexeme>, p: nat, m: nat, q: nat, es: seq<Edit<T>>)
    requires p < m < q <= |ts| && es != [] && EditText(r, ts[p..m], es[0])
    requires Unfilled(es[0]) ==> ts[m] != Word("fill")
    requires Body(r, ts, m) == Some((es[1..], q))
    ensures Body(r, ts, p) == Some((es, q))
  {
    KeywordFirst(r, ts[p..m], es[0]);
    assert ts[p..m][0] == ts[p];
    hide Operation, Unfilled, EditText;
    OperationExactly(r, ts, p, m, es[0]);
    assert es == [es[0]] + es[1..];
  }

  lemma KeywordFirst<T>(r: Readers<T>, t: seq<Lexeme>, e: Edit<T>)
    requires EditText(r, t, e)
    ensures t != [] && t[0].Word?
  {
  }

  lemma BodyFront<T>(r: Readers<T>, ts: seq<Lexeme>, p: nat)
    requires p < |ts|
    ensures ts[p] == RBracket ==> Body(r, ts, p) == Some(([], p + 1))
    ensures ts[p] in [LineEnd, Semi, Comma] ==> Body(r, ts, p) == Body(r, ts, p + 1)
  {
  }

  lemma {:induction false} BodyWritten<T>(r: Readers<T>, ts: seq<Lexeme>, p: nat, q: nat, t: seq<Lexeme>,
      es: seq<Edit<T>>)
    requires p <= q <= |ts| && t == ts[p..q] && EditsText(r, t, es)
    ensures Body(r, ts, p) == Some((es, q))
    decreases q - p
  {
    hide Operation, Unfilled, EditText, EditsText, Body;
    assert t != [] ==> t[0] == ts[p];
    if es == [] && t == [RBracket] {
      BodyFront(r, ts, p);
    } else if t != [] && t[0] in [LineEnd, Semi, Comma] && EditsText(r, t[1..], es) {
      BodyFront(r, ts, p);
      assert t[1..] == ts[p + 1..q];
      BodyWritten(r, ts, p + 1, q, t[1..], es);
    } else {
      var k := FirstEdit(r, t, es);
      assert t[..k] == ts[p..p + k] && t[k..] == ts[p + k..q] && t[k] == ts[p + k];
      BodyWritten(r, ts, p + k, q, t[k..], es[1..]);
      EditWritten(r, ts, p, p + k, q, es);
    }
  }

  /** The text of edits that starts neither with the bracket nor with a separator. */
  lemma FirstEdit<T>(r: Readers<T>, t: seq<Lexeme>, es: seq<Edit<T>>) returns (k: nat)
    requires EditsText(r, t, es) && !(es == [] && t == [RBracket])
    requires !(t != [] && t[0] in [LineEnd, Semi, Comma] && EditsText(r, t[1..], es))
    ensures es != [] && 0 < k < |t| && EditText(r, t[..k], es[0]) && EditsText(r, t[k..], es[1..])
    ensures Unfilled(es[0]) ==> t[k] != Word("fill")
  {
    hide EditText, Unfilled;
    k :| 0 < k < |t| && EditText(r, t[..k], es[0]) && EditsText(r, t[k..], es[1..])
      && (Unfilled(es[0]) ==> t[k] != Word("fill"));
  }

  /** An edit value is read from p to q exactly when an opening bracket and the text of its edits
      stand there: both directions, every lexeme sequence and all readers. */
  lemma ReadsExactlyTexts<T>(r: Readers<T>, ts: seq<Lexeme>, p: nat, q: nat, es: seq<Edit<T>>)
    requires p <= q <= |ts|
    ensures EditValue(r, ts, p) == Some((es, q)) <==> p < q && ts[p] == LBracket && EditsText(r, ts[p + 1..q], es)
  {
    hide Body, EditsText;
    if p < |ts| && ts[p] == LBracket {
      if Body(r, ts, p + 1).Some? {
        BodyRead(r, ts, p + 1);
      }
      if p < q && EditsText(r, ts[p + 1..q], es) {
        BodyWritten(r, ts, p + 1, q, ts[p + 1..q], es);
      }
    }
  }
}
