/** The scanner of schema text (scripts/generate-openusd-schema-manifest.py): skipping strings
    and comments, splitting a body into statements, and matching brackets. */
module SchemaScanner {
  import opened Chars
  import opened Options
  import opened Texts

  // ----- tokens at the front of a text --------------------------------------------------------

  predicate Triple(t: string, q: char) { |t| >= 3 && t[0] == q && t[1] == q && t[2] == q }

  /** How much of `t` the content and the terminator of a string take. */
  function ContentLen(t: string, q: char, triple: bool): (n: Option<nat>)
    ensures n.Some? ==> 0 < n.value <= |t|
    decreases |t|
  {
    if t == "" then None
    else if triple && Triple(t, q) then Some(3)
    else if !triple && t[0] == q then Some(1)
    else
      var step := if !triple && t[0] == '\\' then 2 else 1;
      if step > |t| then None
      else match ContentLen(t[step..], q, triple) case Some(n) => Some(step + n) case None => None
  }

  function StringLen(t: string): (n: Option<nat>)
    requires t != "" && IsQuote(t[0])
    ensures n.Some? ==> 1 < n.value <= |t|
  {
    var triple := Triple(t, t[0]);
    var open := if triple then 3 else 1;
    match ContentLen(t[open..], t[0], triple) case Some(n) => Some(open + n) case None => None
  }

  /** Position of the first line feed, or the length. */
  function LineLen(t: string): (n: nat)
    ensures n <= |t| && (n < |t| ==> t[n] == '\n') && forall i :: 0 <= i < n ==> t[i] != '\n'
  {
    if t == "" || t[0] == '\n' then 0 else 1 + LineLen(t[1..])
  }

  /** A string, a comment without its line feed, or one character. */
  function TokenLen(t: string): (n: Option<nat>)
    requires t != ""
    ensures n.Some? ==> 0 < n.value <= |t|
  {
    if IsQuote(t[0]) then StringLen(t) else if t[0] == '#' then Some(LineLen(t)) else Some(1)
  }

  /** What is left of a string at `pos` decides where it ends, counted from `start`. */
  function EndFrom(text: string, start: nat, pos: nat, q: char, triple: bool): Option<nat>
    requires start <= pos
  {
    if pos > |text| then None
    else match ContentLen(text[pos..], q, triple) case Some(m) => Some(pos - start + m) case None => None
  }

  lemma EndFromStep(text: string, start: nat, pos: nat, q: char, triple: bool)
    requires start <= pos < |text|
    ensures EndFrom(text, start, pos, q, triple) ==
      if triple && TripleAt(text, pos, q) then Some(pos + 3 - start)
      else if !triple && text[pos] == q then Some(pos + 1 - start)
      else EndFrom(text, start, if !triple && text[pos] == '\\' then pos + 2 else pos + 1, q, triple)
  {
  }

  lemma StringLenIs(text: string, start: nat)
    requires start < |text| && IsQuote(text[start])
    ensures var q := text[start]; var triple := TripleAt(text, start, q);
      StringLen(text[start..]) == EndFrom(text, start, if triple then start + 3 else start + 1, q, triple)
  {
  }

  // ----- where a string ends -----------------------------------------------------------------------

  /** The content of a string in one pair of quotes: the quote only behind a backslash, and a
      backslash with the character behind it. */
  predicate Content(t: string, q: char) {
    t == "" || if t[0] == '\\' then |t| > 1 && Content(t[2..], q) else t[0] != q && Content(t[1..], q)
  }

  lemma {:induction false} SingleExactly(t: string, q: char, n: nat)
    requires IsQuote(q)
    ensures ContentLen(t, q, false) == Some(n) <==> 0 < n <= |t| && t[n - 1] == q && Content(t[..n - 1], q)
    decreases |t|
  {
    if t != "" && t[0] != q {
      var step := if t[0] == '\\' then 2 else 1;
      if step <= |t| && step < n <= |t| {
        SingleExactly(t[step..], q, n - step);
        assert t[..n - 1][step..] == t[step..][..n - step - 1];
      }
    }
  }

  /** No three quotes start before `k`. */
  ghost predicate NoTriple(t: string, q: char, k: int)
    requires k <= |t|
  {
    forall i :: 0 <= i < k ==> !Triple(t[i..], q)
  }

  lemma NoTripleStep(t: string, q: char, k: int)
    requires 0 < k <= |t|
    ensures NoTriple(t, q, k) <==> !Triple(t, q) && NoTriple(t[1..], q, k - 1)
  {
    assert t[0..] == t;
    if NoTriple(t, q, k) {
      forall i | 0 <= i < k - 1 ensures !Triple(t[1..][i..], q) {
        assert t[1..][i..] == t[i + 1..];
      }
    }
    if !Triple(t, q) && NoTriple(t[1..], q, k - 1) {
      forall i | 0 <= i < k ensures !Triple(t[i..], q) {
        assert i > 0 ==> t[1..][i - 1..] == t[i..];
      }
    }
  }

  lemma {:induction false} TripleExactly(t: string, q: char, n: nat)
    ensures ContentLen(t, q, true) == Some(n) <==> 3 <= n <= |t| && Triple(t[n - 3..], q) && NoTriple(t, q, n - 3)
    decreases |t|
  {
    hide NoTriple;
    if t != "" && n > 0 {
      TripleExactly(t[1..], q, n - 1);
      if 3 < n <= |t| {
        NoTripleStep(t, q, n - 3);
        assert t[1..][n - 4..] == t[n - 3..];
      } else if n == 3 <= |t| {
        NoneBefore(t, q);
        assert t[0..] == t;
      }
    }
  }

  lemma NoneBefore(t: string, q: char)
    ensures NoTriple(t, q, 0)
  {
  }

  /** The string that starts at `start` ends at `e`: at the first three quotes, without escapes,
      when it starts with three, and otherwise at the first quote that leaves a content. */
  ghost predicate StringTo(text: string, start: nat, e: nat)
    requires start < |text|
  {
    var q := text[start];
    if TripleAt(text, start, q) then
      && start + 6 <= e <= |text| && TripleAt(text, e - 3, q)
      && forall p :: start + 3 <= p < e - 3 ==> !TripleAt(text, p, q)
    else start + 2 <= e <= |text| && text[e - 1] == q && Content(text[start + 1..e - 1], q)
  }

  lemma TripleHere(text: string, p: nat, q: char)
    requires p <= |text|
    ensures Triple(text[p..], q) <==> TripleAt(text, p, q)
  {
  }

  lemma NoTripleAt(text: string, a: nat, k: int, q: char)
    requires a <= |text| && k <= |text| - a
    ensures NoTriple(text[a..], q, k) <==> forall p :: a <= p < a + k ==> !TripleAt(text, p, q)
  {
    hide Triple, TripleAt;
    var u := text[a..];
    forall i | 0 <= i < k ensures Triple(u[i..], q) <==> TripleAt(text, a + i, q) {
      assert u[i..] == text[a + i..];
      TripleHere(text, a + i, q);
    }
    if NoTriple(u, q, k) {
      forall p | a <= p < a + k ensures !TripleAt(text, p, q) {
        assert !Triple(u[p - a..], q);
      }
    }
  }

  lemma TripleStringExactly(text: string, start: nat, e: nat)
    requires start < |text| && IsQuote(text[start]) && TripleAt(text, start, text[start])
    ensures start <= e && StringLen(text[start..]) == Some(e - start) <==> StringTo(text, start, e)
  {
    var q, u := text[start], text[start + 3..];
    assert text[start..][3..] == u;
    TripleHere(text, start, q);
    hide ContentLen, Triple, Content, TripleAt, NoTriple;
    if start + 3 <= e {
      TripleExactly(u, q, e - start - 3);
    }
    if start + 6 <= e <= |text| {
      assert u[e - start - 6..] == text[e - 3..];
      TripleHere(text, e - 3, q);
      NoTripleAt(text, start + 3, e - start - 6, q);
    }
  }

  lemma SingleStringExactly(text: string, start: nat, e: nat)
    requires start < |text| && IsQuote(text[start]) && !TripleAt(text, start, text[start])
    ensures start <= e && StringLen(text[start..]) == Some(e - start) <==> StringTo(text, start, e)
  {
    hide ContentLen, Triple, Content, TripleAt;
    var q, u := text[start], text[start + 1..];
    assert text[start..][1..] == u;
    TripleHere(text, start, q);
    if start + 1 <= e {
      SingleExactly(u, q, e - start - 1);
    }
    if start + 2 <= e <= |text| {
      assert u[..e - start - 2] == text[start + 1..e - 1];
    }
  }

  lemma StringExactly(text: string, start: nat, e: nat)
    requires start < |text| && IsQuote(text[start])
    ensures start <= e && StringLen(text[start..]) == Some(e - start) <==> StringTo(text, start, e)
  {
    hide StringTo, StringLen;
    if TripleAt(text, start, text[start]) {
      TripleStringExactly(text, start, e);
    } else {
      SingleStringExactly(text, start, e);
    }
  }

  /** _skip_string */
  method SkipString(text: string, start: nat) returns (ok: bool, pos: nat)
    requires start < |text| && IsQuote(text[start])
    ensures ok == StringLen(text[start..]).Some?
    ensures ok ==> pos == start + StringLen(text[start..]).value && StringTo(text, start, pos)
    ensures !ok ==> forall e: nat :: !StringTo(text, start, e)
  {
    StringLenIs(text, start);
    hide EndFrom, StringLen, StringTo;
    var q := text[start];
    var triple := TripleAt(text, start, q);
    var n := if triple then 3 else 1;
    pos := start + n;
    while pos < |text|
      invariant start + n <= pos
      invariant StringLen(text[start..]) == EndFrom(text, start, pos, q, triple)
      decreases |text| - pos
    {
      EndFromStep(text, start, pos, q, triple);
      if if triple then TripleAt(text, pos, q) else text[pos] == q {
        pos := pos + n;
        StringExactly(text, start, pos);
        return true, pos;
      }
      if !triple && text[pos] == '\\' {
        pos := pos + 2;
      } else {
        pos := pos + 1;
      }
    }
    EndFromNothing(text, start, pos, q, triple);
    forall e: nat ensures !StringTo(text, start, e) {
      StringExactly(text, start, e);
    }
    ok := false;
  }

  lemma EndFromNothing(text: string, start: nat, pos: nat, q: char, triple: bool)
    requires start <= pos && pos >= |text|
    ensures EndFrom(text, start, pos, q, triple) == None
  {
  }

  // ----- statements ------------------------------------------------------------------------------

  /** Open brackets of the three kinds; the counts may go below zero. */
  datatype Depths = Depths(paren: int, bracket: int, brace: int)

  const ZERO := Depths(0, 0, 0)

  function Bump(d: Depths, c: char): Depths {
    if c == '(' then d.(paren := d.paren + 1) else if c == ')' then d.(paren := d.paren - 1)
    else if c == '[' then d.(bracket := d.bracket + 1) else if c == ']' then d.(bracket := d.bracket - 1)
    else if c == '{' then d.(brace := d.brace + 1) else if c == '}' then d.(brace := d.brace - 1)
    else d
  }

  /** The pieces of `t` between the line feeds outside strings, comments and brackets, and
      whether all strings end; `cur` is the part of the first piece before `t`.  The last piece
      holds the string that does not end. */
  function Split(t: string, d: Depths, cur: string): (r: (seq<string>, bool))
    ensures r.0 != []
    decreases |t|
  {
    if t == "" then ([cur], true)
    else if t[0] == '\n' && d == ZERO then
      var rest := Split(t[1..], ZERO, "");
      ([cur] + rest.0, rest.1)
    else
      match TokenLen(t)
      case None => ([cur + t], false)
      case Some(n) => Split(t[n..], Bump(d, t[0]), cur + t[..n])
  }

  /** The depths behind a text that has no line feed to cut at. */
  function EndDepths(t: string, d: Depths): Option<Depths>
    decreases |t|
  {
    if t == "" then Some(d)
    else if t[0] == '\n' && d == ZERO then None
    else match TokenLen(t) case None => None case Some(n) => EndDepths(t[n..], Bump(d, t[0]))
  }

  /** A whole statement: its strings end, its brackets balance, it holds no line feed to cut at. */
  predicate IsStatement(t: string) { EndDepths(t, ZERO) == Some(ZERO) }

  /** No line feed to cut at comes before a string that does not end. */
  predicate Breaks(t: string, d: Depths)
    decreases |t|
  {
    t != "" && !(t[0] == '\n' && d == ZERO) &&
    match TokenLen(t) case None => true case Some(n) => Breaks(t[n..], Bump(d, t[0]))
  }

  /** The last piece need not balance, and may break. */
  predicate IsLast(t: string, d: Depths, ended: bool) {
    if ended then EndDepths(t, d).Some? else Breaks(t, d)
  }

  function Join(pieces: seq<string>): string
    requires pieces != []
  {
    if |pieces| == 1 then pieces[0] else pieces[0] + "\n" + Join(pieces[1..])
  }

  predicate AreStatements(pieces: seq<string>, ended: bool) {
    && pieces != [] && IsLast(pieces[|pieces| - 1], ZERO, ended)
    && forall i :: 0 <= i < |pieces| - 1 ==> IsStatement(pieces[i])
  }

  // ----- tokens do not depend on what follows a line feed -------------------------------------------

  /** A string that closes inside `t` closes there in any longer text, and back. */
  lemma {:induction false} ContentLocal(t: string, rest: string, q: char, triple: bool)
    requires IsQuote(q) && (rest == "" || !IsQuote(rest[0]))
    ensures ContentLen(t, q, triple).Some? ==> ContentLen(t + rest, q, triple) == ContentLen(t, q, triple)
    decreases |t|
  {
    var u := t + rest;
    if t != "" {
      var step := if !triple && t[0] == '\\' then 2 else 1;
      if step <= |t| {
        assert u[step..] == t[step..] + rest;
        ContentLocal(t[step..], rest, q, triple);
      }
    }
  }

  lemma {:induction false} ContentInside(t: string, rest: string, q: char, triple: bool)
    requires ContentLen(t + rest, q, triple).Some? && ContentLen(t + rest, q, triple).value <= |t|
    ensures ContentLen(t, q, triple) == ContentLen(t + rest, q, triple)
    decreases |t|
  {
    var u := t + rest;
    if t != "" && !(if triple then Triple(u, q) else t[0] == q) {
      var step := if !triple && t[0] == '\\' then 2 else 1;
      assert u[step..] == t[step..] + rest;
      ContentInside(t[step..], rest, q, triple);
    }
  }

  lemma StringLocal(t: string, rest: string)
    requires t != "" && IsQuote(t[0]) && (rest == "" || !IsQuote(rest[0])) && StringLen(t).Some?
    ensures StringLen(t + rest) == StringLen(t)
  {
    var open := if Triple(t, t[0]) then 3 else 1;
    assert (t + rest)[open..] == t[open..] + rest;
    ContentLocal(t[open..], rest, t[0], open == 3);
  }

  lemma TokenLocal(t: string, rest: string)
    requires t != "" && (rest == "" || rest[0] == '\n') && TokenLen(t).Some?
    ensures TokenLen(t + rest) == TokenLen(t)
  {
    if IsQuote(t[0]) {
      StringLocal(t, rest);
    } else if t[0] == '#' {
      LineLenIs(t + rest, LineLen(t));
    }
  }

  lemma {:induction false} LineLenIs(t: string, n: nat)
    requires n <= |t| && (n < |t| ==> t[n] == '\n') && forall i :: 0 <= i < n ==> t[i] != '\n'
    ensures LineLen(t) == n
  {
  }

  lemma TokenInside(t: string, rest: string)
    requires t != "" && TokenLen(t + rest).Some? && TokenLen(t + rest).value <= |t|
    ensures TokenLen(t) == TokenLen(t + rest)
  {
    var u := t + rest;
    if IsQuote(t[0]) {
      var open := if Triple(u, t[0]) then 3 else 1;
      assert u[open..] == t[open..] + rest;
      ContentInside(t[open..], rest, t[0], open == 3);
    } else if t[0] == '#' {
      forall i | 0 <= i < LineLen(u) ensures t[i] != '\n' {
        assert u[i] == t[i];
      }
      LineLenIs(t, LineLen(u));
    }
  }

  // ----- splitting is exact -------------------------------------------------------------------------

  /** A statement in front of a line feed becomes the first piece. */
  lemma {:induction false} SplitStatement(h: string, d: Depths, cur: string, rest: string)
    requires EndDepths(h, d) == Some(ZERO)
    ensures var r := Split(rest, ZERO, ""); Split(h + "\n" + rest, d, cur) == ([cur + h] + r.0, r.1)
    decreases |h|
  {
    hide TokenLen, Bump;
    var t := h + "\n" + rest;
    if h == "" {
      assert t[1..] == rest && cur + h == cur;
    } else {
      var n := TokenLen(h).value;
      assert t == h + ("\n" + rest);
      TokenLocal(h, "\n" + rest);
      assert t[n..] == h[n..] + "\n" + rest && t[..n] == h[..n];
      SplitStatement(h[n..], Bump(d, h[0]), cur + h[..n], rest);
      assert (cur + h[..n]) + h[n..] == cur + h;
    }
  }

  lemma {:induction false} SplitLast(h: string, d: Depths, cur: string, ended: bool)
    requires IsLast(h, d, ended)
    ensures Split(h, d, cur) == ([cur + h], ended)
    decreases |h|
  {
    hide TokenLen, Bump;
    if h == "" {
      assert cur + h == cur;
    } else if TokenLen(h).Some? {
      var n := TokenLen(h).value;
      SplitLast(h[n..], Bump(d, h[0]), cur + h[..n], ended);
      assert (cur + h[..n]) + h[n..] == cur + h;
    }
  }

  lemma {:induction false} SplitOfJoin(pieces: seq<string>, ended: bool)
    requires AreStatements(pieces, ended)
    ensures Split(Join(pieces), ZERO, "") == (pieces, ended)
    decreases |pieces|
  {
    hide EndDepths, Breaks, Split;
    assert "" + pieces[0] == pieces[0];
    if |pieces| == 1 {
      SplitLast(pieces[0], ZERO, "", ended);
      assert pieces == [pieces[0]];
    } else {
      SplitStatement(pieces[0], ZERO, "", Join(pieces[1..]));
      SplitOfJoin(pieces[1..], ended);
      assert [pieces[0]] + pieces[1..] == pieces;
    }
  }

  lemma SplitStep(t: string, d: Depths, cur: string)
    requires t != "" && !(t[0] == '\n' && d == ZERO)
    ensures Split(t, d, cur) ==
      match TokenLen(t) case None => ([cur + t], false) case Some(n) => Split(t[n..], Bump(d, t[0]), cur + t[..n])
  {
  }

  /** `h` is the first of the pieces `ts`, without `cur`, and the others come from what is
      behind its line feed in `t`. */
  ghost predicate PieceOf(ts: seq<string>, ended: bool, t: string, d: Depths, cur: string, h: string) {
    && ts != [] && ts[0] == cur + h && h <= t
    && if |ts| == 1 then t == h && IsLast(h, d, ended)
       else && |h| < |t| && t[|h|] == '\n' && EndDepths(h, d) == Some(ZERO)
            && Split(t[|h| + 1..], ZERO, "") == (ts[1..], ended)
  }

  ghost predicate FirstPiece(t: string, d: Depths, cur: string, h: string) {
    var r := Split(t, d, cur);
    PieceOf(r.0, r.1, t, d, cur, h)
  }

  lemma FirstPieceEmpty(t: string, d: Depths, cur: string)
    requires t == "" || (t[0] == '\n' && d == ZERO)
    ensures FirstPiece(t, d, cur, "")
  {
  }

  lemma FirstPieceBroken(t: string, d: Depths, cur: string)
    requires t != "" && !(t[0] == '\n' && d == ZERO) && TokenLen(t).None?
    ensures FirstPiece(t, d, cur, t)
  {
  }

  lemma Glue(t: string, n: nat, h: string)
    requires n <= |t| && h <= t[n..]
    ensures var k := t[..n] + h; var u := t[n..];
      && k <= t && t == k + t[|k|..] && k[n..] == h && (h == u ==> k == t) && (|h| < |u| <==> |k| < |t|)
      && (|h| < |u| ==> u[|h|] == t[|k|] && u[|h| + 1..] == t[|k| + 1..])
  {
  }

  lemma FirstPieceToken(t: string, d: Depths, cur: string, n: nat, h: string)
    requires t != "" && !(t[0] == '\n' && d == ZERO) && TokenLen(t) == Some(n)
    requires FirstPiece(t[n..], Bump(d, t[0]), cur + t[..n], h)
    ensures FirstPiece(t, d, cur, t[..n] + h)
  {
    SplitStep(t, d, cur);
    hide TokenLen, Bump, Split, PieceOf;
    PieceOfToken(Split(t, d, cur).0, Split(t, d, cur).1, t, d, cur, n, h);
  }

  lemma PieceOfToken(ts: seq<string>, ended: bool, t: string, d: Depths, cur: string, n: nat, h: string)
    requires t != "" && !(t[0] == '\n' && d == ZERO) && TokenLen(t) == Some(n)
    requires PieceOf(ts, ended, t[n..], Bump(d, t[0]), cur + t[..n], h)
    ensures PieceOf(ts, ended, t, d, cur, t[..n] + h)
  {
    hide TokenLen, Bump, Split, EndDepths, Breaks;
    Glue(t, n, h);
    Associate(cur, t[..n], h);
    PieceEnds(t, d, n, t[..n] + h);
  }

  lemma PieceEnds(t: string, d: Depths, n: nat, k: string)
    requires t != "" && !(t[0] == '\n' && d == ZERO) && TokenLen(t) == Some(n) && k <= t && n <= |k|
    ensures EndDepths(k, d) == EndDepths(k[n..], Bump(d, t[0])) && Breaks(k, d) == Breaks(k[n..], Bump(d, t[0]))
  {
    hide TokenLen, Bump;
    assert t == k + t[|k|..] && k[0] == t[0];
    TokenInside(k, t[|k|..]);
  }

  lemma {:induction false} SplitFirst(t: string, d: Depths, cur: string) returns (h: string)
    ensures FirstPiece(t, d, cur, h)
    decreases |t|
  {
    hide TokenLen, Bump, Split, FirstPiece;
    if t == "" || (t[0] == '\n' && d == ZERO) {
      h := "";
      FirstPieceEmpty(t, d, cur);
    } else if TokenLen(t).None? {
      h := t;
      FirstPieceBroken(t, d, cur);
    } else {
      SplitStep(t, d, cur);
      var n := TokenLen(t).value;
      var h' := SplitFirst(t[n..], Bump(d, t[0]), cur + t[..n]);
      h := t[..n] + h';
      FirstPieceToken(t, d, cur, n, h');
    }
  }

  lemma {:induction false} JoinOfSplit(t: string)
    ensures var (ts, ended) := Split(t, ZERO, ""); AreStatements(ts, ended) && Join(ts) == t
    decreases |t|
  {
    hide EndDepths, Breaks, Split;
    var ts := Split(t, ZERO, "").0;
    var h := SplitFirst(t, ZERO, "");
    assert "" + h == h;
    if |ts| > 1 {
      JoinOfSplit(t[|h| + 1..]);
      assert t == t[..|h|] + [t[|h|]] + t[|h| + 1..];
    }
  }

  /** The split of a body is the one way to write it as statements joined by line feeds, the last
      of which breaks when a string does not end. */
  lemma SplitsExactly(body: string, pieces: seq<string>, ended: bool)
    ensures Split(body, ZERO, "") == (pieces, ended) <==> AreStatements(pieces, ended) && Join(pieces) == body
  {
    hide Split;
    if Split(body, ZERO, "") == (pieces, ended) {
      JoinOfSplit(body);
    }
    if pieces != [] && AreStatements(pieces, ended) && Join(pieces) == body {
      SplitOfJoin(pieces, ended);
    }
  }

  // ----- the generator -------------------------------------------------------------------------------

  /** What strip() takes for a blank. */
  predicate IsBlank(c: char) {
    || '\t' <= c <= '\r' || '\U{001C}' <= c <= ' ' || c == '\U{0085}' || c == '\U{00A0}' || c == '\U{1680}'
    || '\U{2000}' <= c <= '\U{200A}' || c == '\U{2028}' || c == '\U{2029}' || c == '\U{202F}' || c == '\U{205F}'
    || c == '\U{3000}'
  }

  function StripLeft(t: string): string {
    if t != "" && IsBlank(t[0]) then StripLeft(t[1..]) else t
  }

  function StripRight(t: string): string {
    if t != "" && IsBlank(t[|t| - 1]) then StripRight(t[..|t| - 1]) else t
  }

  function Strip(t: string): string { StripRight(StripLeft(t)) }

  /** Blank pieces are dropped, the others stripped. */
  function Stripped(pieces: seq<string>): seq<string> {
    if pieces == [] then []
    else (if Strip(pieces[0]) == "" then [] else [Strip(pieces[0])]) + Stripped(pieces[1..])
  }

  lemma {:induction false} StrippedAppend(a: seq<string>, b: seq<string>)
    ensures Stripped(a + b) == Stripped(a) + Stripped(b)
  {
    if a == [] {
      assert a + b == b;
    } else {
      assert (a + b)[1..] == a[1..] + b;
      StrippedAppend(a[1..], b);
    }
  }

  /** The loop has cut off `done` and goes on at `pos` of the piece that starts at `start`. */
  ghost predicate Resumes(body: string, done: seq<string>, start: nat, pos: nat, d: Depths)
    requires start <= pos <= |body|
  {
    var r := Split(body[pos..], d, body[start..pos]);
    Split(body, ZERO, "") == (done + r.0, r.1)
  }

  lemma ResumeStart(body: string)
    ensures Resumes(body, [], 0, 0, ZERO)
  {
    assert body[0..] == body && body[0..0] == "";
    assert [] + Split(body, ZERO, "").0 == Split(body, ZERO, "").0;
  }

  lemma ResumeCut(body: string, done: seq<string>, start: nat, pos: nat)
    requires start <= pos < |body| && body[pos] == '\n' && Resumes(body, done, start, pos, ZERO)
    ensures Resumes(body, done + [body[start..pos]], pos + 1, pos + 1, ZERO)
  {
    var t := body[pos..];
    assert t[1..] == body[pos + 1..] && body[pos + 1..pos + 1] == "";
    var r := Split(t[1..], ZERO, "").0;
    assert done + ([body[start..pos]] + r) == (done + [body[start..pos]]) + r;
  }

  lemma ResumeToken(body: string, done: seq<string>, start: nat, pos: nat, d: Depths)
    requires start <= pos < |body| && !(body[pos] == '\n' && d == ZERO) && Resumes(body, done, start, pos, d)
    ensures match TokenLen(body[pos..])
      case Some(n) => Resumes(body, done, start, pos + n, Bump(d, body[pos]))
      case None => Split(body, ZERO, "") == (done + [body[start..]], false)
  {
    hide TokenLen, Bump, Split;
    var t := body[pos..];
    SplitStep(t, d, body[start..pos]);
    if TokenLen(t).Some? {
      var n := TokenLen(t).value;
      assert t[n..] == body[pos + n..];
      assert body[start..pos] + t[..n] == body[start..pos + n];
    } else {
      assert body[start..pos] + t == body[start..];
    }
  }

  /** _statements: it yields the statements of the body, stripped, without the blank ones; it fails
      exactly when a string does not end, after those before the statement with that string. */
  method Statements(body: string) returns (ok: bool, yielded: seq<string>)
    ensures ok == Split(body, ZERO, "").1
    ensures var pieces := Split(body, ZERO, "").0; yielded == Stripped(if ok then pieces else pieces[..|pieces| - 1])
  {
    hide Split, Strip, TokenLen, StringLen, Resumes, StringTo;
    yielded := [];
    var start, pos := 0, 0;
    var paren, bracket, brace := 0, 0, 0;
    ghost var done: seq<string> := [];
    ResumeStart(body);
    while pos < |body|
      invariant start <= pos <= |body| && yielded == Stripped(done)
      invariant Resumes(body, done, start, pos, Depths(paren, bracket, brace))
    {
      var c := body[pos];
      TokenAt(body, pos);
      if c == '\n' && paren == bracket == brace == 0 {
        ResumeCut(body, done, start, pos);
        var statement := Strip(body[start..pos]);
        StrippedAppend(done, [body[start..pos]]);
        StrippedOne(body[start..pos]);
        if statement != "" {
          yielded := yielded + [statement];
        }
        done := done + [body[start..pos]];
        start := pos + 1;
        pos := pos + 1;
        continue;
      }
      ResumeToken(body, done, start, pos, Depths(paren, bracket, brace));
      if IsQuote(c) {
        ok, pos := SkipString(body, pos);
        if !ok {
          assert (done + [body[start..]])[..|done|] == done;
          return;
        }
        continue;
      }
      if c == '#' {
        pos := pos + LineLen(body[pos..]);
        continue;
      }
      if c == '(' {
        paren := paren + 1;
      } else if c == ')' {
        paren := paren - 1;
      } else if c == '[' {
        bracket := bracket + 1;
      } else if c == ']' {
        bracket := bracket - 1;
      } else if c == '{' {
        brace := brace + 1;
      } else if c == '}' {
        brace := brace - 1;
      }
      pos := pos + 1;
    }
    ResumeEnd(body, done, start, Depths(paren, bracket, brace));
    StrippedAppend(done, [body[start..]]);
    StrippedOne(body[start..]);
    var statement := Strip(body[start..]);
    if statement != "" {
      yielded := yielded + [statement];
    }
    ok := true;
  }

  lemma TokenAt(body: string, pos: nat)
    requires pos < |body|
    ensures var t := body[pos..];
      TokenLen(t) == if IsQuote(body[pos]) then StringLen(t) else if body[pos] == '#' then Some(LineLen(t)) else Some(1)
  {
  }

  lemma StrippedOne(t: string)
    ensures Stripped([t]) == if Strip(t) == "" then [] else [Strip(t)]
  {
  }

  lemma ResumeEnd(body: string, done: seq<string>, start: nat, d: Depths)
    requires start <= |body| && Resumes(body, done, start, |body|, d)
    ensures Split(body, ZERO, "") == (done + [body[start..]], true)
  {
    assert body[|body|..] == "" && body[start..|body|] == body[start..];
  }
}
