/** What the schema scanner counts, written out: a text without its strings and comments, and the
    brackets in it (scripts/generate-openusd-schema-manifest.py). */
module SchemaLaws {
  import opened Chars
  import opened Options
  import opened SchemaScanner
  import opened SchemaMatching

  // ----- strings and comments taken out -------------------------------------------------------------

  /** The comment at the front of `t` ends at `e`: before its line feed, or with the text. */
  ghost predicate CommentTo(t: string, e: nat) {
    0 < e <= |t| && '\n' !in t[..e] && (e < |t| ==> t[e] == '\n')
  }

  /** The first `n` characters of `t` are whole strings, whole comments and other characters, which
      in their order are `u`. */
  ghost predicate Bares(t: string, n: nat, u: string)
    requires n <= |t|
    decreases n
  {
    if n == 0 then u == ""
    else if t[0] == '"' || t[0] == '\'' then exists e: nat :: 0 < e <= n && StringTo(t, 0, e) && Bares(t[e..], n - e, u)
    else if t[0] == '#' then exists e: nat :: 0 < e <= n && CommentTo(t, e) && Bares(t[e..], n - e, u)
    else u != "" && u[0] == t[0] && Bares(t[1..], n - 1, u[1..])
  }

  /** What stands at the front, and where it ends. */
  lemma TokenExactly(t: string, n: nat)
    requires t != ""
    ensures TokenLen(t) == Some(n) <==>
      if t[0] == '"' || t[0] == '\'' then StringTo(t, 0, n) else if t[0] == '#' then CommentTo(t, n) else n == 1
  {
    hide StringLen, StringTo;
    if IsQuote(t[0]) {
      assert t[0..] == t;
      StringExactly(t, 0, n);
    } else if t[0] == '#' && CommentTo(t, n) {
      forall i | 0 <= i < n ensures t[i] != '\n' {
        assert t[i] == t[..n][i];
      }
      LineLenIs(t, n);
    }
  }

  /** A string starts at `n` and does not end. */
  ghost predicate OpenAt(t: string, n: nat) {
    n < |t| && (t[n] == '"' || t[n] == '\'') && forall e: nat :: !StringTo(t[n..], 0, e)
  }

  lemma NoToken(t: string)
    requires t != "" && TokenLen(t).None?
    ensures OpenAt(t, 0)
  {
    hide StringTo, StringLen;
    assert t[0..] == t;
    forall e: nat ensures !StringTo(t, 0, e) {
      TokenExactly(t, e);
    }
  }

  lemma OpenIsNoToken(t: string)
    requires OpenAt(t, 0)
    ensures TokenLen(t).None?
  {
    hide StringTo, StringLen;
    assert t[0..] == t;
    if TokenLen(t).Some? {
      TokenExactly(t, TokenLen(t).value);
    }
  }

  // ----- brackets, counted ----------------------------------------------------------------------------

  function Count(u: string, c: char): nat { multiset(u)[c] }

  /** Of each of the three kinds as many brackets open as close. */
  ghost predicate Balanced(u: string) {
    Count(u, '(') == Count(u, ')') && Count(u, '[') == Count(u, ']') && Count(u, '{') == Count(u, '}')
  }

  /** In front of no line feed the brackets balance. */
  ghost predicate Uncut(u: string) {
    forall i :: 0 <= i < |u| && u[i] == '\n' ==> !Balanced(u[..i])
  }

  ghost function CountedFrom(d: Depths, u: string): Depths {
    Depths(d.paren + Count(u, '(') - Count(u, ')'), d.bracket + Count(u, '[') - Count(u, ']'),
           d.brace + Count(u, '{') - Count(u, '}'))
  }

  ghost predicate UncutFrom(d: Depths, u: string) {
    forall i :: 0 <= i < |u| && u[i] == '\n' ==> CountedFrom(d, u[..i]) != ZERO
  }

  lemma CountFirst(u: string, c: char)
    requires u != ""
    ensures Count(u, c) == Count(u[1..], c) + if u[0] == c then 1 else 0
  {
    assert u == [u[0]] + u[1..];
  }

  lemma CountedFirst(d: Depths, u: string)
    requires u != ""
    ensures CountedFrom(Bump(d, u[0]), u[1..]) == CountedFrom(d, u)
  {
    CountFirst(u, '(');
    CountFirst(u, ')');
    CountFirst(u, '[');
    CountFirst(u, ']');
    CountFirst(u, '{');
    CountFirst(u, '}');
  }

  lemma CountedAt(d: Depths, u: string, i: nat)
    requires 0 < i <= |u|
    ensures CountedFrom(Bump(d, u[0]), u[1..][..i - 1]) == CountedFrom(d, u[..i])
  {
    hide CountedFrom, Bump;
    assert u[..i][1..] == u[1..][..i - 1] && u[..i][0] == u[0];
    CountedFirst(d, u[..i]);
  }

  lemma NothingCounted(d: Depths)
    ensures CountedFrom(d, "") == d
  {
  }

  lemma UncutFirst(d: Depths, u: string)
    requires u != ""
    ensures UncutFrom(d, u) <==> !(u[0] == '\n' && d == ZERO) && UncutFrom(Bump(d, u[0]), u[1..])
  {
    hide CountedFrom, Bump;
    NothingCounted(d);
    assert u[..0] == "";
    if UncutFrom(d, u) {
      forall j | 0 <= j < |u[1..]| && u[1..][j] == '\n' ensures CountedFrom(Bump(d, u[0]), u[1..][..j]) != ZERO {
        assert u[j + 1] == '\n';
        CountedAt(d, u, j + 1);
      }
    }
    if !(u[0] == '\n' && d == ZERO) && UncutFrom(Bump(d, u[0]), u[1..]) {
      forall i | 0 <= i < |u| && u[i] == '\n' ensures CountedFrom(d, u[..i]) != ZERO {
        if i > 0 {
          assert u[1..][i - 1] == '\n';
          CountedAt(d, u, i);
        }
      }
    }
  }

  // ----- pieces -----------------------------------------------------------------------------------------

  predicate Marks(c: char) { c == '"' || c == '\'' || c == '#' }

  /** One token off the front. */
  lemma BareStep(t: string, n: nat, u: string) returns (e: nat, v: string)
    requires 0 < n <= |t| && Bares(t, n, u)
    ensures 0 < e <= n && TokenLen(t) == Some(e) && Bares(t[e..], n - e, v)
    ensures if Marks(t[0]) then v == u else e == 1 && u == [t[0]] + v
  {
    hide StringTo, StringLen, CommentTo, TokenLen;
    if t[0] == '"' || t[0] == '\'' {
      e :| 0 < e <= n && StringTo(t, 0, e) && Bares(t[e..], n - e, u);
      v := u;
    } else if t[0] == '#' {
      e :| 0 < e <= n && CommentTo(t, e) && Bares(t[e..], n - e, u);
      v := u;
    } else {
      e, v := 1, u[1..];
      assert u == [t[0]] + v;
    }
    TokenExactly(t, e);
  }

  lemma EndStep(t: string, d: Depths, e: nat)
    requires t != "" && TokenLen(t) == Some(e)
    ensures EndDepths(t, d) == if t[0] == '\n' && d == ZERO then None else EndDepths(t[e..], Bump(d, t[0]))
    ensures Breaks(t, d) <==> !(t[0] == '\n' && d == ZERO) && Breaks(t[e..], Bump(d, t[0]))
  {
    hide TokenLen, Bump;
  }

  lemma MarksBumpNothing(d: Depths, c: char)
    requires Marks(c)
    ensures Bump(d, c) == d && c != '\n'
  {
  }

  lemma EndNothing(t: string, d: Depths)
    requires t == "" || OpenAt(t, 0)
    ensures EndDepths(t, d) == if t == "" then Some(d) else None
    ensures Breaks(t, d) <==> t != ""
  {
    if t != "" {
      OpenIsNoToken(t);
    }
  }

  lemma OpenBehind(t: string, e: nat, n: nat)
    requires e <= n <= |t|
    ensures OpenAt(t[e..], n - e) <==> OpenAt(t, n)
  {
    hide StringTo;
    assert n < |t| ==> t[e..][n - e] == t[n] && t[e..][n - e..] == t[n..];
  }

  lemma {:induction false} BareEnds(t: string, n: nat, u: string, d: Depths)
    requires n <= |t| && Bares(t, n, u) && (n == |t| || OpenAt(t, n))
    ensures EndDepths(t, d) == if n == |t| && UncutFrom(d, u) then Some(CountedFrom(d, u)) else None
    ensures Breaks(t, d) <==> n < |t| && UncutFrom(d, u)
    decreases n
  {
    if n == 0 {
      assert UncutFrom(d, u);
      hide Bares, CountedFrom;
      NothingCounted(d);
      EndNothing(t, d);
    } else {
      hide Bares, TokenLen, EndDepths, Breaks, Bump, CountedFrom, UncutFrom, OpenAt, Marks;
      var e, v := BareStep(t, n, u);
      OpenBehind(t, e, n);
      EndStep(t, d, e);
      BareEnds(t[e..], n - e, v, Bump(d, t[0]));
      if Marks(t[0]) {
        MarksBumpNothing(d, t[0]);
      } else {
        assert u[1..] == v;
        UncutFirst(d, u);
        CountedFirst(d, u);
      }
    }
  }

  /** Every text can be taken apart, up to its end or to the string that does not end. */
  lemma {:induction false} BareOf(t: string) returns (n: nat, u: string)
    ensures n <= |t| && Bares(t, n, u) && (n == |t| || OpenAt(t, n))
    decreases |t|
  {
    hide StringTo, StringLen, CommentTo, TokenLen, OpenAt;
    n, u := 0, "";
    if t != "" {
      if TokenLen(t).None? {
        NoToken(t);
      } else {
        var e := TokenLen(t).value;
        TokenExactly(t, e);
        n, u := BareOf(t[e..]);
        OpenBehind(t, e, n + e);
        if !Marks(t[0]) {
          u := [t[0]] + u;
        }
        n := n + e;
      }
    }
  }

  lemma UncutIsUncut(u: string)
    ensures UncutFrom(ZERO, u) <==> Uncut(u)
    ensures CountedFrom(ZERO, u) == ZERO <==> Balanced(u)
  {
    forall i | 0 <= i <= |u| ensures CountedFrom(ZERO, u[..i]) == ZERO <==> Balanced(u[..i]) {
    }
  }

  /** What a piece of a body is, counted: `u` is the piece without its strings and comments, up to
      `n`, where it ends or a string starts that does not.  A complete statement ends, balances and
      has no line feed in front of which it balances; the last one need not balance, and breaks
      exactly when it does not end. */
  lemma PieceExactly(t: string) returns (n: nat, u: string)
    ensures n <= |t| && Bares(t, n, u) && (n == |t| || OpenAt(t, n))
    ensures IsStatement(t) <==> n == |t| && Uncut(u) && Balanced(u)
    ensures IsLast(t, ZERO, true) <==> n == |t| && Uncut(u)
    ensures IsLast(t, ZERO, false) <==> n < |t| && Uncut(u)
  {
    hide EndDepths, Breaks, Bares, OpenAt, UncutFrom, CountedFrom, Uncut, Balanced;
    n, u := BareOf(t);
    BareEnds(t, n, u, ZERO);
    UncutIsUncut(u);
  }

  // ----- the matching bracket --------------------------------------------------------------------------

  /** Behind `u`, with `depth` blocks open before it, one is left, and never fewer before. */
  ghost predicate Keeps(u: string, depth: int, opening: char, closing: char) {
    && depth + Count(u, opening) - Count(u, closing) == 1
    && forall i :: 0 <= i <= |u| ==> depth + Count(u[..i], opening) - Count(u[..i], closing) >= 1
  }

  lemma KeepsFirst(u: string, depth: int, opening: char, closing: char)
    requires u != "" && depth >= 1
    ensures var after := depth + (if u[0] == opening then 1 else 0) - if u[0] == closing then 1 else 0;
      Keeps(u, depth, opening, closing) <==> Keeps(u[1..], after, opening, closing)
  {
    assert Count(u[..0], opening) == 0 && Count(u[..0], closing) == 0;
    hide Count;
    var after := depth + (if u[0] == opening then 1 else 0) - if u[0] == closing then 1 else 0;
    forall i | 0 < i <= |u|
      ensures depth + Count(u[..i], opening) - Count(u[..i], closing)
           == after + Count(u[1..][..i - 1], opening) - Count(u[1..][..i - 1], closing)
    {
      assert u[..i][1..] == u[1..][..i - 1];
      CountFirst(u[..i], opening);
      CountFirst(u[..i], closing);
    }
    CountFirst(u, opening);
    CountFirst(u, closing);
    if Keeps(u[1..], after, opening, closing) {
      forall i | 0 <= i <= |u| ensures depth + Count(u[..i], opening) - Count(u[..i], closing) >= 1 {
        if i > 0 {
          assert after + Count(u[1..][..i - 1], opening) - Count(u[1..][..i - 1], closing) >= 1;
        }
      }
    }
    if Keeps(u, depth, opening, closing) {
      forall j | 0 <= j <= |u[1..]|
        ensures after + Count(u[1..][..j], opening) - Count(u[1..][..j], closing) >= 1
      {
        assert depth + Count(u[..j + 1], opening) - Count(u[..j + 1], closing) >= 1;
      }
    }
  }

  lemma MatchFront(t: string, depth: nat, opening: char, closing: char)
    requires t != "" && depth > 0
    ensures MatchLen(t, depth, opening, closing) ==
      if t[0] == '#' then
        if LineLen(t) == |t| then None
        else Shift(LineLen(t) + 1, MatchLen(t[LineLen(t) + 1..], depth, opening, closing))
      else if !Marks(t[0]) && t[0] == closing && t[0] != opening && depth == 1 then Some(0)
      else
        match TokenLen(t)
        case None => None
        case Some(e) => Shift(e, MatchLen(t[e..], DepthAfter(t[0], depth, opening, closing), opening, closing))
  {
    hide LineLen, StringLen;
  }

  lemma BareToken(t: string, e: nat, n: nat, v: string)
    requires t != "" && t[0] != '#' && TokenLen(t) == Some(e) && e <= n <= |t| && Bares(t[e..], n - e, v)
    ensures Bares(t, n, if Marks(t[0]) then v else [t[0]] + v)
  {
    hide StringTo, TokenLen;
    TokenExactly(t, e);
    assert !Marks(t[0]) ==> ([t[0]] + v)[1..] == v;
  }

  lemma BareComment(t: string, e: nat, n: nat, v: string)
    requires t != "" && t[0] == '#' && e == LineLen(t) < n <= |t| && Bares(t[e + 1..], n - e - 1, v)
    ensures Bares(t, n, "\n" + v)
  {
    hide StringTo;
    TokenExactly(t, e);
    var rest := t[e..];
    assert rest[0] == '\n' && rest[1..] == t[e + 1..] && ("\n" + v)[1..] == v;
    assert Bares(rest, n - e, "\n" + v);
  }

  lemma DepthAfterIs(c: char, depth: nat, opening: char, closing: char)
    requires depth > 0 && opening != closing
    ensures DepthAfter(c, depth, opening, closing) == if Marks(c) then depth else Counted(c, depth, opening, closing)
  {
  }

  function Counted(c: char, depth: int, opening: char, closing: char): int {
    depth + (if c == opening then 1 else 0) - if c == closing then 1 else 0
  }

  lemma ReadNothing(t: string, opening: char, closing: char)
    ensures Bares(t, 0, "") && Keeps("", 1, opening, closing)
  {
  }

  lemma DifferentBrackets(t: string, q: nat, opening: char, closing: char)
    requires Closes(t, q, opening, closing)
    ensures q < |t| && t[q] == closing && opening != closing && !Marks(closing)
  {
  }

  lemma KeepsMore(c: char, v: string, depth: int, opening: char, closing: char)
    requires depth >= 1
    ensures Keeps([c] + v, depth, opening, closing) <==> Keeps(v, Counted(c, depth, opening, closing), opening, closing)
  {
    hide Keeps;
    var u := [c] + v;
    assert u[0] == c && u[1..] == v;
    KeepsFirst(u, depth, opening, closing);
  }

  lemma CommentInFront(t: string, q: nat, v: string, depth: nat, opening: char, closing: char)
    requires t != "" && t[0] == '#' && LineLen(t) < q <= |t| && depth > 0 && opening != '\n' && closing != '\n'
    requires Bares(t[LineLen(t) + 1..], q - LineLen(t) - 1, v) && Keeps(v, depth, opening, closing)
    ensures Bares(t, q, "\n" + v) && Keeps("\n" + v, depth, opening, closing)
  {
    hide Keeps, Bares, LineLen;
    BareComment(t, LineLen(t), q, v);
    KeepsMore('\n', v, depth, opening, closing);
  }

  lemma TokenInFront(t: string, e: nat, q: nat, v: string, depth: nat, opening: char, closing: char) returns (u: string)
    requires t != "" && t[0] != '#' && TokenLen(t) == Some(e) && e <= q <= |t| && depth > 0 && opening != closing
    requires DepthAfter(t[0], depth, opening, closing) > 0 && Bares(t[e..], q - e, v)
    requires Keeps(v, DepthAfter(t[0], depth, opening, closing), opening, closing)
    ensures Bares(t, q, u) && Keeps(u, depth, opening, closing)
  {
    hide Keeps, Bares, TokenLen, DepthAfter, Counted;
    BareToken(t, e, q, v);
    DepthAfterIs(t[0], depth, opening, closing);
    KeepsMore(t[0], v, depth, opening, closing);
    u := if Marks(t[0]) then v else [t[0]] + v;
  }

  lemma {:induction false} MatchReads(t: string, q: nat, depth: nat, opening: char, closing: char) returns (u: string)
    requires depth > 0 && opening != closing && opening != '\n' && closing != '\n'
    requires q <= |t| && MatchLen(t, depth, opening, closing) == Some(q)
    ensures Bares(t, q, u) && Keeps(u, depth, opening, closing)
    decreases |t|
  {
    assert t != "";
    hide *;
    MatchFront(t, depth, opening, closing);
    if t[0] == '#' {
      var n := LineLen(t) + 1;
      ShiftedBack(n, MatchLen(t[n..], depth, opening, closing), q);
      var v := MatchReads(t[n..], q - n, depth, opening, closing);
      CommentInFront(t, q, v, depth, opening, closing);
      u := "\n" + v;
    } else if !Marks(t[0]) && t[0] == closing && depth == 1 {
      u := "";
      ReadNothing(t, opening, closing);
    } else {
      var e := TokenLen(t).value;
      var after := DepthAfter(t[0], depth, opening, closing);
      StillOpen(t[0], depth, opening, closing);
      ShiftedBack(e, MatchLen(t[e..], after, opening, closing), q);
      var v := MatchReads(t[e..], q - e, after, opening, closing);
      u := TokenInFront(t, e, q, v, depth, opening, closing);
    }
  }

  lemma ShiftedBack(n: nat, m: Option<nat>, q: nat)
    requires Shift(n, m) == Some(q)
    ensures q >= n && m == Some(q - n)
  {
  }

  lemma StillOpen(c: char, depth: nat, opening: char, closing: char)
    requires depth > 0 && opening != closing && (Marks(c) || c != closing || depth != 1)
    ensures DepthAfter(c, depth, opening, closing) > 0
  {
  }

  lemma ClosesBehind(t: string, e: nat, q: nat, opening: char, closing: char)
    requires e <= q && Closes(t, q, opening, closing)
    ensures Closes(t[e..], q - e, opening, closing)
  {
  }

  lemma ReadHere(t: string, u: string, depth: nat, opening: char, closing: char)
    requires depth > 0 && Closes(t, 0, opening, closing) && Bares(t, 0, u) && Keeps(u, depth, opening, closing)
    ensures MatchLen(t, depth, opening, closing) == Some(0)
  {
    hide MatchLen;
    MatchFront(t, depth, opening, closing);
    assert u == "" && u[..0] == "";
  }

  /** A comment and its line feed off the front. */
  lemma CommentRead(t: string, q: nat, u: string) returns (w: string)
    requires 0 < q < |t| && t[q] != '\n' && t[0] == '#' && Bares(t, q, u)
    ensures LineLen(t) < q && u == ['\n'] + w && Bares(t[LineLen(t) + 1..], q - LineLen(t) - 1, w)
  {
    hide Bares, StringLen, StringTo;
    var e, v := BareStep(t, q, u);
    assert e == LineLen(t) && v == u;
    var rest := t[e..];
    assert rest[0] == t[e] && rest[1..] == t[e + 1..];
    var f;
    f, w := BareStep(rest, q - e, v);
  }

  lemma {:induction false} ReadsMatch(t: string, q: nat, u: string, depth: nat, opening: char, closing: char)
    requires depth > 0 && opening != '\n' && closing != '\n' && Closes(t, q, opening, closing)
    requires Bares(t, q, u) && Keeps(u, depth, opening, closing)
    ensures MatchLen(t, depth, opening, closing) == Some(q)
    decreases |t|
  {
    hide MatchLen, Keeps, Bares, TokenLen, LineLen, Closes, DepthAfter;
    DifferentBrackets(t, q, opening, closing);
    if q == 0 {
      ReadHere(t, u, depth, opening, closing);
    } else {
      MatchFront(t, depth, opening, closing);
      DepthAfterIs(t[0], depth, opening, closing);
      if t[0] == '#' {
        var e := LineLen(t);
        var w := CommentRead(t, q, u);
        KeepsMore('\n', w, depth, opening, closing);
        ClosesBehind(t, e + 1, q, opening, closing);
        ReadsMatch(t[e + 1..], q - e - 1, w, depth, opening, closing);
      } else {
        var e, v := BareStep(t, q, u);
        ClosesBehind(t, e, q, opening, closing);
        if !Marks(t[0]) {
          KeepsMore(t[0], v, depth, opening, closing);
          KeepsOpen(v, Counted(t[0], depth, opening, closing), opening, closing);
        }
        ReadsMatch(t[e..], q - e, v, DepthAfter(t[0], depth, opening, closing), opening, closing);
      }
    }
  }

  lemma KeepsOpen(u: string, depth: int, opening: char, closing: char)
    requires Keeps(u, depth, opening, closing)
    ensures depth >= 1
  {
    assert u[..0] == "";
  }

  /** The matching bracket, counted: the closing one in front of which, outside strings and comments,
      as many brackets have opened as closed, and never more closed than opened. */
  lemma MatchCounted(t: string, q: nat, opening: char, closing: char)
    requires opening != '\n' && closing != '\n'
    ensures MatchLen(t, 1, opening, closing) == Some(q) <==>
      Closes(t, q, opening, closing) && exists u :: Bares(t, q, u) && Keeps(u, 1, opening, closing)
  {
    hide MatchLen, Bares, Keeps;
    if MatchLen(t, 1, opening, closing) == Some(q) {
      MatchMeans(t, 1, opening, closing);
      DifferentBrackets(t, q, opening, closing);
      var u := MatchReads(t, q, 1, opening, closing);
    }
    if Closes(t, q, opening, closing) && exists u :: Bares(t, q, u) && Keeps(u, 1, opening, closing) {
      var u :| Bares(t, q, u) && Keeps(u, 1, opening, closing);
      ReadsMatch(t, q, u, 1, opening, closing);
    }
  }

  // ----- blanks ------------------------------------------------------------------------------------------

  /** The blanks, character by character. */
  const LOW_BLANKS := ['\t', '\n', '\U{000B}', '\U{000C}', '\r', '\U{001C}', '\U{001D}', '\U{001E}', '\U{001F}', ' ',
                       '\U{0085}', '\U{00A0}', '\U{1680}']

  const HIGH_BLANKS := ['\U{2000}', '\U{2001}', '\U{2002}', '\U{2003}', '\U{2004}', '\U{2005}', '\U{2006}', '\U{2007}',
                        '\U{2008}', '\U{2009}', '\U{200A}', '\U{2028}', '\U{2029}', '\U{202F}', '\U{205F}', '\U{3000}']

  lemma LowBlanks(c: char)
    requires c < '\U{2000}'
    ensures IsBlank(c) <==> c in LOW_BLANKS
  {
    if '\t' <= c <= '\r' {
      assert c == LOW_BLANKS[c as int - '\t' as int];
    } else if '\U{001C}' <= c <= ' ' {
      assert c == LOW_BLANKS[c as int - 0x1C + 5];
    } else if IsBlank(c) {
      assert c == LOW_BLANKS[10] || c == LOW_BLANKS[11] || c == LOW_BLANKS[12];
    }
  }

  lemma HighBlanks(c: char)
    requires c >= '\U{2000}'
    ensures IsBlank(c) <==> c in HIGH_BLANKS
  {
    if c <= '\U{200A}' {
      assert c == HIGH_BLANKS[c as int - 0x2000];
    } else if IsBlank(c) {
      assert c == HIGH_BLANKS[11] || c == HIGH_BLANKS[12] || c == HIGH_BLANKS[13] || c == HIGH_BLANKS[14]
          || c == HIGH_BLANKS[15];
    }
  }

  /** One of the twenty-nine blanks. */
  ghost predicate Blank(c: char) { c in LOW_BLANKS || c in HIGH_BLANKS }

  lemma BlankExactly(c: char)
    ensures IsBlank(c) <==> Blank(c)
  {
    if c < '\U{2000}' {
      LowBlanks(c);
      assert forall i :: 0 <= i < |HIGH_BLANKS| ==> HIGH_BLANKS[i] >= '\U{2000}';
    } else {
      HighBlanks(c);
      assert forall i :: 0 <= i < |LOW_BLANKS| ==> LOW_BLANKS[i] < '\U{2000}';
    }
  }

  ghost predicate AllBlank(t: string) { forall i :: 0 <= i < |t| ==> Blank(t[i]) }

  /** `core` is `t` without the blanks at its ends. */
  ghost predicate CoreOf(t: string, core: string) {
    && (core != "" ==> !Blank(core[0]) && !Blank(core[|core| - 1]))
    && exists i, j :: 0 <= i <= j <= |t| && core == t[i..j] && AllBlank(t[..i]) && AllBlank(t[j..])
  }

  lemma {:induction false} LeftStripped(t: string) returns (i: nat)
    ensures i <= |t| && StripLeft(t) == t[i..] && AllBlank(t[..i]) && (i < |t| ==> !Blank(t[i]))
  {
    hide IsBlank, Blank;
    i := 0;
    if t != "" {
      BlankExactly(t[0]);
      if IsBlank(t[0]) {
        i := LeftStripped(t[1..]);
        assert t[..i + 1] == [t[0]] + t[1..][..i];
        i := i + 1;
      }
    }
  }

  lemma {:induction false} RightStripped(t: string) returns (j: nat)
    ensures j <= |t| && StripRight(t) == t[..j] && AllBlank(t[j..]) && (j > 0 ==> !Blank(t[j - 1]))
  {
    hide IsBlank, Blank;
    j := |t|;
    if t != "" {
      BlankExactly(t[|t| - 1]);
      if IsBlank(t[|t| - 1]) {
        j := RightStripped(t[..|t| - 1]);
        assert t[j..] == t[..|t| - 1][j..] + [t[|t| - 1]];
      }
    }
  }

  lemma StripExactly(t: string)
    ensures CoreOf(t, Strip(t))
  {
    hide StripLeft, StripRight, Blank;
    var i := LeftStripped(t);
    var u := StripLeft(t);
    var j := RightStripped(u);
    assert Strip(t) == t[i..i + j] && t[i + j..] == u[j..];
    assert AllBlank(t[..i]) && AllBlank(t[i + j..]);
  }

  /** The statements that are yielded: of each piece in turn the text without the blanks at its
      ends, unless nothing is left of it. */
  lemma YieldedExactly(pieces: seq<string>, last: string) returns (core: string)
    ensures CoreOf(last, core)
    ensures Stripped([]) == [] && Stripped(pieces + [last]) == Stripped(pieces) + if core == "" then [] else [core]
  {
    core := Strip(last);
    StripExactly(last);
    hide CoreOf, Strip;
    StrippedAppend(pieces, [last]);
    StrippedOne(last);
  }
}
