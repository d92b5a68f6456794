/** _matching of scripts/generate-openusd-schema-manifest.py: the bracket that closes a block. */
module SchemaMatching {
  import opened Chars
  import opened Options
  import opened SchemaScanner

  /** A string, a comment with its line feed, or one character. */
  function FrontLen(t: string): (n: Option<nat>)
    requires t != ""
    ensures n.Some? ==> 0 < n.value <= |t|
  {
    if IsQuote(t[0]) then StringLen(t)
    else if t[0] == '#' then if LineLen(t) == |t| then None else Some(LineLen(t) + 1)
    else Some(1)
  }

  function DepthAfter(c: char, depth: nat, opening: char, closing: char): nat
    requires depth > 0
  {
    if IsQuote(c) || c == '#' then depth
    else if c == opening then depth + 1
    else if c == closing then depth - 1
    else depth
  }

  /** How far behind the opening bracket the closing one stands, with `depth` blocks open. */
  function MatchLen(t: string, depth: nat, opening: char, closing: char): (n: Option<nat>)
    requires depth > 0
    ensures n.Some? ==> n.value < |t|
    decreases |t|
  {
    if t == "" then None
    else if DepthAfter(t[0], depth, opening, closing) == 0 then Some(0)
    else
      match FrontLen(t)
      case None => None
      case Some(n) => Shift(n, MatchLen(t[n..], DepthAfter(t[0], depth, opening, closing), opening, closing))
  }

  function Shift(n: nat, m: Option<nat>): Option<nat> {
    match m case Some(k) => Some(n + k) case None => None
  }

  /** The number of open blocks behind `t`, whose strings and comments end in it and in which
      no bracket closes the outermost block. */
  function Net(t: string, depth: nat, opening: char, closing: char): Option<nat>
    requires depth > 0
    decreases |t|
  {
    if t == "" then Some(depth)
    else if DepthAfter(t[0], depth, opening, closing) == 0 then None
    else
      match FrontLen(t)
      case None => None
      case Some(n) => Net(t[n..], DepthAfter(t[0], depth, opening, closing), opening, closing)
  }

  /** _matching */
  method Matching(text: string, start: nat, opening: char, closing: char) returns (ok: bool, pos: nat)
    ensures ok <==> start < |text| && text[start] == opening && MatchLen(text[start + 1..], 1, opening, closing).Some?
    ensures ok ==> pos == start + 1 + MatchLen(text[start + 1..], 1, opening, closing).value
  {
    hide MatchLen, StringLen;
    pos := start;
    if pos >= |text| || text[pos] != opening {
      return false, pos;
    }
    var depth := 1;
    pos := pos + 1;
    ghost var behind := text[pos..];
    while pos < |text|
      invariant start + 1 <= pos <= |text| && depth > 0
      invariant MatchLen(behind, 1, opening, closing)
          == Shift(pos - start - 1, MatchLen(text[pos..], depth, opening, closing))
    {
      MatchStep(text, pos, depth, opening, closing);
      var c := text[pos];
      if IsQuote(c) {
        ok, pos := SkipString(text, pos);
        if !ok { return; }
        continue;
      }
      if c == '#' {
        var n := LineLen(text[pos..]);
        pos := if pos + n == |text| then |text| else pos + n + 1;
        MatchNothing("", depth, opening, closing);
        continue;
      }
      if c == opening {
        depth := depth + 1;
      } else if c == closing {
        depth := depth - 1;
        if depth == 0 {
          return true, pos;
        }
      }
      pos := pos + 1;
    }
    MatchNothing(text[pos..], depth, opening, closing);
    ok := false;
  }

  lemma MatchNothing(t: string, depth: nat, opening: char, closing: char)
    requires depth > 0 && t == ""
    ensures MatchLen(t, depth, opening, closing) == None
  {
  }

  lemma MatchStep(text: string, pos: nat, depth: nat, opening: char, closing: char)
    requires pos < |text| && depth > 0
    ensures var t := text[pos..]; var d := DepthAfter(text[pos], depth, opening, closing);
      MatchLen(t, depth, opening, closing) ==
      if d == 0 then Some(0)
      else match FrontLen(t) case None => None case Some(n) => Shift(n, MatchLen(text[pos + n..], d, opening, closing))
  {
  }

  // ----- the first position where the depth returns to zero -----------------------------------------

  /** What stands at `q` can close a block. */
  predicate Closes(t: string, q: nat, opening: char, closing: char) {
    q < |t| && t[q] == closing && closing != opening && !IsQuote(closing) && closing != '#'
  }

  lemma Cut(t: string, n: nat, q: nat)
    requires n <= q <= |t|
    ensures t[..q][n..] == t[n..][..q - n] && t == t[..q] + t[q..]
  {
  }

  /** What stands at the front and ends before `q` is the same in `t[..q]`. */
  lemma FrontInside(t: string, q: nat)
    requires 0 < q <= |t| && FrontLen(t).Some? && FrontLen(t).value <= q
    ensures FrontLen(t[..q]) == FrontLen(t)
  {
    var u := t[..q];
    assert t == u + t[q..];
    if IsQuote(t[0]) {
      TokenInside(u, t[q..]);
    } else if t[0] == '#' {
      LineLenIs(u, LineLen(t));
    }
  }

  lemma FrontLocal(t: string, q: nat)
    requires 0 < q < |t| && !IsQuote(t[q]) && FrontLen(t[..q]).Some?
    ensures FrontLen(t) == FrontLen(t[..q])
  {
    var u := t[..q];
    assert t == u + t[q..];
    if IsQuote(t[0]) {
      StringLocal(u, t[q..]);
    } else if t[0] == '#' {
      LineLenIs(t, LineLen(u));
    }
  }

  lemma {:induction false} MatchMeans(t: string, depth: nat, opening: char, closing: char)
    requires depth > 0 && MatchLen(t, depth, opening, closing).Some?
    ensures var q := MatchLen(t, depth, opening, closing).value;
      Closes(t, q, opening, closing) && Net(t[..q], depth, opening, closing) == Some(1)
    decreases |t|
  {
    hide FrontLen;
    var q := MatchLen(t, depth, opening, closing).value;
    if q > 0 {
      var n := FrontLen(t).value;
      FrontInside(t, q);
      MatchMeans(t[n..], DepthAfter(t[0], depth, opening, closing), opening, closing);
      Cut(t, n, q);
    }
  }

  lemma {:induction false} MeansMatch(t: string, q: nat, depth: nat, opening: char, closing: char)
    requires depth > 0 && Closes(t, q, opening, closing) && Net(t[..q], depth, opening, closing) == Some(1)
    ensures MatchLen(t, depth, opening, closing) == Some(q)
    decreases |t|
  {
    hide FrontLen;
    if q > 0 {
      var n := FrontLen(t[..q]).value;
      FrontLocal(t, q);
      Cut(t, n, q);
      MeansMatch(t[n..], q - n, DepthAfter(t[0], depth, opening, closing), opening, closing);
    }
  }

  /** Outside strings and comments, the depth returns to zero at `q` for the first time exactly
      when `q` is what _matching finds. */
  lemma MatchesExactly(t: string, q: nat, opening: char, closing: char)
    ensures MatchLen(t, 1, opening, closing) == Some(q) <==>
            Closes(t, q, opening, closing) && Net(t[..q], 1, opening, closing) == Some(1)
  {
    if MatchLen(t, 1, opening, closing) == Some(q) {
      MatchMeans(t, 1, opening, closing);
    } else if Closes(t, q, opening, closing) && Net(t[..q], 1, opening, closing) == Some(1) {
      MeansMatch(t, q, 1, opening, closing);
    }
  }
}
