/** The third scanner (src/ascii-parser-basetype-impl.inc, FindArrayLiteralEnd): comments and
    quoted strings do not count. */
module ArrayLiteral {
  import opened Chars
  import opened Options
  import opened ArrayScan

  /** One past the closing quote of a string whose content starts at `p`. */
  function SingleEnd(s: string, p: nat, quote: char): (q: Option<nat>)
    requires p <= |s|
    ensures q.Some? ==> p < q.value <= |s| && s[q.value - 1] == quote
    decreases |s| - p
  {
    if p == |s| then None
    else if s[p] == '\\' && p + 1 < |s| && IsQuote(s[p + 1]) then SingleEnd(s, p + 2, quote)
    else if s[p] == quote then Some(p + 1)
    else SingleEnd(s, p + 1, quote)
  }

  function TripleEnd(s: string, p: nat, quote: char): (q: Option<nat>)
    requires p <= |s|
    ensures q.Some? ==> p < q.value <= |s| && s[q.value - 1] == quote
    decreases |s| - p
  {
    if p == |s| then None
    else if s[p] == '\\' then TripleEnd(s, if p + 3 < |s| && TripleAt(s, p + 1, quote) then p + 4 else p + 1, quote)
    else if TripleAt(s, p, quote) then Some(p + 3)
    else TripleEnd(s, p + 1, quote)
  }

  function StringEnd(s: string, p: nat): (q: Option<nat>)
    requires p < |s| && IsQuote(s[p])
    ensures q.Some? ==> p + 1 < q.value <= |s| && s[q.value - 1] == s[p]
  {
    if TripleAt(s, p, s[p]) then TripleEnd(s, p + 3, s[p]) else SingleEnd(s, p + 1, s[p])
  }

  /** A comment ends before the next line break. */
  function CommentEnd(s: string, p: nat): (q: nat)
    requires p <= |s|
    ensures p <= q <= |s| && (q < |s| ==> s[q] == '\n' || s[q] == '\r')
    ensures forall k :: p <= k < q ==> s[k] != '\n' && s[k] != '\r'
    decreases |s| - p
  {
    if p == |s| || s[p] == '\n' || s[p] == '\r' then p else CommentEnd(s, p + 1)
  }

  function LiteralEnd(s: string, p: nat, depth: nat): (q: Option<nat>)
    requires p <= |s|
    ensures q.Some? ==> p <= q.value <= |s| && (depth > 0 ==> p < q.value)
    decreases |s| - p
  {
    if depth == 0 then Some(p)
    else if p == |s| then None
    else if s[p] == '#' then LiteralEnd(s, CommentEnd(s, p + 1), depth)
    else if IsQuote(s[p]) then
      match StringEnd(s, p) case Some(q) => LiteralEnd(s, q, depth) case None => None
    else LiteralEnd(s, p + 1, depth + Weight(s[p]))
  }

  method SkipQuoted(s: string, start: nat) returns (ok: bool, p: nat)
    requires start < |s| && IsQuote(s[start])
    ensures ok == StringEnd(s, start).Some? && p <= |s|
    ensures ok ==> p == StringEnd(s, start).value
  {
    p := start;
    var quote := s[p];
    p := p + 1;
    if p + 1 < |s| && s[p] == quote && s[p + 1] == quote {
      p := p + 2;
      while p < |s|
        invariant start < p <= |s| && TripleEnd(s, p, quote) == TripleEnd(s, start + 3, quote)
      {
        if s[p] == '\\' {
          if p + 3 < |s| && s[p + 1] == quote && s[p + 2] == quote && s[p + 3] == quote {
            p := p + 4;
            continue;
          }
          p := p + 1;
          continue;
        }
        if p + 2 < |s| && s[p] == quote && s[p + 1] == quote && s[p + 2] == quote {
          p := p + 3;
          return true, p;
        }
        p := p + 1;
      }
      return false, p;
    }
    while p < |s|
      invariant start < p <= |s| && SingleEnd(s, p, quote) == SingleEnd(s, start + 1, quote)
    {
      if s[p] == '\\' && p + 1 < |s| && (s[p + 1] == '\'' || s[p + 1] == '"') {
        p := p + 2;
        continue;
      }
      if s[p] == quote {
        p := p + 1;
        return true, p;
      }
      p := p + 1;
    }
    ok := false;
  }

  method FindArrayLiteralEnd(s: string, start: nat) returns (ok: bool, end: nat)
    ensures ok <==> start < |s| && s[start] == '[' && LiteralEnd(s, start + 1, 1).Some?
    ensures ok ==> end == LiteralEnd(s, start + 1, 1).value
  {
    end := start;
    if start >= |s| || s[start] != '[' {
      return false, end;
    }
    var p, depth := start + 1, 1;
    while p < |s| && depth > 0
      invariant p <= |s| && depth >= 0 && LiteralEnd(s, p, depth) == LiteralEnd(s, start + 1, 1)
      decreases |s| - p
    {
      var c := s[p];
      if c == '#' {
        ghost var hash := p;
        while p < |s| && s[p] != '\n' && s[p] != '\r'
          invariant hash <= p <= |s| && (p > hash ==> CommentEnd(s, p) == CommentEnd(s, hash + 1))
          invariant p == hash ==> s[p] == '#'
        {
          p := p + 1;
        }
        continue;
      }
      if IsQuote(c) {
        ok, p := SkipQuoted(s, p);
        if !ok { return; }
        continue;
      }
      p := p + 1;
      if c == '[' {
        depth := depth + 1;
      } else if c == ']' {
        depth := depth - 1;
      }
    }
    if depth != 0 {
      return false, end;
    }
    ok, end := true, p;
  }

  // ----- agreement with the comment-aware scanner -----------------------------------------------

  /** Neither quotes nor carriage returns. */
  ghost predicate Plain(s: string, a: nat, e: nat)
    requires a <= e <= |s|
  {
    forall k :: a <= k < e ==> !IsQuote(s[k]) && s[k] != '\r'
  }

  /** Inside a comment the level stands still. */
  lemma {:induction false} CommentStill(s: string, a: nat, h: nat, q: nat)
    requires a <= h < q <= |s| && s[h] == '#' && forall k :: h <= k < q ==> s[k] != '\n'
    ensures InComment(s, a, q) && Level(s, a, q, true) == Level(s, a, h, true)
    decreases q
  {
    if q > h + 1 {
      CommentStill(s, a, h, q - 1);
    }
  }

  /** Over a comment: the level stands still, and behind the line feed no comment is open. */
  lemma CommentJump(s: string, a: nat, p: nat, q: nat)
    requires a <= p < q < |s| && s[p] == '#' && s[q] == '\n' && (forall k :: p <= k < q ==> s[k] != '\n')
    requires Positive(s, a, p, true) && Level(s, a, p, true) > 0
    ensures !InComment(s, a, q + 1) && Level(s, a, q + 1, true) == Level(s, a, p, true) && Positive(s, a, q + 1, true)
  {
    CommentStill(s, a, p, q);
    forall k | a <= k < q + 1 ensures Level(s, a, k, true) > 0 {
      if k > p {
        CommentStill(s, a, p, k);
      }
    }
  }

  lemma {:induction false} LiteralMatches(s: string, a: nat, p: nat, e: nat)
    requires a <= p <= e <= |s| && a < e && Plain(s, a, e)
    requires !InComment(s, a, p) && Positive(s, a, p, true) && Level(s, a, p, true) >= 0
    requires LiteralEnd(s, p, Level(s, a, p, true)) == Some(e)
    ensures Matches(s, a, e, true)
    decreases |s| - p
  {
    var depth := Level(s, a, p, true);
    if depth > 0 {
      if s[p] == '#' {
        var q := CommentEnd(s, p + 1);
        CommentJump(s, a, p, q);
        LiteralMatches(s, a, q + 1, e);
      } else {
        LiteralMatches(s, a, p + 1, e);
      }
    }
  }

  lemma {:induction false} MatchIsLiteral(s: string, a: nat, p: nat, e: nat)
    requires a <= p <= e && Matches(s, a, e, true) && Plain(s, a, e) && !InComment(s, a, p)
    ensures Level(s, a, p, true) >= 0 && LiteralEnd(s, p, Level(s, a, p, true)) == Some(e)
    decreases e - p
  {
    if p < e {
      assert Level(s, a, p, true) > 0;
      if s[p] == '#' {
        var q := CommentEnd(s, p + 1);
        if q >= e {
          CommentStill(s, a, p, e);
        } else {
          CommentJump(s, a, p, q);
          MatchIsLiteral(s, a, q + 1, e);
        }
      } else {
        MatchIsLiteral(s, a, p + 1, e);
      }
    }
  }

  /** With neither quotes nor carriage returns before the stop of either scanner, the other
      stops at the same place. */
  lemma LiteralAgreesWithAware(s: string, a: nat, e: nat)
    requires a < e <= |s| && Plain(s, a, e)
    ensures LiteralEnd(s, a, 1) == Some(e) <==> Matches(s, a, e, true)
  {
    if LiteralEnd(s, a, 1) == Some(e) {
      LiteralMatches(s, a, a, e);
    }
    if Matches(s, a, e, true) {
      MatchIsLiteral(s, a, a, e);
    }
  }

  // ----- where they agree exactly -----------------------------------------------------------------

  /** One past the comment, the string or the character at `p`. */
  function TokenEnd(s: string, p: nat): (q: nat)
    requires p < |s|
    ensures p < q <= |s|
  {
    if s[p] == '#' then CommentEnd(s, p + 1)
    else if IsQuote(s[p]) then match StringEnd(s, p) case Some(q) => q case None => |s|
    else p + 1
  }

  predicate Skipped(s: string, p: nat)
    requires p < |s|
  {
    s[p] == '#' || IsQuote(s[p])
  }

  /** The scan from `p` comes to the character at `i`, outside comments and strings. */
  predicate Counted(s: string, p: nat, i: nat)
    requires p <= i < |s|
    decreases |s| - p
  {
    if p == i then !Skipped(s, p) else TokenEnd(s, p) <= i && Counted(s, TokenEnd(s, p), i)
  }

  /** The bracket level before `i` for the literal scanner. */
  function LiteralLevel(s: string, a: nat, i: nat): int
    requires a <= i <= |s|
    decreases i
  {
    if i == a then 1 else LiteralLevel(s, a, i - 1) + if Counted(s, a, i - 1) then Weight(s[i - 1]) else 0
  }

  ghost predicate LiteralPositive(s: string, a: nat, e: nat)
    requires a <= e <= |s|
  {
    forall k :: a <= k < e ==> LiteralLevel(s, a, k) > 0
  }

  ghost predicate StopsAt(s: string, a: nat, e: nat) {
    a < e <= |s| && LiteralLevel(s, a, e) == 0 && LiteralPositive(s, a, e)
  }

  /** The scan from `a` comes to `p` between two tokens. */
  ghost predicate Between(s: string, a: nat, p: nat) {
    a <= p <= |s| && forall i :: p <= i < |s| ==> Counted(s, a, i) == Counted(s, p, i)
  }

  lemma NextBetween(s: string, a: nat, p: nat)
    requires Between(s, a, p) && p < |s|
    ensures Between(s, a, TokenEnd(s, p))
    ensures Skipped(s, p) ==> forall i :: p <= i < TokenEnd(s, p) ==> !Counted(s, a, i)
    ensures !Skipped(s, p) ==> TokenEnd(s, p) == p + 1 && Counted(s, a, p)
  {
    hide CommentEnd, StringEnd;
    var q := TokenEnd(s, p);
    forall i | p <= i < |s|
      ensures Counted(s, a, i) == if i < q then i == p && !Skipped(s, p) else Counted(s, q, i)
    {
      assert Counted(s, a, i) == Counted(s, p, i);
    }
  }

  lemma {:induction false} SkippedStill(s: string, a: nat, p: nat, q: nat)
    requires a <= p <= q <= |s| && forall i :: p <= i < q ==> !Counted(s, a, i)
    ensures LiteralLevel(s, a, q) == LiteralLevel(s, a, p)
    decreases q
  {
    if p < q {
      SkippedStill(s, a, p, q - 1);
    }
  }

  /** Over one token the level stays positive, and changes by the weight of what counts. */
  lemma LevelStep(s: string, a: nat, p: nat)
    requires Between(s, a, p) && p < |s| && LiteralPositive(s, a, p) && LiteralLevel(s, a, p) > 0
    ensures Between(s, a, TokenEnd(s, p)) && LiteralPositive(s, a, TokenEnd(s, p))
    ensures LiteralLevel(s, a, TokenEnd(s, p)) == LiteralLevel(s, a, p) + if Skipped(s, p) then 0 else Weight(s[p])
  {
    hide Counted, TokenEnd, LiteralLevel, Skipped;
    NextBetween(s, a, p);
    var q := TokenEnd(s, p);
    if Skipped(s, p) {
      forall k | p <= k <= q ensures LiteralLevel(s, a, k) == LiteralLevel(s, a, p) {
        SkippedStill(s, a, p, k);
      }
    } else {
      CountedStep(s, a, p);
    }
  }

  lemma CountedStep(s: string, a: nat, p: nat)
    requires a <= p < |s| && Counted(s, a, p)
    ensures LiteralLevel(s, a, p + 1) == LiteralLevel(s, a, p) + Weight(s[p])
  {
  }

  lemma LiteralStep(s: string, p: nat, depth: nat)
    requires p < |s| && depth > 0
    ensures LiteralEnd(s, p, depth) ==
      if IsQuote(s[p]) && StringEnd(s, p).None? then None
      else LiteralEnd(s, TokenEnd(s, p), if Skipped(s, p) then depth else depth + Weight(s[p]))
  {
  }

  lemma OpenString(s: string, p: nat)
    requires p < |s|
    ensures IsQuote(s[p]) && StringEnd(s, p).None? ==> Skipped(s, p) && TokenEnd(s, p) == |s|
  {
  }

  lemma {:induction false} EndIsMatch(s: string, a: nat, p: nat, e: nat)
    requires Between(s, a, p) && LiteralPositive(s, a, p) && LiteralLevel(s, a, p) >= 0
    requires LiteralEnd(s, p, LiteralLevel(s, a, p)) == Some(e) && (p == a ==> LiteralLevel(s, a, p) > 0)
    ensures StopsAt(s, a, e)
    decreases |s| - p
  {
    hide Counted, TokenEnd, LiteralPositive, Skipped, StringEnd;
    var depth := LiteralLevel(s, a, p);
    if depth > 0 && p < |s| {
      hide LiteralEnd, LiteralLevel;
      LiteralStep(s, p, depth);
      LevelStep(s, a, p);
      EndIsMatch(s, a, TokenEnd(s, p), e);
    }
  }

  lemma {:induction false} MatchIsEnd(s: string, a: nat, p: nat, e: nat)
    requires Between(s, a, p) && p <= e && StopsAt(s, a, e)
    ensures LiteralLevel(s, a, p) >= 0 && LiteralEnd(s, p, LiteralLevel(s, a, p)) == Some(e)
    decreases |s| - p
  {
    hide Counted, TokenEnd, Skipped, StringEnd;
    var depth := LiteralLevel(s, a, p);
    if p < e {
      hide LiteralEnd, LiteralLevel;
      assert depth > 0 && LiteralPositive(s, a, p);
      LiteralStep(s, p, depth);
      LevelStep(s, a, p);
      OpenString(s, p);
      MatchIsEnd(s, a, TokenEnd(s, p), e);
    }
  }

  /** The literal scanner stops one past the first bracket that brings its level to zero. */
  lemma LiteralEndExactly(s: string, a: nat, e: nat)
    requires a <= |s|
    ensures LiteralEnd(s, a, 1) == Some(e) <==> StopsAt(s, a, e)
  {
    if LiteralEnd(s, a, 1) == Some(e) {
      EndIsMatch(s, a, a, e);
    }
    if StopsAt(s, a, e) {
      MatchIsEnd(s, a, a, e);
    }
  }

  lemma {:induction false} NothingSkipped(s: string, p: nat, i: nat)
    requires p <= i < |s| && forall k :: p <= k <= i ==> s[k] !in ['#', '"', '\'']
    ensures Counted(s, p, i)
    decreases i - p
  {
    if p < i {
      NothingSkipped(s, p + 1, i);
    }
  }

  lemma {:induction false} PlainLevel(s: string, a: nat, i: nat)
    requires a <= i <= |s| && forall k :: a <= k < i ==> s[k] !in ['#', '"', '\'']
    ensures LiteralLevel(s, a, i) == Level(s, a, i, false)
    decreases i
  {
    if i > a {
      NothingSkipped(s, a, i - 1);
      PlainLevel(s, a, i - 1);
    }
  }

  /** With no comment sign and no quote before the stop of either scanner, the comment-blind one
      stops at the same place. */
  lemma LiteralIsBlind(s: string, a: nat, e: nat)
    requires a <= e <= |s| && forall k :: a <= k < e ==> s[k] !in ['#', '"', '\'']
    ensures LiteralEnd(s, a, 1) == Some(e) <==> Matches(s, a, e, false)
  {
    LiteralEndExactly(s, a, e);
    forall k | a <= k <= e ensures LiteralLevel(s, a, k) == Level(s, a, k, false) {
      PlainLevel(s, a, k);
    }
  }

  /** What the bracket at `j` counts for the literal scanner beyond what it counts for the aware
      one: something where only one of them skips it, in a string or in a comment that has ended
      for the other or never began, and nothing elsewhere. */
  function Dispute(s: string, a: nat, j: nat): int
    requires a <= j < |s|
  {
    (if Counted(s, a, j) then Weight(s[j]) else 0) - if InComment(s, a, j) then 0 else Weight(s[j])
  }

  function Disputes(s: string, a: nat, i: nat): int
    requires a <= i <= |s|
    decreases i
  {
    if i == a then 0 else Disputes(s, a, i - 1) + Dispute(s, a, i - 1)
  }

  lemma {:induction false} DisputedLevel(s: string, a: nat, i: nat)
    requires a <= i <= |s|
    ensures LiteralLevel(s, a, i) == Level(s, a, i, true) + Disputes(s, a, i)
    decreases i
  {
    hide Counted, InComment;
    if i > a {
      DisputedLevel(s, a, i - 1);
    }
  }

  /** Where the aware scanner stops, the literal one stops if and only if the disputed brackets
      balance up to there and never take back the last open bracket. */
  lemma LiteralAgreesExactly(s: string, a: nat, e: nat)
    requires Matches(s, a, e, true)
    ensures LiteralEnd(s, a, 1) == Some(e) <==>
            Disputes(s, a, e) == 0 && forall k :: a <= k < e ==> Level(s, a, k, true) + Disputes(s, a, k) > 0
  {
    hide LiteralEnd;
    LiteralEndExactly(s, a, e);
    DisputedLevel(s, a, e);
    forall k | a <= k < e ensures LiteralLevel(s, a, k) == Level(s, a, k, true) + Disputes(s, a, k) {
      DisputedLevel(s, a, k);
    }
    if LiteralEnd(s, a, 1) == Some(e) {
      assert forall k :: a <= k < e ==> Level(s, a, k, true) + Disputes(s, a, k) > 0;
    } else if Disputes(s, a, e) == 0 {
      var k :| a <= k < e && LiteralLevel(s, a, k) <= 0;
      assert Level(s, a, k, true) + Disputes(s, a, k) <= 0;
    }
  }

  ghost predicate NoDispute(s: string, a: nat, e: nat)
    requires a <= e <= |s|
  {
    forall j :: a <= j < e ==> Dispute(s, a, j) == 0
  }

  lemma {:induction false} NothingDisputed(s: string, a: nat, i: nat)
    requires a <= i <= |s| && NoDispute(s, a, i)
    ensures Disputes(s, a, i) == 0
    decreases i
  {
    if i > a {
      NothingDisputed(s, a, i - 1);
    }
  }

  /** With no disputed bracket before the stop of either scanner, the other stops at the same
      place. */
  lemma LiteralAgreesUndisputed(s: string, a: nat, e: nat)
    requires a <= e <= |s| && NoDispute(s, a, e)
    ensures LiteralEnd(s, a, 1) == Some(e) <==> Matches(s, a, e, true)
  {
    hide LiteralEnd, Dispute;
    LiteralEndExactly(s, a, e);
    forall k | a <= k <= e ensures LiteralLevel(s, a, k) == Level(s, a, k, true) {
      DisputedLevel(s, a, k);
      NothingDisputed(s, a, k);
    }
  }

  /** Behind a carriage return in a comment, and in a string, a closing bracket stops one of the
      scanners only. */
  lemma ScannersDispute()
    ensures LiteralEnd("#\r]", 0, 1) == Some(3) && !Matches("#\r]", 0, 3, true)
    ensures LiteralEnd("']'", 0, 1) == None && Matches("']'", 0, 2, true)
  {
  }

  // ----- strings ---------------------------------------------------------------------------------

  /** The content of a string in one pair of quotes: a quote of that kind, or a backslash before
      any quote, only in escapes. */
  predicate Content(t: string, quote: char) {
    if t == "" then true
    else if t[0] == '\\' then |t| > 1 && (if IsQuote(t[1]) then Content(t[2..], quote) else Content(t[1..], quote))
    else t[0] != quote && Content(t[1..], quote)
  }

  lemma {:induction false} ContentSkipped(s: string, p: nat, t: string, quote: char)
    requires IsQuote(quote) && Content(t, quote) && p + |t| < |s| && s[p..p + |t|] == t && s[p + |t|] == quote
    ensures SingleEnd(s, p, quote) == Some(p + |t| + 1)
    decreases |t|
  {
    if t != "" {
      assert t[0] == s[p];
      if t[0] == '\\' {
        assert t[1] == s[p + 1];
      }
      if t[0] == '\\' && IsQuote(t[1]) {
        assert s[p + 2..p + 2 + |t[2..]|] == t[2..];
        ContentSkipped(s, p + 2, t[2..], quote);
      } else {
        assert s[p + 1..p + 1 + |t[1..]|] == t[1..];
        ContentSkipped(s, p + 1, t[1..], quote);
      }
    }
  }

  lemma {:induction false} EndIsContent(s: string, p: nat, e: nat, quote: char)
    requires IsQuote(quote) && p <= |s| && SingleEnd(s, p, quote) == Some(e)
    ensures p < e <= |s| && s[e - 1] == quote && Content(s[p..e - 1], quote)
    decreases |s| - p
  {
    var t := s[p..e - 1];
    if s[p] == '\\' && p + 1 < |s| && IsQuote(s[p + 1]) {
      EndIsContent(s, p + 2, e, quote);
      assert t[2..] == s[p + 2..e - 1] && t[1] == s[p + 1];
    } else if s[p] != quote {
      EndIsContent(s, p + 1, e, quote);
      assert t[1..] == s[p + 1..e - 1] && (|t| > 1 ==> t[1] == s[p + 1]);
    }
  }

  /** A string in one pair of quotes ends at the first quote that leaves a content. */
  lemma SingleExactly(s: string, p: nat, e: nat, quote: char)
    requires (quote == '"' || quote == '\'') && p <= |s|
    ensures SingleEnd(s, p, quote) == Some(e) <==> p < e <= |s| && s[e - 1] == quote && Content(s[p..e - 1], quote)
  {
    hide SingleEnd, Content;
    if SingleEnd(s, p, quote) == Some(e) {
      EndIsContent(s, p, e, quote);
    }
    if p < e <= |s| && s[e - 1] == quote && Content(s[p..e - 1], quote) {
      ContentSkipped(s, p, s[p..e - 1], quote);
    }
  }

  /** The content of a string in triple quotes: read before the closing quotes, three quotes
      stand only behind a backslash, and none of the closing quotes is used up by an escape. */
  predicate TripleContent(t: string, quote: char) {
    t == "" ||
    var u := t + [quote, quote, quote];
    if t[0] == '\\' then
      if TripleAt(u, 1, quote) then |t| >= 4 && TripleContent(t[4..], quote) else TripleContent(t[1..], quote)
    else !TripleAt(u, 0, quote) && TripleContent(t[1..], quote)
  }

  lemma {:induction false} TripleContentSkipped(s: string, p: nat, t: string, quote: char)
    requires IsQuote(quote) && TripleContent(t, quote) && p + |t| + 3 <= |s|
    requires s[p..p + |t|] == t && TripleAt(s, p + |t|, quote)
    ensures TripleEnd(s, p, quote) == Some(p + |t| + 3)
    decreases |t|
  {
    if t != "" {
      var n := TripleStep(s, p, t, quote);
      TripleContentSkipped(s, p + n, t[n..], quote);
    }
  }

  /** One character of a content, or an escape of four. */
  lemma TripleStep(s: string, p: nat, t: string, quote: char) returns (n: nat)
    requires IsQuote(quote) && TripleContent(t, quote) && t != "" && p + |t| + 3 <= |s|
    requires s[p..p + |t|] == t && TripleAt(s, p + |t|, quote)
    ensures 0 < n <= |t| && TripleContent(t[n..], quote) && s[p + n..p + n + |t[n..]|] == t[n..]
    ensures TripleEnd(s, p, quote) == TripleEnd(s, p + n, quote)
  {
    var u := t + [quote, quote, quote];
    assert s[p..p + |t| + 3] == u;
    FirstFour(s, p, u);
    n := if t[0] == '\\' && TripleAt(u, 1, quote) then 4 else 1;
    assert s[p + n..p + n + |t[n..]|] == t[n..];
  }

  lemma FirstFour(s: string, p: nat, u: string)
    requires |u| >= 4 && p + |u| <= |s| && s[p..p + |u|] == u
    ensures s[p] == u[0] && s[p + 1] == u[1] && s[p + 2] == u[2] && s[p + 3] == u[3]
  {
  }

  lemma {:induction false} TripleEndIsContent(s: string, p: nat, e: nat, quote: char)
    requires IsQuote(quote) && p <= |s| && TripleEnd(s, p, quote) == Some(e)
    ensures p + 3 <= e <= |s| && TripleAt(s, e - 3, quote) && TripleContent(s[p..e - 3], quote)
    decreases |s| - p
  {
    if s[p] != '\\' && TripleAt(s, p, quote) {
      assert s[p..e - 3] == "";
    } else {
      var n := if s[p] == '\\' && p + 3 < |s| && TripleAt(s, p + 1, quote) then 4 else 1;
      TripleEndIsContent(s, p + n, e, quote);
      var t := s[p..e - 3];
      var u := t + [quote, quote, quote];
      assert t[n..] == s[p + n..e - 3];
      assert u == s[p..e];
      assert u[0] == s[p] && u[1] == s[p + 1] && u[2] == s[p + 2] && u[3] == s[p + 3];
    }
  }

  /** A string in triple quotes ends at the first three quotes that leave a content. */
  lemma TripleExactly(s: string, p: nat, e: nat, quote: char)
    requires (quote == '"' || quote == '\'') && p <= |s|
    ensures TripleEnd(s, p, quote) == Some(e) <==>
            p + 3 <= e <= |s| && TripleAt(s, e - 3, quote) && TripleContent(s[p..e - 3], quote)
  {
    hide TripleEnd, TripleContent;
    if TripleEnd(s, p, quote) == Some(e) {
      TripleEndIsContent(s, p, e, quote);
    }
    if p + 3 <= e <= |s| && TripleAt(s, e - 3, quote) && TripleContent(s[p..e - 3], quote) {
      TripleContentSkipped(s, p, s[p..e - 3], quote);
    }
  }

  /** A quoted string is skipped whole whatever brackets and comment signs it holds: the scan
      goes on behind it at the same depth. */
  lemma StringSkipped(s: string, p: nat, t: string, quote: char, depth: nat)
    requires (quote == '"' || quote == '\'') && Content(t, quote) && depth > 0
    requires p + |t| + 1 < |s| && s[p] == quote && s[p + 1..p + 1 + |t|] == t && s[p + 1 + |t|] == quote
    requires t == "" && p + 2 < |s| ==> s[p + 2] != quote
    ensures LiteralEnd(s, p, depth) == LiteralEnd(s, p + |t| + 2, depth)
  {
    ContentSkipped(s, p + 1, t, quote);
    if t != "" {
      assert s[p + 1] == t[0];
    }
  }

  /** The same for a string in triple quotes. */
  lemma TripleStringSkipped(s: string, p: nat, t: string, quote: char, depth: nat)
    requires (quote == '"' || quote == '\'') && TripleContent(t, quote) && depth > 0
    requires p + |t| + 6 <= |s| && TripleAt(s, p, quote) && s[p + 3..p + 3 + |t|] == t
    requires TripleAt(s, p + 3 + |t|, quote)
    ensures LiteralEnd(s, p, depth) == LiteralEnd(s, p + |t| + 6, depth)
  {
    hide TripleEnd, TripleContent;
    TripleContentSkipped(s, p + 3, t, quote);
  }
}
