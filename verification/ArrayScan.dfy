/** Two scanners that find the end of an array literal (src/ascii-parser-basetype.cc): one skips
    comments, the other does not know them. */
module ArrayScan {
  // ----- which bracket matches, by counting -----------------------------------------------------

  /** The character at `i` stands behind a `#` with no line feed in between, counting from `a`. */
  predicate InComment(s: string, a: nat, i: nat)
    requires a <= i <= |s|
    decreases i
  {
    i > a && s[i - 1] != '\n' && (s[i - 1] == '#' || InComment(s, a, i - 1))
  }

  function Weight(c: char): int {
    if c == '[' then 1 else if c == ']' then -1 else 0
  }

  /** The bracket level before position `i`, when the opening bracket stands just before `a`;
      with `aware`, brackets in comments do not count. */
  function Level(s: string, a: nat, i: nat, aware: bool): int
    requires a <= i <= |s|
    decreases i
  {
    if i == a then 1
    else Level(s, a, i - 1, aware) + if aware && InComment(s, a, i - 1) then 0 else Weight(s[i - 1])
  }

  /** `e` is one past the bracket that brings the level back to zero for the first time. */
  ghost predicate Matches(s: string, a: nat, e: nat, aware: bool) {
    a < e <= |s| && Level(s, a, e, aware) == 0 && Positive(s, a, e, aware)
  }

  ghost predicate Positive(s: string, a: nat, e: nat, aware: bool)
    requires a <= e <= |s|
  {
    forall k :: a <= k < e ==> Level(s, a, k, aware) > 0
  }

  lemma MatchIsUnique(s: string, a: nat, e: nat, f: nat, aware: bool)
    requires Matches(s, a, e, aware) && Matches(s, a, f, aware)
    ensures e == f
  {
  }

  // ----- the level, counted ------------------------------------------------------------------------

  /** A `#` stands before `i` on the same line. */
  ghost predicate BehindHash(s: string, a: nat, i: nat)
    requires i <= |s|
  {
    exists j :: a <= j < i && s[j] == '#' && '\n' !in s[j..i]
  }

  lemma {:induction false} InCommentExactly(s: string, a: nat, i: nat)
    requires a <= i <= |s|
    ensures InComment(s, a, i) <==> BehindHash(s, a, i)
    decreases i
  {
    if i > a {
      InCommentExactly(s, a, i - 1);
      if InComment(s, a, i) && s[i - 1] != '#' {
        var j :| a <= j < i - 1 && s[j] == '#' && '\n' !in s[j..i - 1];
        assert s[j..i] == s[j..i - 1] + [s[i - 1]];
      } else if InComment(s, a, i) {
        assert s[i - 1..i] == ['#'];
      }
      if BehindHash(s, a, i) {
        var j :| a <= j < i && s[j] == '#' && '\n' !in s[j..i];
        assert s[j..i] == s[j..i - 1] + [s[i - 1]];
      }
    }
  }

  /** How often `c` stands in [a, i), with `aware` outside comments only. */
  ghost function Standing(s: string, a: nat, i: nat, c: char, aware: bool): set<int>
    requires i <= |s|
  {
    set k | a <= k < i && s[k] == c && !(aware && BehindHash(s, a, k))
  }

  lemma {:induction false} LevelIsCount(s: string, a: nat, i: nat, aware: bool)
    requires a <= i <= |s|
    ensures Level(s, a, i, aware) == 1 + |Standing(s, a, i, '[', aware)| - |Standing(s, a, i, ']', aware)|
    decreases i
  {
    if i > a {
      LevelIsCount(s, a, i - 1, aware);
      InCommentExactly(s, a, i - 1);
      OneMoreStanding(s, a, i, '[', aware);
      OneMoreStanding(s, a, i, ']', aware);
    } else {
      assert Standing(s, a, i, '[', aware) == {} && Standing(s, a, i, ']', aware) == {};
    }
  }

  lemma OneMoreStanding(s: string, a: nat, i: nat, c: char, aware: bool)
    requires a < i <= |s|
    ensures var more := s[i - 1] == c && !(aware && BehindHash(s, a, i - 1));
      |Standing(s, a, i, c, aware)| == |Standing(s, a, i - 1, c, aware)| + if more then 1 else 0
  {
    hide BehindHash;
    var before, after := Standing(s, a, i - 1, c, aware), Standing(s, a, i, c, aware);
    if s[i - 1] == c && !(aware && BehindHash(s, a, i - 1)) {
      assert after == before + {i - 1};
    } else {
      assert after == before;
    }
  }

  /** The scanners' position, counted: behind `a`, opening brackets and the one before `a` are as
      many as closing ones for the first time.  The comment-aware scanner counts only those with no
      `#` before them on their line. */
  lemma MatchesExactly(s: string, a: nat, e: nat, aware: bool)
    requires a <= e <= |s|
    ensures Matches(s, a, e, aware) <==>
      && |Standing(s, a, e, ']', aware)| == 1 + |Standing(s, a, e, '[', aware)|
      && forall k :: a <= k < e ==> |Standing(s, a, k, ']', aware)| < 1 + |Standing(s, a, k, '[', aware)|
  {
    hide Standing;
    forall k | a <= k <= e
      ensures Level(s, a, k, aware) == 1 + |Standing(s, a, k, '[', aware)| - |Standing(s, a, k, ']', aware)|
    {
      LevelIsCount(s, a, k, aware);
    }
  }

  // ----- the scanners -------------------------------------------------------------------------------

  class Scanner {
    const text: string
    var pos: nat

    ghost predicate Valid()
      reads this`pos
    {
      pos <= |text|
    }

    constructor (text: string, pos: nat)
      requires pos <= |text|
      ensures Valid() && this.text == text && this.pos == pos
    {
      this.text, this.pos := text, pos;
    }

    method Char1() returns (ok: bool, c: char)
      requires Valid()
      modifies this`pos
      ensures Valid() && ok == (old(pos) < |text|)
      ensures ok ==> pos == old(pos) + 1 && c == text[old(pos)]
      ensures !ok ==> pos == old(pos)
    {
      ok, c := pos < |text|, ' ';
      if ok {
        c, pos := text[pos], pos + 1;
      }
    }

    /** The comment-aware scanner, behind the opening bracket. */
    method ScanAware() returns (ok: bool)
      requires Valid()
      modifies this`pos
      ensures Valid()
      ensures ok ==> Matches(text, old(pos), pos, true)
      ensures !ok ==> forall e: nat :: !Matches(text, old(pos), e, true)
    {
      ghost var a := pos;
      var depth := 1;
      while depth > 0
        invariant Valid() && a <= pos && depth >= 0 && (pos == |text| || !InComment(text, a, pos))
        invariant depth == Level(text, a, pos, true) && Positive(text, a, pos, true)
        invariant depth == 0 ==> a < pos
        decreases |text| - pos, depth
      {
        var c;
        ok, c := Char1();
        if !ok { return; }
        if c == '#' {
          var more := true;
          while more
            invariant Valid() && a < pos && depth == Level(text, a, pos, true) && Positive(text, a, pos, true)
                && depth > 0
            invariant more ==> c != '\n' && InComment(text, a, pos)
            invariant !more ==> !InComment(text, a, pos) || pos == |text|
            decreases |text| - pos, more
          {
            more, c := Char1();
            if more && c == '\n' {
              more := false;
            }
          }
        } else if c == '[' {
          depth := depth + 1;
        } else if c == ']' {
          depth := depth - 1;
        }
      }
      ok := true;
    }

    /** The comment-blind scanner. */
    method ScanBlind() returns (ok: bool)
      requires Valid()
      modifies this`pos
      ensures Valid()
      ensures ok ==> Matches(text, old(pos), pos, false)
      ensures !ok ==> forall e: nat :: !Matches(text, old(pos), e, false)
    {
      ghost var a := pos;
      var depth := 1;
      while depth > 0
        invariant Valid() && a <= pos && depth >= 0
        invariant depth == Level(text, a, pos, false) && Positive(text, a, pos, false)
        invariant depth == 0 ==> a < pos
        decreases |text| - pos, depth
      {
        var c;
        ok, c := Char1();
        if !ok { return; }
        if c == '[' {
          depth := depth + 1;
        } else if c == ']' {
          depth := depth - 1;
        }
      }
      ok := true;
    }
  }

  // ----- where the scanners agree ----------------------------------------------------------------

  /** The text with its comments, counted from `a`, turned into spaces. */
  function Blanked(s: string, a: nat): (t: string)
    ensures |t| == |s|
  {
    seq(|s|, i requires 0 <= i < |s| =>
      if a <= i && s[i] != '\n' && (s[i] == '#' || InComment(s, a, i)) then ' ' else s[i])
  }

  lemma {:induction false} BlankedLevel(s: string, a: nat, i: nat)
    requires a <= i <= |s|
    ensures Level(Blanked(s, a), a, i, false) == Level(s, a, i, true)
    decreases i
  {
    if i > a {
      BlankedLevel(s, a, i - 1);
    }
  }

  /** For every text, the comment-aware scanner stops where the comment-blind one stops on the
      text with its comments blanked. */
  lemma AwareIsBlindOnBlanked(s: string, a: nat, e: nat)
    ensures Matches(s, a, e, true) <==> Matches(Blanked(s, a), a, e, false)
  {
    forall k | a <= k <= |s| ensures Level(Blanked(s, a), a, k, false) == Level(s, a, k, true) {
      BlankedLevel(s, a, k);
    }
  }

  lemma {:induction false} NoCommentLevel(s: string, a: nat, i: nat)
    requires a <= i <= |s| && forall k :: a <= k < i ==> s[k] != '#'
    ensures !InComment(s, a, i) && Level(s, a, i, true) == Level(s, a, i, false)
    decreases i
  {
    if i > a {
      NoCommentLevel(s, a, i - 1);
    }
  }

  /** With no `#` before the stop of either scanner, the other stops at the same place. */
  lemma ScannersAgree(s: string, a: nat, e: nat)
    requires a <= e <= |s| && forall k :: a <= k < e ==> s[k] != '#'
    ensures Matches(s, a, e, true) <==> Matches(s, a, e, false)
  {
    forall k | a <= k <= e ensures Level(s, a, k, true) == Level(s, a, k, false) {
      NoCommentLevel(s, a, k);
    }
  }

  /** With no `#` at all, both fail or both stop. */
  lemma ScannersFailTogether(s: string, a: nat)
    requires a <= |s| && forall k :: a <= k < |s| ==> s[k] != '#'
    ensures (exists e: nat :: Matches(s, a, e, true)) <==> (exists e: nat :: Matches(s, a, e, false))
  {
    forall e: nat | a <= e <= |s| ensures Matches(s, a, e, true) <==> Matches(s, a, e, false) {
      ScannersAgree(s, a, e);
    }
  }

  /** The summed weight of the brackets in comments before `i`. */
  function Hidden(s: string, a: nat, i: nat): int
    requires a <= i <= |s|
    decreases i
  {
    if i == a then 0 else Hidden(s, a, i - 1) + if InComment(s, a, i - 1) then Weight(s[i - 1]) else 0
  }

  lemma {:induction false} HiddenLevel(s: string, a: nat, i: nat)
    requires a <= i <= |s|
    ensures Level(s, a, i, false) == Level(s, a, i, true) + Hidden(s, a, i)
    decreases i
  {
    if i > a {
      HiddenLevel(s, a, i - 1);
    }
  }

  /** Up to `e` the brackets in comments balance, and never take back the last open bracket. */
  ghost predicate CommentsHarmless(s: string, a: nat, e: nat)
    requires a <= e <= |s|
  {
    Hidden(s, a, e) == 0 && forall k :: a <= k < e ==> Level(s, a, k, true) + Hidden(s, a, k) > 0
  }

  /** Where the aware scanner stops, the blind one stops if and only if the brackets in comments
      are harmless up to there. */
  lemma BlindAgreesExactly(s: string, a: nat, e: nat)
    requires Matches(s, a, e, true)
    ensures Matches(s, a, e, false) <==> CommentsHarmless(s, a, e)
  {
    forall k | a <= k <= e ensures Level(s, a, k, false) == Level(s, a, k, true) + Hidden(s, a, k) {
      HiddenLevel(s, a, k);
    }
  }

  /** Where the blind scanner stops, the aware one stops if and only if taking away the brackets
      in comments changes neither the last level nor the sign of an earlier one. */
  lemma AwareAgreesExactly(s: string, a: nat, e: nat)
    requires Matches(s, a, e, false)
    ensures Matches(s, a, e, true) <==>
            Hidden(s, a, e) == 0 && forall k :: a <= k < e ==> Level(s, a, k, false) - Hidden(s, a, k) > 0
  {
    HiddenLevel(s, a, e);
    forall k | a <= k < e ensures Level(s, a, k, true) == Level(s, a, k, false) - Hidden(s, a, k) {
      HiddenLevel(s, a, k);
    }
    if Matches(s, a, e, true) {
      assert forall k :: a <= k < e ==> Level(s, a, k, false) - Hidden(s, a, k) > 0;
    } else if Hidden(s, a, e) == 0 {
      var k :| a <= k < e && Level(s, a, k, true) <= 0;
      assert Level(s, a, k, false) - Hidden(s, a, k) <= 0;
    }
  }

  /** No bracket before `e` stands in a comment. */
  ghost predicate NoBracketInComment(s: string, a: nat, e: nat)
    requires a <= e <= |s|
  {
    forall k :: a <= k < e && InComment(s, a, k) ==> s[k] != '[' && s[k] != ']'
  }

  lemma {:induction false} NothingHidden(s: string, a: nat, i: nat)
    requires a <= i <= |s| && NoBracketInComment(s, a, i)
    ensures Hidden(s, a, i) == 0
    decreases i
  {
    if i > a {
      NothingHidden(s, a, i - 1);
    }
  }

  /** With no bracket in a comment before the stop of either scanner, the other stops at the
      same place. */
  lemma ScannersAgreeWithoutBrackets(s: string, a: nat, e: nat)
    requires a <= e <= |s| && NoBracketInComment(s, a, e)
    ensures Matches(s, a, e, true) <==> Matches(s, a, e, false)
  {
    forall k | a <= k <= e ensures Level(s, a, k, false) == Level(s, a, k, true) {
      HiddenLevel(s, a, k);
      NothingHidden(s, a, k);
    }
  }

  /** A closing bracket in a comment stops the blind scanner early. */
  lemma BlindStopsInComment()
    ensures Matches("#]\n]", 0, 2, false) && Matches("#]\n]", 0, 4, true)
  {
  }
}
