/** A reader and a printer of whole numbers that meet every assumption of the time-sample laws,
    and the texts on which the loops do what one might not expect. */
module TimeSampleExamples {
  import opened Chars
  import opened Options
  import opened CharReader
  import opened Decimals
  import opened Texts
  import opened TimeSamples
  import opened TimeSampleLaws
  import opened TimeSampleEnds

  // ----- decimal numbers --------------------------------------------------------------------------

  function DigitsEnd(s: string, p: nat): (q: nat)
    requires p <= |s|
    ensures p <= q <= |s| && AllDigits(s[p..q]) && (q < |s| ==> !IsDigit(s[q]))
    decreases |s| - p
  {
    if p < |s| && IsDigit(s[p]) then
      var q := DigitsEnd(s, p + 1);
      assert s[p..q] == [s[p]] + s[p + 1..q];
      q
    else p
  }

  /** The longest run of digits, as a number. */
  function ReadWhole(s: string, p: nat): Option<(real, nat)> {
    if p < |s| && IsDigit(s[p]) then Some((Number(s[p..DigitsEnd(s, p)]) as real, DigitsEnd(s, p))) else None
  }

  function PrintWhole(x: real): string {
    if x >= 0.0 then Decimal(x.Floor) else "0"
  }

  predicate IsWhole(x: real) { x >= 0.0 && x.Floor as real == x }

  lemma WholeReader()
    ensures IsNumberReader(ReadWhole) && TakesInput(ReadWhole) && StopsBeforeNul(ReadWhole)
  {
    forall s: string, p: nat | ReadWhole(s, p).Some?
      ensures var q := ReadWhole(s, p).value.1; p < q <= |s| && s[q - 1] != ':' && s[q - 1] != NUL
    {
      var q := DigitsEnd(s, p);
      assert s[p..q][q - 1 - p] == s[q - 1];
    }
  }

  lemma {:induction false} DigitsEndIs(s: string, p: nat, q: nat)
    requires p <= q <= |s| && (forall i :: p <= i < q ==> IsDigit(s[i])) && (q < |s| ==> !IsDigit(s[q]))
    ensures DigitsEnd(s, p) == q
    decreases q - p
  {
    if p < q {
      DigitsEndIs(s, p + 1, q);
    }
  }

  /** A printed whole number is read back in front of any character that is no digit. */
  lemma WholeReadsBack(x: real, s: string, p: nat, last: string)
    requires IsWhole(x) && |last| == 1 && !IsDigit(last[0]) && StandsAt(s, p, PrintWhole(x) + last)
    ensures ReadWhole(s, p) == Some((x, p + |PrintWhole(x)|))
  {
    var t := PrintWhole(x);
    StandsJoined(s, p, t, last);
    ElementAt(s, p + |t|, last, 0);
    forall i | p <= i < p + |t| ensures IsDigit(s[i]) {
      ElementAt(s, p, t, i - p);
    }
    DigitsEndIs(s, p, p + |t|);
    assert s[p..p + |t|] == t;
  }

  predicate AllWhole(ss: seq<Sample<real>>) {
    forall i :: 0 <= i < |ss| ==> IsWhole(ss[i].time) && (ss[i].value.Some? ==> IsWhole(ss[i].value.value))
  }

  lemma WholeVisible(x: real)
    ensures var t := PrintWhole(x); StartsVisibly(t) && t[0] != '}' && !NoneAt(t, 0)
  {
    var t := PrintWhole(x);
    if NoneAt(t, 0) {
      NoneChars(t, 0);
    }
  }

  lemma WholeTimeInverts(x: real)
    requires IsWhole(x)
    ensures TimeInverts(ReadWhole, PrintWhole, x)
  {
    WholeVisible(x);
    forall s: string, p: nat | StandsAt(s, p, PrintWhole(x) + ":")
      ensures ReadWhole(s, p) == Some((x, p + |PrintWhole(x)|))
    {
      WholeReadsBack(x, s, p, ":");
    }
  }

  lemma WholeValueInverts(x: real)
    requires IsWhole(x)
    ensures ValueInverts(ReadWhole, PrintWhole, x)
  {
    WholeVisible(x);
    forall s: string, p: nat | StandsAt(s, p, PrintWhole(x) + ",")
      ensures ReadWhole(s, p) == Some((x, p + |PrintWhole(x)|))
    {
      WholeReadsBack(x, s, p, ",");
    }
    forall s: string, p: nat | StandsAt(s, p, PrintWhole(x) + "\n")
      ensures ReadWhole(s, p) == Some((x, p + |PrintWhole(x)|))
    {
      WholeReadsBack(x, s, p, "\n");
    }
  }

  /** One reader and one printer that meet all assumptions together, on every list of whole
      numbers. */
  lemma AssumptionsAreMet(ss: seq<Sample<real>>)
    requires AllWhole(ss)
    ensures IsNumberReader(ReadWhole) && TakesInput(ReadWhole) && StopsBeforeNul(ReadWhole)
    ensures ListInverts(ReadWhole, ReadWhole, PrintWhole, PrintWhole, ss)
  {
    WholeReader();
    forall i | 0 <= i < |ss| ensures SampleInverts(ReadWhole, ReadWhole, PrintWhole, PrintWhole, ss[i]) {
      WholeTimeInverts(ss[i].time);
      if ss[i].value.Some? {
        WholeValueInverts(ss[i].value.value);
      }
    }
  }

  lemma Indents()
    ensures AllSpaces("    ") && AllSpaces("")
  {
  }

  /** So printed samples of whole numbers are read back without any assumption. */
  lemma WholeSamplesReadBack(ss: seq<Sample<real>>, before: string, after: string)
    requires AllWhole(ss)
    ensures IsNumberReader(ReadWhole) && TakesInput(ReadWhole)
    ensures var text := BlockText(PrintWhole, PrintWhole, ss, "    ", "");
      ReadBlock(ReadWhole, ReadWhole, before + text + after, |before|) == Some((ss, |before| + |text|))
  {
    AssumptionsAreMet(ss);
    hide BlockText, ReadBlock, ListInverts, IsNumberReader, TakesInput, StopsBeforeNul;
    hide ReadWhole, PrintWhole, AllSpaces, AllWhole;
    assert AllSpaces("    ") && AllSpaces("") by { Indents(); }
    PrintedBlockIsRead(ReadWhole, ReadWhole, PrintWhole, PrintWhole, ss, "    ", "", before, after);
  }

  // ----- the texts ------------------------------------------------------------------------------------

  const ONE := Sample(1.0, Some(1.0))

  /** `{1:1` at the start of a text, before a character that is neither a digit nor a blank. */
  lemma FirstPair(s: string)
    requires |s| > 4 && s[0] == '{' && s[1] == '1' && s[2] == ':' && s[3] == '1'
    requires !IsDigit(s[4]) && !IsSpace(s[4]) && s[4] != NUL
    ensures IsNumberReader(ReadWhole) && TakesInput(ReadWhole)
    ensures Expect(s, 0, '{') == Some(1) && GapEnd(s, 1) == 1
    ensures ReadPair(ReadWhole, ReadWhole, s, 1) == Some((ONE, 4))
  {
    WholeReader();
    DigitsEndIs(s, 1, 2);
    DigitsEndIs(s, 3, 4);
    assert s[1..2] == "1" && s[3..4] == "1";
    assert Number("1") == 1 by {
      assert "1"[..0] == "";
    }
    SkipSpaceHere(s, 0);
    SkipSpaceHere(s, 2);
    SkipSpaceHere(s, 3);
    if NoneAt(s, 3) {
      NoneChars(s, 3);
    }
    PairUnfolds(ReadWhole, ReadWhole, s, 1);
  }

  /** A block without its closing brace is accepted. */
  lemma UnclosedIsAccepted()
    ensures IsNumberReader(ReadWhole) && TakesInput(ReadWhole)
    ensures ReadBlock(ReadWhole, ReadWhole, "{1:1,", 0) == Some(([ONE], 5))
  {
    var s := "{1:1,";
    FirstPair(s);
    SkipSpaceHere(s, 4);
    assert ReadSeparator(s, 4) == Goes(5);
    assert [ONE] + [] == [ONE];
  }

  /** A block that fails leaves the sample before the mistake behind. */
  lemma FailureLeavesSample()
    ensures IsNumberReader(ReadWhole) && TakesInput(ReadWhole)
    ensures ReadBlock(ReadWhole, ReadWhole, "{1:1,x", 0) == None
    ensures BlockPrefix(ReadWhole, ReadWhole, "{1:1,x", 0) == [ONE]
  {
    hide IsNumberReader, TakesInput, Expect, GapEnd, SkipSpace;
    var s := "{1:1,x";
    FirstPair(s);
    NoPairAtX(s);
    assert [ONE] + [] == [ONE];
  }

  lemma NoPairAtX(s: string)
    requires s == "{1:1,x" && IsNumberReader(ReadWhole) && TakesInput(ReadWhole)
    ensures ReadSeparator(s, 4) == Goes(5) && ReadPair(ReadWhole, ReadWhole, s, 5) == None
  {
    SkipSpaceHere(s, 4);
  }

  /** The reader of whole numbers reads every text with a semicolon as the one with a comma in
      its place. */
  lemma WholeReadsAlike(s: string, p: nat)
    requires p < |s| && s[p] == ';'
    ensures ReadAlike(ReadWhole, s, s[p := ','], p)
  {
    var t := s[p := ','];
    forall x: nat ensures ReadWhole(t, x) == ReadWhole(s, x) {
      if x < |s| && IsDigit(s[x]) {
        var q := DigitsEnd(s, x);
        forall i | x <= i < q ensures IsDigit(s[i]) {
          assert s[i] == s[x..q][i - x];
        }
        DigitsEndIs(t, x, q);
        assert t[x..q] == s[x..q];
      }
    }
  }

  /** At the end of the input a semicolon fails where a comma is accepted. */
  lemma SemicolonFailsAtEnd()
    ensures IsNumberReader(ReadWhole) && TakesInput(ReadWhole)
    ensures ReadBlock(ReadWhole, ReadWhole, "{1:1;", 0) == None
    ensures ReadBlock(ReadWhole, ReadWhole, "{1:1,", 0) == Some(([ONE], 5))
  {
    hide IsNumberReader, TakesInput, ReadBlock, ReadWhole, ReadPair, Expect, GapEnd, SkipSpace, ReadAlike;
    var s := "{1:1;";
    FirstPair(s);
    SkipSpaceHere(s, 4);
    WholeReadsAlike(s, 4);
    assert GapEnd(s, 5) == 5 by { NothingLeft(s); }
    CommaForSemicolonInBlock(ReadWhole, ReadWhole, s, 0, 4, [ONE]);
    assert s[4 := ','] == "{1:1,";
  }

  lemma NothingLeft(s: string)
    ensures GapEnd(s, |s|) == |s|
  {
  }
}
