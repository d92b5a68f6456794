/** Where a block may lack its closing brace, and what a semicolon between samples does. */
module TimeSampleEnds {
  import opened Options
  import opened CharReader
  import opened TimeSamples

  // ----- blocks without a closing brace ----------------------------------------------------------

  /** A token does not end in a NUL. */
  ghost predicate StopsBeforeNul<T(!new)>(read: ReadFn<T>) {
    forall s: string, p: nat :: read(s, p).Some? ==>
      var q := read(s, p).value.1; 0 < q <= |s| && s[q - 1] != NUL
  }

  /** Behind the last character before `q` that is no gap. */
  function VisibleEnd(s: string, q: nat): (k: nat)
    requires q <= |s|
    ensures k <= q && (k > 0 ==> !IsGap(s[k - 1])) && forall i :: k <= i < q ==> IsGap(s[i])
  {
    if q > 0 && IsGap(s[q - 1]) then VisibleEnd(s, q - 1) else q
  }

  /** Gaps aside, the text before `q` ends in an opening brace or in a comma. */
  predicate BehindOpener(s: string, q: nat)
    requires q <= |s|
  {
    var k := VisibleEnd(s, q);
    k > 0 && (s[k - 1] == '{' || s[k - 1] == ',')
  }

  /** The input ends at `q` behind an opening brace or a comma; or it ends there in a NUL, and
      then any gap in front of the NUL counts as a separator. */
  predicate EndsOpen(s: string, q: nat)
    requires q <= |s|
  {
    Ended(s, q) && (BehindOpener(s, q) || (q < |s| && q > 0 && IsGap(s[q - 1])))
  }

  lemma {:induction false} VisibleEndIs(s: string, k: nat, q: nat)
    requires 0 < k <= q <= |s| && !IsGap(s[k - 1]) && forall i :: k <= i < q ==> IsGap(s[i])
    ensures VisibleEnd(s, q) == k
    decreases q - k
  {
    if k < q {
      VisibleEndIs(s, k, q - 1);
    }
  }

  /** A comma or an opening brace, and the gap behind it. */
  lemma OpenerThenGap(s: string, k: nat)
    requires 0 < k <= |s| && (s[k - 1] == '{' || s[k - 1] == ',')
    ensures BehindOpener(s, GapEnd(s, k))
  {
    VisibleEndIs(s, k, GapEnd(s, k));
  }

  /** Where a separator leads to the end of the input, the input ends open. */
  lemma SeparatorLeadsOpen(s: string, d: nat)
    requires 0 < d <= |s| && s[d - 1] != NUL && ReadSeparator(s, d).Goes?
    ensures var f := ReadSeparator(s, d).pos; Ended(s, f) ==> EndsOpen(s, f)
  {
    var e := SkipSpace(s, d).value;
    if s[e] == ',' {
      OpenerThenGap(s, e + 1);
    }
  }

  /** An open end is no closing brace. */
  lemma OpenIsNotClosed(s: string, q: nat)
    requires q <= |s| && EndsOpen(s, q)
    ensures q > 0 && s[q - 1] != '}'
  {
  }

  lemma SeparatorCloses(s: string, d: nat)
    requires d <= |s| && ReadSeparator(s, d).Ends?
    ensures var q := ReadSeparator(s, d).pos; q > 0 && s[q - 1] == '}'
  {
  }

  lemma PairStops<V(!new)>(rt: ReadFn<real>, rv: ReadFn<V>, s: string, p: nat)
    requires IsNumberReader(rt) && TakesInput(rv) && StopsBeforeNul(rv) && p <= |s| && ReadPair(rt, rv, s, p).Some?
    ensures var d := ReadPair(rt, rv, s, p).value.1; 0 < d <= |s| && s[d - 1] != NUL
  {
    PairUnfolds(rt, rv, s, p);
    hide IsNumberReader, TakesInput, TimeEnd, ReadPair;
    var c := TimeEnd(rt, s, p).value.1;
    if NoneAt(s, c) {
      assert s[c + 3] == s[c..c + 4][3];
    }
  }

  /** From a place that is open where the input ends: what is accepted ends behind a closing
      brace if and only if it does not end open. */
  lemma {:induction false} AcceptedEnd<V(!new)>(rt: ReadFn<real>, rv: ReadFn<V>, s: string, p: nat)
    requires IsNumberReader(rt) && TakesInput(rv) && StopsBeforeNul(rv) && p <= |s| && ReadSamples(rt, rv, s, p).Some?
    requires Ended(s, p) ==> EndsOpen(s, p)
    ensures var q := ReadSamples(rt, rv, s, p).value.1; q > 0 && (s[q - 1] == '}' <==> !EndsOpen(s, q))
    decreases |s| - p
  {
    hide IsNumberReader, TakesInput, StopsBeforeNul, ReadPair, ReadSeparator, EndsOpen;
    var q := ReadSamples(rt, rv, s, p).value.1;
    if EndsOpen(s, q) {
      OpenIsNotClosed(s, q);
    }
    if !Ended(s, p) && s[p] != '}' {
      PairStops(rt, rv, s, p);
      var d := ReadPair(rt, rv, s, p).value.1;
      var sep := ReadSeparator(s, d);
      if sep.Ends? {
        SeparatorCloses(s, d);
      } else {
        SeparatorLeadsOpen(s, d);
        AcceptedEnd(rt, rv, s, sep.pos);
      }
    }
  }

  /** An accepted block lacks its closing brace if and only if it ends where the input does,
      gaps aside right behind an opening brace or a comma -- or at a NUL behind a gap. */
  lemma UnclosedExactly<V(!new)>(rt: ReadFn<real>, rv: ReadFn<V>, s: string, p: nat)
    requires IsNumberReader(rt) && TakesInput(rv) && StopsBeforeNul(rv) && p <= |s| && ReadBlock(rt, rv, s, p).Some?
    ensures var q := ReadBlock(rt, rv, s, p).value.1;
      && q > 0 && (s[q - 1] != '}' <==> EndsOpen(s, q))
      && (NUL !in s ==> (s[q - 1] != '}' <==> q == |s| && BehindOpener(s, |s|)))
  {
    hide IsNumberReader, TakesInput, StopsBeforeNul, ReadSamples;
    var k := Expect(s, p, '{').value;
    OpenerThenGap(s, k);
    AcceptedEnd(rt, rv, s, GapEnd(s, k));
  }

  // ----- semicolons -----------------------------------------------------------------------------------

  /** A semicolon as a separator: it ends the block where a closing brace follows behind the gap,
      goes on where anything else does, and is rejected exactly where the input ends.  A comma
      in its place always goes on. */
  lemma SemicolonSeparates(s: string, p: nat)
    requires p < |s| && s[p] == ';'
    ensures var g := GapEnd(s, p + 1);
      && ReadSeparator(s, p) == (if g == |s| then Bad else if s[g] == '}' then Ends(g + 1) else Goes(g))
      && ReadSeparator(s[p := ','], p) == Goes(g)
  {
    var t := s[p := ','];
    SkipSpaceHere(s, p);
    SkipSpaceHere(t, p);
    GapEndSame(s, p, p + 1);
  }

  lemma {:induction false} GapEndSame(s: string, p: nat, x: nat)
    requires p < x <= |s|
    ensures GapEnd(s[p := ','], x) == GapEnd(s, x)
    decreases |s| - x
  {
    if !Ended(s, x) && IsGap(s[x]) {
      GapEndSame(s, p, x + 1);
    }
  }

  lemma {:induction false} GapBeforeSame(s: string, p: nat, x: nat)
    requires x <= |s| && p < |s| && GapEnd(s, x) < p
    ensures GapEnd(s[p := ','], x) == GapEnd(s, x)
    decreases |s| - x
  {
    if !Ended(s, x) && IsGap(s[x]) {
      GapBeforeSame(s, p, x + 1);
    }
  }

  /** Neither a semicolon nor a comma is a blank. */
  lemma {:induction false} SpaceEndSame(s: string, p: nat, x: nat)
    requires p < |s| && s[p] == ';' && x <= |s|
    ensures SpaceEnd(s[p := ','], x) == SpaceEnd(s, x)
    decreases |s| - x
  {
    if !Ended(s, x) && IsSpace(s[x]) {
      SpaceEndSame(s, p, x + 1);
    }
  }

  lemma SkipSpaceSame(s: string, p: nat, x: nat)
    requires p < |s| && s[p] == ';' && x <= |s|
    ensures SkipSpace(s[p := ','], x) == SkipSpace(s, x)
  {
    SpaceEndSame(s, p, x);
  }

  lemma NoneSame(s: string, p: nat, x: nat)
    requires p < |s| && s[p] == ';'
    ensures NoneAt(s[p := ','], x) == NoneAt(s, x)
  {
    var t := s[p := ','];
    if x + 4 <= |s| {
      var v, w := s[x..x + 4], t[x..x + 4];
      if x <= p < x + 4 {
        assert v[p - x] == ';' && w[p - x] == ',';
        assert "None"[0] == 'N' && "None"[1] == 'o' && "None"[2] == 'n' && "None"[3] == 'e';
      } else {
        assert v == w;
      }
    }
  }

  /** For texts that differ at `p` only: a reader that starts behind it or has ended before it
      reads the same. */
  ghost predicate ReadAlike<T(!new)>(read: ReadFn<T>, s: string, t: string, p: nat) {
    forall x: nat :: x > p || (read(s, x).Some? && read(s, x).value.1 <= p) ==> read(t, x) == read(s, x)
  }

  /** A pair that starts behind `p` or has ended before it. */
  lemma PairSame<V(!new)>(rt: ReadFn<real>, rv: ReadFn<V>, s: string, p: nat, x: nat)
    requires IsNumberReader(rt) && TakesInput(rv) && p < |s| && s[p] == ';' && x <= |s|
    requires ReadAlike(rt, s, s[p := ','], p) && ReadAlike(rv, s, s[p := ','], p)
    requires p < x || (ReadPair(rt, rv, s, x).Some? && ReadPair(rt, rv, s, x).value.1 <= p)
    ensures ReadPair(rt, rv, s[p := ','], x) == ReadPair(rt, rv, s, x)
  {
    var t := s[p := ','];
    PairUnfolds(rt, rv, s, x);
    PairUnfolds(rt, rv, t, x);
    if TimeEnd(rt, s, x).Some? {
      TimeEndBehind(rt, s, x);
    }
    hide IsNumberReader, ReadPair, SkipSpace, NoneAt, TimeEnd;
    assert rt(t, x) == rt(s, x);
    TimeSame(rt, s, p, x);
    if TimeEnd(rt, s, x).Some? {
      NoneSame(s, p, TimeEnd(rt, s, x).value.1);
    }
  }

  /** The colon stands behind the number. */
  lemma TimeEndBehind(rt: ReadFn<real>, s: string, x: nat)
    requires IsNumberReader(rt) && x <= |s| && TimeEnd(rt, s, x).Some?
    ensures rt(s, x).Some? && x < rt(s, x).value.1 <= TimeEnd(rt, s, x).value.1
  {
  }

  lemma TimeSame(rt: ReadFn<real>, s: string, p: nat, x: nat)
    requires IsNumberReader(rt) && p < |s| && s[p] == ';' && x <= |s| && rt(s[p := ','], x) == rt(s, x)
    ensures TimeEnd(rt, s[p := ','], x) == TimeEnd(rt, s, x)
  {
    hide SkipSpace;
    if rt(s, x).Some? {
      var y := rt(s, x).value.1;
      SkipSpaceSame(s, p, y);
      if SkipSpace(s, y).Some? {
        var a := SkipSpace(s, y).value;
        SkipSpaceSame(s, p, a);
        if Expect(s, a, ':').Some? {
          SkipSpaceSame(s, p, Expect(s, a, ':').value);
        }
      }
    }
  }

  lemma SeparatorSame(s: string, p: nat, x: nat)
    requires p < |s| && s[p] == ';' && p + 1 < x <= |s|
    ensures ReadSeparator(s[p := ','], x) == ReadSeparator(s, x)
  {
    SkipSpaceSame(s, p, x);
    if SkipSpace(s, x).Some? {
      var e := SkipSpace(s, x).value;
      GapEndSame(s, p, e);
      if e < |s| {
        GapEndSame(s, p, e + 1);
      }
    }
  }

  /** Behind `p` the samples are the same. */
  lemma {:induction false} SamplesSame<V(!new)>(rt: ReadFn<real>, rv: ReadFn<V>, s: string, p: nat, x: nat)
    requires IsNumberReader(rt) && TakesInput(rv) && p < |s| && s[p] == ';' && p < x <= |s|
    requires ReadAlike(rt, s, s[p := ','], p) && ReadAlike(rv, s, s[p := ','], p)
    ensures ReadSamples(rt, rv, s[p := ','], x) == ReadSamples(rt, rv, s, x)
    decreases |s| - x
  {
    hide IsNumberReader, TakesInput, ReadAlike, ReadPair, ReadSeparator;
    if !Ended(s, x) && s[x] != '}' {
      PairSame(rt, rv, s, p, x);
      if ReadPair(rt, rv, s, x).Some? {
        var d := ReadPair(rt, rv, s, x).value.1;
        SeparatorSame(s, p, d);
        if ReadSeparator(s, d).Goes? {
          SamplesSame(rt, rv, s, p, ReadSeparator(s, d).pos);
        }
      }
    }
  }

  /** Reading from `x` collects the samples `done` and comes to a separator at `p`. */
  ghost predicate ComesTo<V(!new)>(rt: ReadFn<real>, rv: ReadFn<V>, s: string, x: nat, p: nat, done: seq<Sample<V>>)
    requires IsNumberReader(rt) && TakesInput(rv)
    decreases |done|
  {
    && done != [] && !Ended(s, x) && s[x] != '}'
    && ReadPair(rt, rv, s, x).Some? && ReadPair(rt, rv, s, x).value.0 == done[0]
    && var d := ReadPair(rt, rv, s, x).value.1;
    && if |done| == 1 then d <= p && SkipSpace(s, d) == Some(p)
       else ReadSeparator(s, d).Goes? && ComesTo(rt, rv, s, ReadSeparator(s, d).pos, p, done[1..])
  }

  lemma {:induction false} ComesFurther<V(!new)>(rt: ReadFn<real>, rv: ReadFn<V>, s: string, x: nat, p: nat,
      done: seq<Sample<V>>)
    requires IsNumberReader(rt) && TakesInput(rv) && ComesTo(rt, rv, s, x, p, done)
    ensures x < p < |s|
    decreases |done|
  {
    hide IsNumberReader, TakesInput, ReadPair, ReadSeparator;
    if |done| > 1 {
      ComesFurther(rt, rv, s, ReadSeparator(s, ReadPair(rt, rv, s, x).value.1).pos, p, done[1..]);
    }
  }

  /** The samples from the separator at `p` on, and those before it. */
  ghost function Behind<V(!new)>(rt: ReadFn<real>, rv: ReadFn<V>, s: string, p: nat, done: seq<Sample<V>>)
    : Option<(seq<Sample<V>>, nat)>
    requires IsNumberReader(rt) && TakesInput(rv) && p <= |s|
  {
    match ReadSeparator(s, p)
    case Bad => None
    case Ends(q) => Some((done, q))
    case Goes(q) =>
      match ReadSamples(rt, rv, s, q) case Some(rest) => Some((done + rest.0, rest.1)) case None => None
  }

  /** Skipping blanks before a separator makes no difference to it. */
  lemma SeparatorHere(s: string, d: nat)
    requires d <= |s| && SkipSpace(s, d).Some? && !IsSpace(s[SkipSpace(s, d).value]) && s[SkipSpace(s, d).value] != NUL
    ensures ReadSeparator(s, d) == ReadSeparator(s, SkipSpace(s, d).value)
  {
  }

  lemma {:induction false} SplitsAt<V(!new)>(rt: ReadFn<real>, rv: ReadFn<V>, s: string, x: nat, p: nat,
      done: seq<Sample<V>>)
    requires IsNumberReader(rt) && TakesInput(rv) && x <= |s| && p < |s| && !IsSpace(s[p]) && s[p] != NUL
    requires ComesTo(rt, rv, s, x, p, done)
    ensures ReadSamples(rt, rv, s, x) == Behind(rt, rv, s, p, done)
    decreases |done|
  {
    hide IsNumberReader, TakesInput, ReadPair, ReadSeparator;
    var d := ReadPair(rt, rv, s, x).value.1;
    if |done| == 1 {
      assert done == [done[0]];
      SeparatorHere(s, d);
    } else {
      var q := ReadSeparator(s, d).pos;
      SplitsAt(rt, rv, s, q, p, done[1..]);
      assert done == [done[0]] + done[1..];
      if ReadSeparator(s, p).Goes? && ReadSamples(rt, rv, s, ReadSeparator(s, p).pos).Some? {
        var rest := ReadSamples(rt, rv, s, ReadSeparator(s, p).pos).value.0;
        assert [done[0]] + (done[1..] + rest) == done + rest;
      }
    }
  }

  /** A separator that leads to a place before `p` is the same. */
  lemma EarlierSeparatorSame(s: string, p: nat, d: nat)
    requires p < |s| && s[p] == ';' && d <= |s| && ReadSeparator(s, d).Goes? && ReadSeparator(s, d).pos < p
    ensures ReadSeparator(s[p := ','], d) == ReadSeparator(s, d)
  {
    SkipSpaceSame(s, p, d);
    var e := SkipSpace(s, d).value;
    if s[e] == ',' {
      GapBeforeSame(s, p, e + 1);
    } else {
      GapBeforeSame(s, p, e);
    }
  }

  lemma PairEndsBefore<V(!new)>(rt: ReadFn<real>, rv: ReadFn<V>, s: string, x: nat, p: nat, done: seq<Sample<V>>)
    requires IsNumberReader(rt) && TakesInput(rv) && x <= |s| && ComesTo(rt, rv, s, x, p, done)
    ensures ReadPair(rt, rv, s, x).Some? && ReadPair(rt, rv, s, x).value.1 <= p < |s|
  {
    hide IsNumberReader, TakesInput, ReadPair, ReadSeparator;
    ComesFurther(rt, rv, s, x, p, done);
    if |done| > 1 {
      ComesFurther(rt, rv, s, ReadSeparator(s, ReadPair(rt, rv, s, x).value.1).pos, p, done[1..]);
    }
  }

  lemma {:induction false} ComesToSame<V(!new)>(rt: ReadFn<real>, rv: ReadFn<V>, s: string, x: nat, p: nat,
      done: seq<Sample<V>>)
    requires IsNumberReader(rt) && TakesInput(rv) && p < |s| && s[p] == ';' && x <= |s|
    requires ReadAlike(rt, s, s[p := ','], p) && ReadAlike(rv, s, s[p := ','], p) && ComesTo(rt, rv, s, x, p, done)
    ensures ComesTo(rt, rv, s[p := ','], x, p, done)
    decreases |done|
  {
    hide IsNumberReader, TakesInput, ReadAlike, ReadPair, ReadSeparator, SkipSpace;
    PairEndsBefore(rt, rv, s, x, p, done);
    PairSame(rt, rv, s, p, x);
    var d := ReadPair(rt, rv, s, x).value.1;
    if |done| == 1 {
      SkipSpaceSame(s, p, d);
    } else {
      var q := ReadSeparator(s, d).pos;
      ComesFurther(rt, rv, s, q, p, done[1..]);
      EarlierSeparatorSame(s, p, d);
      ComesToSame(rt, rv, s, q, p, done[1..]);
    }
  }

  lemma NoSamplesAt<V(!new)>(rt: ReadFn<real>, rv: ReadFn<V>, s: string, g: nat)
    requires IsNumberReader(rt) && TakesInput(rv) && g <= |s|
    ensures g == |s| ==> ReadSamples(rt, rv, s, g) == Some(([], g))
    ensures g < |s| && s[g] == '}' ==> ReadSamples(rt, rv, s, g) == Some(([], g + 1))
  {
  }

  /** A comma in place of a separating semicolon gives the same result, samples and position,
      except where the input ends, gaps aside, right behind it: there the semicolon fails and
      the comma is accepted.  For readers that read both texts alike. */
  lemma CommaForSemicolon<V(!new)>(rt: ReadFn<real>, rv: ReadFn<V>, s: string, x: nat, p: nat, done: seq<Sample<V>>)
    requires IsNumberReader(rt) && TakesInput(rv) && p < |s| && s[p] == ';' && x <= |s|
    requires ReadAlike(rt, s, s[p := ','], p) && ReadAlike(rv, s, s[p := ','], p) && ComesTo(rt, rv, s, x, p, done)
    ensures var semicolon, comma := ReadSamples(rt, rv, s, x), ReadSamples(rt, rv, s[p := ','], x);
      && (semicolon == comma <==> GapEnd(s, p + 1) < |s|)
      && (GapEnd(s, p + 1) == |s| ==> semicolon == None && comma == Some((done, |s|)))
  {
    hide IsNumberReader, TakesInput, ReadAlike, ComesTo, ReadSeparator, ReadSamples;
    var t, g := s[p := ','], GapEnd(s, p + 1);
    ComesToSame(rt, rv, s, x, p, done);
    SplitsAt(rt, rv, s, x, p, done);
    SplitsAt(rt, rv, t, x, p, done);
    SemicolonSeparates(s, p);
    SamplesSame(rt, rv, s, p, g);
    NoSamplesAt(rt, rv, s, g);
    assert done + [] == done;
  }

  /** The same for a block whose loop comes to that semicolon. */
  lemma CommaForSemicolonInBlock<V(!new)>(rt: ReadFn<real>, rv: ReadFn<V>, s: string, start: nat, p: nat,
      done: seq<Sample<V>>)
    requires IsNumberReader(rt) && TakesInput(rv) && p < |s| && s[p] == ';' && start <= |s|
    requires ReadAlike(rt, s, s[p := ','], p) && ReadAlike(rv, s, s[p := ','], p)
    requires Expect(s, start, '{').Some? && ComesTo(rt, rv, s, GapEnd(s, Expect(s, start, '{').value), p, done)
    ensures var semicolon, comma := ReadBlock(rt, rv, s, start), ReadBlock(rt, rv, s[p := ','], start);
      && (semicolon == comma <==> GapEnd(s, p + 1) < |s|)
      && (GapEnd(s, p + 1) == |s| ==> semicolon == None && comma == Some((done, |s|)))
  {
    hide IsNumberReader, TakesInput, ReadAlike, ComesTo, ReadSamples, SkipSpace;
    var q := Expect(s, start, '{').value;
    var x := GapEnd(s, q);
    ComesFurther(rt, rv, s, x, p, done);
    SkipSpaceSame(s, p, start);
    GapBeforeSame(s, p, q);
    CommaForSemicolon(rt, rv, s, x, p, done);
  }
}
