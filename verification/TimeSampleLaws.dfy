/** The fast path is transparent, and printed time samples are read back. */
module TimeSampleLaws {
  import opened Options
  import opened CharReader
  import opened Texts
  import opened TimeSamples

  // ----- typed and generic loop agree -----------------------------------------------------------

  /** The typed reader and the generic reader read the same values from the same places. */
  ghost predicate Agree<V(!new)>(typed: ReadFn<V>, generic: ReadFn<V>) {
    forall s: string, p: nat :: typed(s, p) == generic(s, p)
  }

  lemma PairsAgree<V(!new)>(rt: ReadFn<real>, typed: ReadFn<V>, generic: ReadFn<V>, s: string, p: nat)
    requires IsNumberReader(rt) && TakesInput(typed) && TakesInput(generic) && Agree(typed, generic) && p <= |s|
    ensures ReadPair(rt, typed, s, p) == ReadPair(rt, generic, s, p)
  {
  }

  lemma {:induction false} SamplesAgree<V(!new)>(rt: ReadFn<real>, typed: ReadFn<V>, generic: ReadFn<V>, s: string,
      p: nat)
    requires IsNumberReader(rt) && TakesInput(typed) && TakesInput(generic) && Agree(typed, generic) && p <= |s|
    ensures ReadSamples(rt, typed, s, p) == ReadSamples(rt, generic, s, p)
    ensures Prefix(rt, typed, s, p) == Prefix(rt, generic, s, p)
    decreases |s| - p
  {
    hide IsNumberReader, TakesInput, ReadPair, ReadSeparator, Agree;
    if !Ended(s, p) && s[p] != '}' {
      PairsAgree(rt, typed, generic, s, p);
      if ReadPair(rt, typed, s, p).Some? {
        var sep := ReadSeparator(s, ReadPair(rt, typed, s, p).value.1);
        if sep.Goes? {
          SamplesAgree(rt, typed, generic, s, sep.pos);
        }
      }
    }
  }

  /** With agreeing readers the typed loop accepts what the generic loop accepts, stops where
      it stops and collects what it collects, so that trying it first changes nothing. */
  lemma FastPathIsTransparent<T(!new), V(!new)>(rt: ReadFn<real>, typed: ReadFn<T>, generic: ReadFn<V>, box: T -> V,
      s: string, p: nat)
    requires IsNumberReader(rt) && TakesInput(Boxed(typed, box)) && TakesInput(generic) && p <= |s|
    requires Agree(Boxed(typed, box), generic)
    ensures ReadBlock(rt, Boxed(typed, box), s, p) == ReadBlock(rt, generic, s, p)
    ensures BlockPrefix(rt, Boxed(typed, box), s, p) == BlockPrefix(rt, generic, s, p)
  {
    hide IsNumberReader, TakesInput, ReadSamples, Prefix, Boxed, Agree;
    match Expect(s, p, '{')
    case None =>
    case Some(q) => SamplesAgree(rt, Boxed(typed, box), generic, s, GapEnd(s, q));
  }

  // ----- printing (src/timesamples-pprint.cc, pprint_timesamples) ----------------------------------

  predicate AllSpaces(t: string) { forall i :: 0 <= i < |t| ==> t[i] == ' ' }

  predicate StartsVisibly(t: string) { t != "" && !IsGap(t[0]) && t[0] != NUL }

  /** The number reader inverts the number printer on `t` in front of a colon. */
  ghost predicate TimeInverts(rt: ReadFn<real>, pt: real -> string, t: real) {
    && StartsVisibly(pt(t)) && pt(t)[0] != '}'
    && forall s: string, p: nat :: StandsAt(s, p, pt(t) + ":") ==> rt(s, p) == Some((t, p + |pt(t)|))
  }

  /** The value reader inverts the value printer on `v` in front of a comma or a line feed. */
  ghost predicate ValueInverts<V(!new)>(rv: ReadFn<V>, pv: V -> string, v: V) {
    && StartsVisibly(pv(v)) && !NoneAt(pv(v), 0)
    && (forall s: string, p: nat :: StandsAt(s, p, pv(v) + ",") ==> rv(s, p) == Some((v, p + |pv(v)|)))
    && forall s: string, p: nat :: StandsAt(s, p, pv(v) + "\n") ==> rv(s, p) == Some((v, p + |pv(v)|))
  }

  ghost predicate SampleInverts<V(!new)>(rt: ReadFn<real>, rv: ReadFn<V>, pt: real -> string, pv: V -> string,
      x: Sample<V>) {
    TimeInverts(rt, pt, x.time) && (x.value.Some? ==> ValueInverts(rv, pv, x.value.value))
  }

  /** The readers invert the printers on the times and values of the list. */
  ghost predicate ListInverts<V(!new)>(rt: ReadFn<real>, rv: ReadFn<V>, pt: real -> string, pv: V -> string,
      ss: seq<Sample<V>>) {
    forall i :: 0 <= i < |ss| ==> SampleInverts(rt, rv, pt, pv, ss[i])
  }

  function ValueText<V>(pv: V -> string, x: Sample<V>): string {
    match x.value case Some(v) => pv(v) case None => "None"
  }

  /** One line per sample, with a comma after all but the last, then the brace. */
  function SamplesText<V>(pt: real -> string, pv: V -> string, ss: seq<Sample<V>>, inner: string,
      outer: string): string {
    if ss == [] then outer + "}"
    else inner + pt(ss[0].time) + ": " + ValueText(pv, ss[0]) + (if |ss| > 1 then ",\n" else "\n")
         + SamplesText(pt, pv, ss[1..], inner, outer)
  }

  function BlockText<V>(pt: real -> string, pv: V -> string, ss: seq<Sample<V>>, inner: string, outer: string): string {
    "{\n" + SamplesText(pt, pv, ss, inner, outer)
  }

  /** The parts of the text of a nonempty list, in place. */
  lemma LineParts<V>(pt: real -> string, pv: V -> string, ss: seq<Sample<V>>, inner: string, outer: string, s: string,
      p: nat)
    requires ss != [] && StandsAt(s, p, SamplesText(pt, pv, ss, inner, outer))
    ensures var q := p + |inner|; var c := q + |pt(ss[0].time)|; var v := c + 2; var d := v + |ValueText(pv, ss[0])|;
      var tail := if |ss| > 1 then ",\n" else "\n"; var rest := SamplesText(pt, pv, ss[1..], inner, outer);
      && StandsAt(s, p, inner) && StandsAt(s, q, pt(ss[0].time) + ":") && StandsAt(s, c, ": ")
      && StandsAt(s, v, ValueText(pv, ss[0]) + tail[..1]) && StandsAt(s, d, tail)
      && StandsAt(s, d + |tail|, rest)
      && p + |SamplesText(pt, pv, ss, inner, outer)| == d + |tail| + |rest|
  {
    hide SamplesText, StandsAt, ValueText;
    var t, v := pt(ss[0].time), ValueText(pv, ss[0]);
    var tail := if |ss| > 1 then ",\n" else "\n";
    var rest := SamplesText(pt, pv, ss[1..], inner, outer);
    LineText(pt, pv, ss, inner, outer);
    var q, c := p + |inner|, p + |inner| + |t|;
    var d := c + 2 + |v|;
    StandsJoined(s, p, inner, t + (": " + (v + (tail + rest))));
    StandsJoined(s, q, t, ": " + (v + (tail + rest)));
    StandsJoined(s, c, ": ", v + (tail + rest));
    StandsJoined(s, c + 2, v, tail + rest);
    StandsJoined(s, d, tail, rest);
    assert ": " == ":" + " ";
    StandsJoined(s, c, ":", " ");
    StandsJoined(s, q, t, ":");
    assert tail == tail[..1] + tail[1..];
    StandsJoined(s, d, tail[..1], tail[1..]);
    StandsJoined(s, c + 2, v, tail[..1]);
  }

  lemma LineText<V>(pt: real -> string, pv: V -> string, ss: seq<Sample<V>>, inner: string, outer: string)
    requires ss != []
    ensures var tail := if |ss| > 1 then ",\n" else "\n";
      SamplesText(pt, pv, ss, inner, outer)
      == inner + (pt(ss[0].time) + (": " + (ValueText(pv, ss[0])
         + (tail + SamplesText(pt, pv, ss[1..], inner, outer)))))
  {
  }

  lemma SpacesSkipped(s: string, p: nat, spaces: string)
    requires AllSpaces(spaces) && StandsAt(s, p, spaces)
    requires var q := p + |spaces|; q < |s| && s[q] != NUL && !IsGap(s[q])
    ensures GapEnd(s, p) == p + |spaces|
  {
  }

  lemma TimeReads<V(!new)>(rt: ReadFn<real>, rv: ReadFn<V>, pt: real -> string, pv: V -> string, x: Sample<V>,
      s: string, p: nat)
    requires SampleInverts(rt, rv, pt, pv, x) && StandsAt(s, p, pt(x.time) + ":")
    ensures rt(s, p) == Some((x.time, p + |pt(x.time)|))
  {
  }

  lemma ValueReads<V(!new)>(rt: ReadFn<real>, rv: ReadFn<V>, pt: real -> string, pv: V -> string, x: Sample<V>,
      s: string, p: nat, last: string)
    requires SampleInverts(rt, rv, pt, pv, x)
    requires (last == "," || last == "\n") && StandsAt(s, p, ValueText(pv, x) + last)
    ensures StartsVisibly(ValueText(pv, x) + last)
    ensures x.value.None? ==> NoneAt(s, p)
    ensures x.value.Some? ==> !NoneAt(s, p) && rv(s, p) == Some((x.value.value, p + |ValueText(pv, x)|))
  {
    if x.value.None? {
      StandsJoined(s, p, "None", last);
    } else if NoneAt(s, p) {
      NoneInside(s, p, pv(x.value.value), last);
    }
  }

  /** A printed pair is read. */
  lemma PairRead<V(!new)>(rt: ReadFn<real>, rv: ReadFn<V>, pt: real -> string, pv: V -> string, x: Sample<V>, s: string,
      q: nat, last: string)
    requires IsNumberReader(rt) && TakesInput(rv) && SampleInverts(rt, rv, pt, pv, x) && (last == "," || last == "\n")
    requires var c := q + |pt(x.time)|;
      StandsAt(s, q, pt(x.time) + ":") && StandsAt(s, c, ": ") && StandsAt(s, c + 2, ValueText(pv, x) + last)
    ensures ReadPair(rt, rv, s, q) == Some((x, q + |pt(x.time)| + 2 + |ValueText(pv, x)|))
  {
    hide IsNumberReader, TakesInput, SampleInverts, StandsAt;
    var c := q + |pt(x.time)|;
    ElementAt(s, c, ": ", 0);
    ElementAt(s, c, ": ", 1);
    TimeReads(rt, rv, pt, pv, x, s, q);
    ValueReads(rt, rv, pt, pv, x, s, c + 2, last);
    ElementAt(s, c + 2, ValueText(pv, x) + last, 0);
    SkipSpaceHere(s, c);
    assert SkipSpace(s, c + 1) == Some(c + 2) by {
      assert SpaceEnd(s, c + 2) == c + 2;
    }
    PairUnfolds(rt, rv, s, q);
  }

  lemma NoneChars(s: string, p: nat)
    requires NoneAt(s, p)
    ensures s[p] == 'N' && s[p + 1] == 'o' && s[p + 2] == 'n' && s[p + 3] == 'e'
  {
  }

  lemma NoneInside(s: string, p: nat, t: string, last: string)
    requires StandsAt(s, p, t + last) && NoneAt(s, p) && (last == "," || last == "\n")
    ensures NoneAt(t, 0)
  {
    NoneChars(s, p);
    if |t| < 4 {
      ElementAt(s, p, t + last, |t|);
    } else {
      assert t[0..4] == (t + last)[..4] == s[p..p + |t + last|][..4];
    }
  }

  lemma {:induction false} SamplesRead<V(!new)>(rt: ReadFn<real>, rv: ReadFn<V>, pt: real -> string, pv: V -> string,
      ss: seq<Sample<V>>, inner: string, outer: string, s: string, p: nat)
    requires IsNumberReader(rt) && TakesInput(rv) && ListInverts(rt, rv, pt, pv, ss)
    requires AllSpaces(inner) && AllSpaces(outer) && StandsAt(s, p, SamplesText(pt, pv, ss, inner, outer))
    ensures ReadSamples(rt, rv, s, GapEnd(s, p)) == Some((ss, p + |SamplesText(pt, pv, ss, inner, outer)|))
    decreases |ss|
  {
    hide IsNumberReader, TakesInput, SampleInverts, ReadPair, SamplesText, StandsAt, ValueText, ReadSeparator,
      AllSpaces, GapEnd, ReadSamples;
    if ss == [] {
      EmptyRead(pt, pv, inner, outer, s, p);
      CloseRead(rt, rv, s, p + |outer|);
    } else {
      LineParts(pt, pv, ss, inner, outer, s, p);
      var q := p + |inner|;
      var d := q + |pt(ss[0].time)| + 2 + |ValueText(pv, ss[0])|;
      var tail := if |ss| > 1 then ",\n" else "\n";
      ElementAt(s, q, pt(ss[0].time) + ":", 0);
      TimeVisible(rt, rv, pt, pv, ss[0]);
      SpacesSkipped(s, p, inner);
      PairRead(rt, rv, pt, pv, ss[0], s, q, tail[..1]);
      ElementAt(s, d, tail, 0);
      ElementAt(s, d, tail, |tail| - 1);
      GapLineFeed(s, d + |tail| - 1);
      SampleStep(rt, rv, s, q);
      if |ss| > 1 {
        SamplesRead(rt, rv, pt, pv, ss[1..], inner, outer, s, d + 2);
        SeparatorComma(s, d);
        assert [ss[0]] + ss[1..] == ss;
      } else {
        assert ss[1..] == [] && ss == [ss[0]];
        EmptyRead(pt, pv, inner, outer, s, d + 1);
        SeparatorBrace(s, d);
      }
    }
  }

  lemma CloseRead<V(!new)>(rt: ReadFn<real>, rv: ReadFn<V>, s: string, p: nat)
    requires IsNumberReader(rt) && TakesInput(rv) && p < |s| && s[p] == '}'
    ensures ReadSamples(rt, rv, s, p) == Some(([], p + 1))
  {
  }

  lemma SampleStep<V(!new)>(rt: ReadFn<real>, rv: ReadFn<V>, s: string, p: nat)
    requires IsNumberReader(rt) && TakesInput(rv) && p < |s| && s[p] != NUL && s[p] != '}'
        && ReadPair(rt, rv, s, p).Some?
    ensures var x := ReadPair(rt, rv, s, p).value;
      match ReadSeparator(s, x.1)
      case Bad => true
      case Ends(r) => ReadSamples(rt, rv, s, p) == Some(([x.0], r))
      case Goes(r) =>
        ReadSamples(rt, rv, s, r).Some? ==>
          ReadSamples(rt, rv, s, p) == Some(([x.0] + ReadSamples(rt, rv, s, r).value.0,
              ReadSamples(rt, rv, s, r).value.1))
  {
  }

  lemma GapLineFeed(s: string, p: nat)
    requires p < |s| && s[p] == '\n'
    ensures GapEnd(s, p) == GapEnd(s, p + 1)
  {
  }

  lemma TimeVisible<V(!new)>(rt: ReadFn<real>, rv: ReadFn<V>, pt: real -> string, pv: V -> string, x: Sample<V>)
    requires SampleInverts(rt, rv, pt, pv, x)
    ensures var t := pt(x.time); StartsVisibly(t) && t[0] != '}' && t[0] == (t + ":")[0]
  {
  }

  lemma SeparatorComma(s: string, d: nat)
    requires d < |s| && s[d] == ','
    ensures ReadSeparator(s, d) == Goes(GapEnd(s, d + 1))
  {
  }

  lemma SeparatorBrace(s: string, d: nat)
    requires d < |s| && s[d] == '\n' && GapEnd(s, d) < |s| && s[GapEnd(s, d)] == '}'
    ensures ReadSeparator(s, d) == Ends(GapEnd(s, d) + 1)
  {
  }

  lemma EmptyRead<V>(pt: real -> string, pv: V -> string, inner: string, outer: string, s: string, p: nat)
    requires AllSpaces(outer) && StandsAt(s, p, SamplesText(pt, pv, [], inner, outer))
    ensures var q := p + |outer|; q < |s| && s[q] == '}' && GapEnd(s, p) == q
    ensures |SamplesText(pt, pv, [], inner, outer)| == |outer| + 1
  {
  }

  /** Printed time samples are read back: every list on whose times and values the readers
      invert the printers, in any surrounding text. */
  lemma PrintedBlockIsRead<V(!new)>(rt: ReadFn<real>, rv: ReadFn<V>, pt: real -> string, pv: V -> string,
      ss: seq<Sample<V>>, inner: string, outer: string, before: string, after: string)
    requires IsNumberReader(rt) && TakesInput(rv) && ListInverts(rt, rv, pt, pv, ss)
    requires AllSpaces(inner) && AllSpaces(outer)
    ensures var text := BlockText(pt, pv, ss, inner, outer);
      ReadBlock(rt, rv, before + text + after, |before|) == Some((ss, |before| + |text|))
  {
    hide IsNumberReader, TakesInput, SamplesText, ListInverts, AllSpaces, ReadSamples;
    var text := BlockText(pt, pv, ss, inner, outer);
    var s, p := before + text + after, |before|;
    assert s[p..p + |text|] == text;
    StandsJoined(s, p, "{\n", SamplesText(pt, pv, ss, inner, outer));
    ElementAt(s, p, "{\n", 0);
    ElementAt(s, p, "{\n", 1);
    SkipSpaceHere(s, p);
    SamplesRead(rt, rv, pt, pv, ss, inner, outer, s, p + 2);
    assert GapEnd(s, p + 1) == GapEnd(s, p + 2);
  }

  // ----- what a failure leaves ----------------------------------------------------------------------

  /** A pair stands at `p`, neither at the end of the input nor at a closing brace. */
  ghost predicate PairAt<V(!new)>(rt: ReadFn<real>, rv: ReadFn<V>, s: string, p: nat)
    requires IsNumberReader(rt) && TakesInput(rv) && p <= |s|
  {
    !Ended(s, p) && s[p] != '}' && ReadPair(rt, rv, s, p).Some?
  }

  /** The pairs at `ps` are `xs`, and each separator leads to the next. */
  ghost predicate PairsAt<V(!new)>(rt: ReadFn<real>, rv: ReadFn<V>, s: string, ps: seq<nat>, xs: seq<Sample<V>>)
    requires IsNumberReader(rt) && TakesInput(rv)
  {
    && |ps| == |xs| && (forall i :: 0 <= i < |ps| ==> ps[i] <= |s|)
    && (forall i :: 0 <= i < |ps| ==> PairAt(rt, rv, s, ps[i]) && ReadPair(rt, rv, s, ps[i]).value.0 == xs[i])
    && forall i :: 0 <= i < |ps| - 1 ==> ReadSeparator(s, ReadPair(rt, rv, s, ps[i]).value.1) == Goes(ps[i + 1])
  }

  /** The samples that a failure leaves are all the pairs that are read from `p` on, each behind the
      separator of the one before, up to one behind which no separator leads to another pair; when
      nothing fails, they are the samples of the block. */
  lemma {:induction false} PrefixExactly<V(!new)>(rt: ReadFn<real>, rv: ReadFn<V>, s: string, p: nat)
      returns (ps: seq<nat>)
    requires IsNumberReader(rt) && TakesInput(rv) && p <= |s|
    ensures PairsAt(rt, rv, s, ps, Prefix(rt, rv, s, p))
    ensures if ps == [] then !PairAt(rt, rv, s, p)
            else
              && ps[0] == p
              && var next := ReadSeparator(s, ReadPair(rt, rv, s, ps[|ps| - 1]).value.1);
                 next.Goes? ==> !PairAt(rt, rv, s, next.pos)
    ensures ReadSamples(rt, rv, s, p).Some? ==> ReadSamples(rt, rv, s, p).value.0 == Prefix(rt, rv, s, p)
    decreases |s| - p
  {
    hide ReadPair, ReadSeparator, IsNumberReader, TakesInput;
    ps := [];
    if PairAt(rt, rv, s, p) {
      var x := ReadPair(rt, rv, s, p).value;
      ps := [p];
      var next := ReadSeparator(s, x.1);
      if next.Goes? {
        var rest := PrefixExactly(rt, rv, s, next.pos);
        ps := [p] + rest;
      }
    }
  }
}
