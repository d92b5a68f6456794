/** The printer of spline values (src/pprint-meta.cc, print_spline) and the exact
    condition under which reading its text gives the value back. */
module SplinePrinter {
  import opened Options
  import opened SplineSyntax
  import opened SplineMeaning

  /** A hermite tangent is printed without its width. */
  function PrintTangent(hermite: bool, width: real, slope: real, algo: int): Tangent {
    Tangent(if hermite then None else Some(width), slope, AlgoFor(algo))
  }

  predicate PreAuthored(k: KnotData) {
    k.preWidth != 0.0 || k.preSlope != 0.0 || k.preAlgo != 0
  }

  function PreSpecs(hermite: bool, k: KnotData): seq<Spec> {
    if PreAuthored(k) then [Pre(PrintTangent(hermite, k.preWidth, k.preSlope, k.preAlgo))] else []
  }

  function PostSpecs(hermite: bool, k: KnotData): seq<Spec> {
    if k.mode == 3 then [Post(PCurve(PrintTangent(hermite, k.postWidth, k.postSlope, k.postAlgo)))]
    else if 0 <= k.mode <= 2 then [Post(ModeFor(k.mode))]
    else []
  }

  function PrintKnot(hermite: bool, k: KnotData): (e: Entry)
    ensures e.Knot?
  {
    Knot(k.time, if k.dual then k.preValue else k.val, if k.dual then Some(k.val) else None,
         PreSpecs(hermite, k) + PostSpecs(hermite, k))
  }

  function PrintKnots(hermite: bool, ks: seq<KnotData>): Items {
    if ks == [] then End(LINE) else Next(LINE, PrintKnot(hermite, ks[0]), true, PrintKnots(hermite, ks[1..]))
  }

  /** `held` is the default and not printed. */
  function ExtrapItem(post: bool, mode: int, slope: real, rest: Items): Items {
    if mode == 1 then rest else Next(LINE, Extrapolate(post, ExtrapFor(mode, slope)), true, rest)
  }

  function PrintItems(d: SplineData): Items {
    Next(LINE, Curve(d.curveType == 1), true,
      ExtrapItem(false, d.pre, d.preSlope,
        ExtrapItem(true, d.post, d.postSlope,
          LoopItem(d, PrintKnots(d.curveType == 1, d.knots)))))
  }

  lemma ItemPrinted(text: seq<Token>, e: Entry, rest: Items)
    ensures (text + LINE + EntryText(e) + [Sym(',')]) + ItemsText(rest) == text + ItemsText(Next(LINE, e, true, rest))
  {
    hide EntryText;
  }

  /** print_spline */
  method Print(d: SplineData) returns (text: seq<Token>)
    ensures text == SplineText(PrintItems(d))
  {
    hide EntryText, PrintKnot, ExtrapFor, ItemsText;
    var hermite := d.curveType == 1;
    ghost var knots := PrintKnots(hermite, d.knots);
    ghost var loop := LoopItem(d, knots);
    ghost var post := ExtrapItem(true, d.post, d.postSlope, loop);
    ghost var pre := ExtrapItem(false, d.pre, d.preSlope, post);
    text := [Sym('{')] + LINE + EntryText(Curve(hermite)) + [Sym(',')];
    ItemPrinted([Sym('{')], Curve(hermite), pre);
    if d.pre != 1 {
      ItemPrinted(text, Extrapolate(false, ExtrapFor(d.pre, d.preSlope)), post);
      text := text + LINE + EntryText(Extrapolate(false, ExtrapFor(d.pre, d.preSlope))) + [Sym(',')];
    }
    assert text + ItemsText(post) == SplineText(PrintItems(d));
    if d.post != 1 {
      ItemPrinted(text, Extrapolate(true, ExtrapFor(d.post, d.postSlope)), loop);
      text := text + LINE + EntryText(Extrapolate(true, ExtrapFor(d.post, d.postSlope))) + [Sym(',')];
    }
    assert text + ItemsText(loop) == SplineText(PrintItems(d));
    if d.hasLoop {
      var e := LoopParams(d.protoStart, d.protoEnd, d.preLoops as real, d.postLoops as real, d.offset, true);
      ItemPrinted(text, e, knots);
      text := text + LINE + EntryText(e) + [Sym(',')];
    }
    var i := 0;
    while i < |d.knots|
      invariant 0 <= i <= |d.knots|
      invariant text + ItemsText(PrintKnots(hermite, d.knots[i..])) == SplineText(PrintItems(d))
    {
      assert d.knots[i..][1..] == d.knots[i + 1..];
      ItemPrinted(text, PrintKnot(hermite, d.knots[i]), PrintKnots(hermite, d.knots[i + 1..]));
      text := text + LINE + EntryText(PrintKnot(hermite, d.knots[i])) + [Sym(',')];
      i := i + 1;
    }
    EndPrinted(text);
    text := text + LINE + [Sym('}')];
  }

  lemma EndPrinted(text: seq<Token>)
    ensures text + LINE + [Sym('}')] == text + ItemsText(End(LINE))
  {
  }

  // ----- reading it back ----------------------------------------------------------------------

  function KnownAlgo(algo: int): int { if 1 <= algo <= 2 then algo else 0 }

  function ReprintedKnot(narrow: real -> real, hermite: bool, k: KnotData): KnotData {
    var pre := PreAuthored(k);
    var curve := k.mode == 3;
    KnotData(k.time, narrow(k.val), narrow(if k.dual then k.preValue else k.val), k.dual,
             if pre then (if hermite then 1.0 else k.preWidth) else 0.0, k.preSlope,
             if pre then KnownAlgo(k.preAlgo) else 0,
             if curve then (if hermite then 1.0 else k.postWidth) else 0.0, if curve then k.postSlope else 0.0,
             if curve then KnownAlgo(k.postAlgo) else 0,
             if 0 <= k.mode <= 2 then k.mode else 3)
  }

  function ReprintedKnots(narrow: real -> real, hermite: bool, ks: seq<KnotData>): (r: seq<KnotData>)
    ensures |r| == |ks| && forall i :: 0 <= i < |ks| ==> r[i] == ReprintedKnot(narrow, hermite, ks[i])
  {
    if ks == [] then [] else [ReprintedKnot(narrow, hermite, ks[0])] + ReprintedKnots(narrow, hermite, ks[1..])
  }

  function KnownMode(mode: int): int { if 0 <= mode <= 6 then mode else 1 }

  /** What printing and reading make of any spline. */
  function Reprinted(narrow: real -> real, d: SplineData): SplineData {
    SplineData(if d.curveType == 1 then 1 else 0, ReprintedKnots(narrow, d.curveType == 1, d.knots),
               KnownMode(d.pre), KnownMode(d.post),
               if d.pre == 3 then d.preSlope else 0.0, if d.post == 3 then d.postSlope else 0.0,
               d.hasLoop, if d.hasLoop then d.protoStart else 0.0, if d.hasLoop then d.protoEnd else 0.0,
               if d.hasLoop then d.preLoops else 0, if d.hasLoop then d.postLoops else 0,
               if d.hasLoop then d.offset else 0.0)
  }

  /** A knot that keeps its value: canonical, no tangent behind a mode that does not print it,
      and no hermite tangent of a width other than 1. */
  predicate PrintableKnot(narrow: real -> real, hermite: bool, k: KnotData) {
    && CanonicalKnot(narrow, k)
    && (hermite && PreAuthored(k) ==> k.preWidth == 1.0)
    && (k.mode == 3 && hermite ==> k.postWidth == 1.0)
    && (k.mode != 3 ==> k.postWidth == 0.0 && k.postSlope == 0.0 && k.postAlgo == 0)
  }

  predicate Printable(narrow: real -> real, d: SplineData) {
    CanonicalHead(d) && forall i :: 0 <= i < |d.knots| ==> PrintableKnot(narrow, d.curveType == 1, d.knots[i])
  }

  lemma {:induction false} SpecsJoined(k: KnotData, a: seq<Spec>, b: seq<Spec>)
    ensures ApplySpecs(k, a + b) == ApplySpecs(ApplySpecs(k, a), b)
    decreases |a|
  {
    if a == [] {
      assert a + b == b;
    } else {
      assert (a + b)[1..] == a[1..] + b;
      SpecsJoined(ApplySpec(k, a[0]), a[1..], b);
    }
  }

  lemma PreReprinted(k0: KnotData, k: KnotData, hermite: bool)
    requires k0.preWidth == 0.0 && k0.preSlope == 0.0 && k0.preAlgo == 0
    ensures ApplySpecs(k0, PreSpecs(hermite, k)) ==
      k0.(preWidth := if !PreAuthored(k) then 0.0 else if hermite then 1.0 else k.preWidth, preSlope := k.preSlope,
          preAlgo := if PreAuthored(k) then KnownAlgo(k.preAlgo) else 0)
  {
  }

  lemma PostReprinted(k0: KnotData, k: KnotData, hermite: bool)
    requires k0.postWidth == 0.0 && k0.postSlope == 0.0 && k0.postAlgo == 0 && k0.mode == 3
    ensures ApplySpecs(k0, PostSpecs(hermite, k)) ==
      if k.mode == 3 then
        k0.(postWidth := if hermite then 1.0 else k.postWidth, postSlope := k.postSlope,
            postAlgo := KnownAlgo(k.postAlgo))
      else if 0 <= k.mode <= 2 then k0.(mode := k.mode) else k0
  {
  }

  lemma KnotReprinted(narrow: real -> real, d: SplineData, k: KnotData, hermite: bool)
    ensures ApplyEntry(narrow, d, PrintKnot(hermite, k)) == d.(knots := d.knots + [ReprintedKnot(narrow, hermite, k)])
  {
    hide ApplySpecs, PreSpecs, PostSpecs, KnownAlgo;
    var e := PrintKnot(hermite, k);
    var k0 := NewKnot(narrow, e.time, e.value, e.second);
    SpecsJoined(k0, PreSpecs(hermite, k), PostSpecs(hermite, k));
    PreReprinted(k0, k, hermite);
    PostReprinted(ApplySpecs(k0, PreSpecs(hermite, k)), k, hermite);
  }

  lemma ApplyNext(narrow: real -> real, d: SplineData, gap: Gap, e: Entry, comma: bool, rest: Items)
    ensures ApplyItems(narrow, d, Next(gap, e, comma, rest)) == ApplyItems(narrow, ApplyEntry(narrow, d, e), rest)
  {
  }

  lemma NoKnotsReprinted(narrow: real -> real, d: SplineData, hermite: bool)
    ensures ApplyItems(narrow, d, PrintKnots(hermite, [])) == d.(knots := d.knots + ReprintedKnots(narrow, hermite, []))
  {
    assert d.knots + [] == d.knots;
  }

  lemma ReprintedFirst(narrow: real -> real, hermite: bool, ks: seq<KnotData>, before: seq<KnotData>)
    requires ks != []
    ensures before + ReprintedKnots(narrow, hermite, ks)
         == (before + [ReprintedKnot(narrow, hermite, ks[0])]) + ReprintedKnots(narrow, hermite, ks[1..])
  {
    hide ReprintedKnot;
  }

  lemma {:induction false} KnotsReprinted(narrow: real -> real, d: SplineData, hermite: bool, ks: seq<KnotData>)
    ensures ApplyItems(narrow, d, PrintKnots(hermite, ks)) == d.(knots := d.knots + ReprintedKnots(narrow, hermite, ks))
    decreases |ks|
  {
    hide PrintKnot, ReprintedKnot, ApplyEntry, ApplyItems, ReprintedKnots;
    if ks == [] {
      NoKnotsReprinted(narrow, d, hermite);
    } else {
      var d1 := d.(knots := d.knots + [ReprintedKnot(narrow, hermite, ks[0])]);
      ApplyNext(narrow, d, LINE, PrintKnot(hermite, ks[0]), true, PrintKnots(hermite, ks[1..]));
      KnotReprinted(narrow, d, ks[0], hermite);
      KnotsReprinted(narrow, d1, hermite, ks[1..]);
      ReprintedFirst(narrow, hermite, ks, d.knots);
    }
  }

  lemma {:induction false} KnotsBounded(hermite: bool, ks: seq<KnotData>)
    ensures Whole(PrintKnots(hermite, ks))
  {
    hide PrintKnot;
    if ks != [] {
      KnotsBounded(hermite, ks[1..]);
    }
  }

  lemma ExtrapReprinted(narrow: real -> real, d: SplineData, post: bool, mode: int, slope: real, rest: Items)
    requires Whole(rest)
    requires if post then d.post == 1 && d.postSlope == 0.0 else d.pre == 1 && d.preSlope == 0.0
    ensures Whole(ExtrapItem(post, mode, slope, rest))
    ensures var m, s := KnownMode(mode), if mode == 3 then slope else 0.0;
      ApplyItems(narrow, d, ExtrapItem(post, mode, slope, rest))
      == ApplyItems(narrow, if post then d.(post := m, postSlope := s) else d.(pre := m, preSlope := s), rest)
  {
  }

  lemma LoopReprinted(narrow: real -> real, d3: SplineData, d: SplineData, rest: Items)
    requires Whole(rest)
    ensures Whole(LoopItem(d, rest))
    ensures ApplyItems(narrow, d3, LoopItem(d, rest))
         == ApplyItems(narrow,
                       if d.hasLoop then
                         d3.(hasLoop := true, protoStart := d.protoStart, protoEnd := d.protoEnd,
                             preLoops := d.preLoops, postLoops := d.postLoops, offset := d.offset)
                       else d3,
                       rest)
  {
    if d.hasLoop {
      var e := LoopParams(d.protoStart, d.protoEnd, d.preLoops as real, d.postLoops as real, d.offset, true);
      NextWhole(e, rest);
      WholeTruncated(d.preLoops);
      WholeTruncated(d.postLoops);
      hide Whole, Truncate;
      assert ApplyItems(narrow, d3, Next(LINE, e, true, rest)) == ApplyItems(narrow, ApplyEntry(narrow, d3, e), rest);
    }
  }

  lemma WholeTruncated(n: int)
    ensures Truncate(n as real) == n
  {
  }

  /** The printed text of any spline is accepted, and this is its meaning. */
  lemma PrintThenRead(narrow: real -> real, d: SplineData)
    ensures Whole(PrintItems(d)) && ApplyItems(narrow, DEFAULT, PrintItems(d)) == Reprinted(narrow, d)
  {
    hide PrintKnots, ReprintedKnots, ExtrapItem, LoopItem, Whole;
    var hermite := d.curveType == 1;
    var knots := PrintKnots(hermite, d.knots);
    var loop := LoopItem(d, knots);
    var post := ExtrapItem(true, d.post, d.postSlope, loop);
    var d1 := DEFAULT.(curveType := if hermite then 1 else 0);
    var d2 := d1.(pre := KnownMode(d.pre), preSlope := if d.pre == 3 then d.preSlope else 0.0);
    var d3 := d2.(post := KnownMode(d.post), postSlope := if d.post == 3 then d.postSlope else 0.0);
    var d4 := if d.hasLoop then d3.(hasLoop := true, protoStart := d.protoStart, protoEnd := d.protoEnd,
                                    preLoops := d.preLoops, postLoops := d.postLoops, offset := d.offset) else d3;
    KnotsReprinted(narrow, d4, hermite, d.knots);
    KnotsBounded(hermite, d.knots);
    LoopReprinted(narrow, d3, d, knots);
    ExtrapReprinted(narrow, d2, true, d.post, d.postSlope, loop);
    ExtrapReprinted(narrow, d1, false, d.pre, d.preSlope, post);
    assert d4.knots + ReprintedKnots(narrow, hermite, d.knots) == ReprintedKnots(narrow, hermite, d.knots);
    CurveBounded(hermite, ExtrapItem(false, d.pre, d.preSlope, post));
  }

  lemma CurveBounded(hermite: bool, rest: Items)
    ensures Whole(Next(LINE, Curve(hermite), true, rest)) <==> Whole(rest)
  {
  }

  lemma WholeIsAccepted(items: Items)
    requires Whole(items)
    ensures Accepted(items) && !EndsShared(items)
  {
  }

  /** Wherever the printed text stands, it is read whole and with that meaning. */
  lemma PrintedTextIsRead(narrow: real -> real, d: SplineData, before: seq<Token>, after: seq<Token>)
    ensures var text := SplineText(PrintItems(d));
      ReadSpline(before + text + after, |before|) == Some((PrintItems(d), |before| + |text|))
  {
    hide PrintItems, SplineText, Accepted, Whole, EndsShared, ApplyItems, ReadSpline;
    PrintThenRead(narrow, d);
    WholeIsAccepted(PrintItems(d));
    var text := SplineText(PrintItems(d));
    var ts := before + text + after;
    assert ts[|before|..|before| + |text|] == text;
    ReadsExactlyTexts(ts, |before|, PrintItems(d), |before| + |text|);
  }

  /** Reading the printed text of a spline gives the spline back if and only if it is
      printable. */
  lemma RoundTrip(narrow: real -> real, d: SplineData)
    ensures ApplyItems(narrow, DEFAULT, PrintItems(d)) == d <==> Printable(narrow, d)
  {
    PrintThenRead(narrow, d);
    hide ApplyItems, PrintItems, ReprintedKnot, PrintableKnot;
    var hermite := d.curveType == 1;
    forall i | 0 <= i < |d.knots|
      ensures ReprintedKnot(narrow, hermite, d.knots[i]) == d.knots[i] <==> PrintableKnot(narrow, hermite, d.knots[i])
    {
      KnotRoundTrip(narrow, hermite, d.knots[i]);
    }
    if Reprinted(narrow, d) == d {
      assert forall i :: 0 <= i < |d.knots| ==> d.knots[i] == ReprintedKnot(narrow, hermite, d.knots[i]);
    }
    if Printable(narrow, d) {
      assert ReprintedKnots(narrow, hermite, d.knots) == d.knots;
    }
  }

  lemma KnotRoundTrip(narrow: real -> real, hermite: bool, k: KnotData)
    ensures ReprintedKnot(narrow, hermite, k) == k <==> PrintableKnot(narrow, hermite, k)
  {
  }

  /** A spline that was read from a text is printable after one round of printing and reading. */
  lemma PrintingSettles(narrow: real -> real, d: SplineData)
    requires Idempotent(narrow) && Canonical(narrow, d)
    ensures Printable(narrow, Reprinted(narrow, d))
  {
  }

  /** The text `hermite, 0: 0`: the knot's tangent has width 0, and printing and reading turn
      it into 1. */
  lemma BareHermiteKnotChanges()
    ensures var narrow := (x: real) => x;
      var items := Next(LINE, Curve(true), true, Next(LINE, Knot(0.0, 0.0, None, []), true, End(LINE)));
      var d := ApplyItems(narrow, DEFAULT, items);
      Whole(items) && ApplyItems(narrow, DEFAULT, PrintItems(d)) != d
  {
    var narrow := (x: real) => x;
    var items := Next(LINE, Curve(true), true, Next(LINE, Knot(0.0, 0.0, None, []), true, End(LINE)));
    var d := ApplyItems(narrow, DEFAULT, items);
    assert d.knots == [NewKnot(narrow, 0.0, 0.0, None)];
    assert !PrintableKnot(narrow, true, d.knots[0]);
    RoundTrip(narrow, d);
  }

  // ----- the printed text, written out ----------------------------------------------------------------

  function WrittenTangent(hermite: bool, width: real, slope: real, algo: int): seq<Token> {
    [Sym('(')] + (if hermite then [] else [Num(width), Sym(',')]) + [Num(slope)]
    + (if algo == 1 then [Sym(','), Word("custom")] else if algo == 2 then [Sym(','), Word("autoEase")] else [])
    + [Sym(')')]
  }

  function WrittenPost(hermite: bool, k: KnotData): seq<Token> {
    if k.mode == 0 then [Sym(';'), Word("post"), Word("none")]
    else if k.mode == 1 then [Sym(';'), Word("post"), Word("held")]
    else if k.mode == 2 then [Sym(';'), Word("post"), Word("linear")]
    else if k.mode == 3 then
      [Sym(';'), Word("post"), Word("curve")] + WrittenTangent(hermite, k.postWidth, k.postSlope, k.postAlgo)
    else []
  }

  /** The tangent before the knot is written when any part of it is not zero. */
  function WrittenPre(hermite: bool, k: KnotData): seq<Token> {
    if k.preWidth == 0.0 && k.preSlope == 0.0 && k.preAlgo == 0 then []
    else [Sym(';'), Word("pre")] + WrittenTangent(hermite, k.preWidth, k.preSlope, k.preAlgo)
  }

  function WrittenKnot(hermite: bool, k: KnotData): seq<Token> {
    [Break, Num(k.time), Sym(':')] + (if k.dual then [Num(k.preValue), Sym('&'), Num(k.val)] else [Num(k.val)])
    + WrittenPre(hermite, k) + WrittenPost(hermite, k) + [Sym(',')]
  }

  function WrittenKnots(hermite: bool, ks: seq<KnotData>): seq<Token> {
    if ks == [] then [] else WrittenKnot(hermite, ks[0]) + WrittenKnots(hermite, ks[1..])
  }

  /** An unknown mode is written as `held`. */
  function WrittenMode(mode: int, slope: real): seq<Token> {
    if mode == 0 then [Word("none")] else if mode == 2 then [Word("linear")]
    else if mode == 3 then [Word("sloped"), Sym('('), Num(slope), Sym(')')]
    else if mode == 4 then [Word("loop"), Word("repeat")] else if mode == 5 then [Word("loop"), Word("reset")]
    else if mode == 6 then [Word("loop"), Word("oscillate")] else [Word("held")]
  }

  /** The line of an extrapolation; mode 1 is the default and not written. */
  function WrittenExtrap(side: string, mode: int, slope: real): seq<Token> {
    if mode == 1 then [] else [Break, Word(side), Sym(':')] + WrittenMode(mode, slope) + [Sym(',')]
  }

  function WrittenLoop(d: SplineData): seq<Token> {
    if !d.hasLoop then []
    else
      [Break, Word("loop"), Sym(':'), Sym('('), Num(d.protoStart), Sym(','), Num(d.protoEnd), Sym(','),
         Num(d.preLoops as real), Sym(','), Num(d.postLoops as real), Sym(','), Num(d.offset), Sym(')'), Sym(',')]
  }

  lemma TangentWritten(hermite: bool, width: real, slope: real, algo: int)
    ensures TangentText(PrintTangent(hermite, width, slope, algo)) == WrittenTangent(hermite, width, slope, algo)
  {
  }

  lemma OneSpec(t: Spec)
    ensures SpecsText([t]) == SpecText(t)
  {
    hide SpecText;
    assert SpecsText([t][1..]) == [];
  }

  lemma PreWritten(hermite: bool, k: KnotData)
    ensures SpecsText(PreSpecs(hermite, k)) == WrittenPre(hermite, k)
  {
    hide TangentText, PrintTangent, WrittenTangent, SpecsText;
    TangentWritten(hermite, k.preWidth, k.preSlope, k.preAlgo);
    OneSpec(Pre(PrintTangent(hermite, k.preWidth, k.preSlope, k.preAlgo)));
    NoSpecs();
  }

  lemma NoSpecs()
    ensures SpecsText([]) == []
  {
  }

  lemma PostWritten(hermite: bool, k: KnotData)
    ensures SpecsText(PostSpecs(hermite, k)) == WrittenPost(hermite, k)
  {
    hide TangentText, PrintTangent, WrittenTangent, SpecsText;
    NoSpecs();
    if k.mode == 3 {
      TangentWritten(hermite, k.postWidth, k.postSlope, k.postAlgo);
      OneSpec(Post(PCurve(PrintTangent(hermite, k.postWidth, k.postSlope, k.postAlgo))));
      var tangent := WrittenTangent(hermite, k.postWidth, k.postSlope, k.postAlgo);
      assert [Sym(';'), Word("post")] + ([Word("curve")] + tangent) == WrittenPost(hermite, k);
    } else if 0 <= k.mode <= 2 {
      OneSpec(Post(ModeFor(k.mode)));
      assert [Sym(';'), Word("post")] + InterpText(ModeFor(k.mode)) == WrittenPost(hermite, k);
    }
  }

  lemma KnotWritten(hermite: bool, k: KnotData)
    ensures LINE + EntryText(PrintKnot(hermite, k)) + [Sym(',')] == WrittenKnot(hermite, k)
  {
    hide SpecsText, PreSpecs, PostSpecs, WrittenPre, WrittenPost;
    PreWritten(hermite, k);
    PostWritten(hermite, k);
    SpecsTextJoined(PreSpecs(hermite, k), PostSpecs(hermite, k));
  }

  lemma {:induction false} SpecsTextJoined(a: seq<Spec>, b: seq<Spec>)
    ensures SpecsText(a + b) == SpecsText(a) + SpecsText(b)
  {
    hide SpecText;
    if a == [] {
      assert a + b == b;
    } else {
      assert (a + b)[0] == a[0] && (a + b)[1..] == a[1..] + b;
      SpecsTextJoined(a[1..], b);
    }
  }

  lemma {:induction false} KnotsWritten(hermite: bool, ks: seq<KnotData>)
    ensures ItemsText(PrintKnots(hermite, ks)) == WrittenKnots(hermite, ks) + [Break, Sym('}')]
  {
    hide EntryText, PrintKnot, WrittenKnot;
    if ks != [] {
      KnotWritten(hermite, ks[0]);
      KnotsWritten(hermite, ks[1..]);
    }
  }

  lemma ExtrapWritten(post: bool, mode: int, slope: real, rest: Items)
    ensures ItemsText(ExtrapItem(post, mode, slope, rest)) ==
      WrittenExtrap(if post then "post" else "pre", mode, slope) + ItemsText(rest)
  {
    hide ExtrapText, ExtrapFor, WrittenMode;
    if mode != 1 {
      ModeWritten(mode, slope);
    }
  }

  lemma ModeWritten(mode: int, slope: real)
    requires mode != 1
    ensures ExtrapText(ExtrapFor(mode, slope)) == WrittenMode(mode, slope)
  {
  }

  lemma LoopLine(d: SplineData)
    requires d.hasLoop
    ensures var e := LoopParams(d.protoStart, d.protoEnd, d.preLoops as real, d.postLoops as real, d.offset, true);
      WrittenLoop(d) == LINE + EntryText(e) + [Sym(',')]
  {
  }

  lemma LoopWritten(d: SplineData, rest: Items)
    ensures ItemsText(LoopItem(d, rest)) == WrittenLoop(d) + ItemsText(rest)
  {
    if d.hasLoop {
      var e := LoopParams(d.protoStart, d.protoEnd, d.preLoops as real, d.postLoops as real, d.offset, true);
      LoopLine(d);
      hide EntryText, WrittenLoop;
      assert ItemsText(Next(LINE, e, true, rest)) == LINE + EntryText(e) + [Sym(',')] + ItemsText(rest);
    } else {
      assert WrittenLoop(d) + ItemsText(rest) == ItemsText(rest);
    }
  }

  /** The printed text of any spline, token by token. */
  lemma PrintsExactly(d: SplineData)
    ensures SplineText(PrintItems(d)) ==
      [Sym('{'), Break, Word(if d.curveType == 1 then "hermite" else "bezier"), Sym(',')]
      + WrittenExtrap("pre", d.pre, d.preSlope) + WrittenExtrap("post", d.post, d.postSlope) + WrittenLoop(d)
      + WrittenKnots(d.curveType == 1, d.knots) + [Break, Sym('}')]
  {
    hide WrittenExtrap, WrittenLoop, WrittenKnots, ExtrapItem, LoopItem, PrintKnots, ItemsText;
    var hermite := d.curveType == 1;
    var knots := PrintKnots(hermite, d.knots);
    var loop := LoopItem(d, knots);
    var post := ExtrapItem(true, d.post, d.postSlope, loop);
    var pre := ExtrapItem(false, d.pre, d.preSlope, post);
    KnotsWritten(hermite, d.knots);
    LoopWritten(d, knots);
    ExtrapWritten(true, d.post, d.postSlope, loop);
    ExtrapWritten(false, d.pre, d.preSlope, post);
    ItemPrinted([Sym('{')], Curve(hermite), pre);
  }
}
