/** The text of a spline value (src/ascii-parser-props.cc, ParseSplineValue): tokens, entries,
    and the correspondence between the two.  Numbers are read values; a line break with the
    comment before it, blanks at the end of the input, and the customData of a knot are single
    tokens. */
module SplineSyntax {
  import opened Chars
  import opened Options
  import opened Texts

  datatype Token = Word(word: string) | Num(num: real) | Sym(sym: char) | Dict | Break

  datatype Algo = NoAlgo | CustomAlgo | AutoEase

  datatype Tangent = Tangent(width: Option<real>, slope: real, algo: Option<Algo>)

  datatype Extrap = XNone | XHeld | XLinear | XSloped(slope: real) | XLoop(sub: Option<string>)

  datatype Interp = PNone | PHeld | PLinear | PCurve(tangent: Tangent)

  datatype Spec = Pre(tangent: Tangent) | Post(interp: Interp) | CustomData

  datatype Entry =
    | Curve(hermite: bool)
    | Extrapolate(post: bool, extrap: Extrap)
    | LoopParams(protoStart: real, protoEnd: real, preLoops: real, postLoops: real, offset: real, closed: bool)
    | Knot(time: real, value: real, second: Option<real>, specs: seq<Spec>)

  /** What is skipped in front of an entry or of the closing brace: line breaks, and semicolons,
      which count as line breaks there. */
  predicate IsGap(t: Token) { t == Break || t == Sym(';') }

  type Gap = g: seq<Token> | forall t :: t in g ==> IsGap(t)

  /** One line break. */
  const LINE: Gap := [Break]

  /** The entries up to the closing brace, each behind a gap and with an optional comma after it.
      Where the input ends right behind a customData, the cursor steps back onto the brace of that,
      which closes the spline as well: it is `Shared`. */
  datatype Items = End(gap: Gap) | Shared | Next(gap: Gap, entry: Entry, comma: bool, rest: Items)

  // ----- text -----------------------------------------------------------------------------

  function AlgoWord(a: Algo): string {
    match a case NoAlgo => "none" case CustomAlgo => "custom" case AutoEase => "autoEase"
  }

  function AlgoOf(w: string): Option<Algo> {
    if w == "none" then Some(NoAlgo) else if w == "custom" then Some(CustomAlgo)
    else if w == "autoEase" then Some(AutoEase) else None
  }

  function TangentText(t: Tangent): seq<Token> {
    [Sym('(')] + (match t.width case Some(w) => [Num(w), Sym(',')] case None => [])
    + [Num(t.slope)] + (match t.algo case Some(a) => [Sym(','), Word(AlgoWord(a))] case None => []) + [Sym(')')]
  }

  function ExtrapText(x: Extrap): seq<Token> {
    match x
    case XNone => [Word("none")]
    case XHeld => [Word("held")]
    case XLinear => [Word("linear")]
    case XSloped(s) => [Word("sloped"), Sym('('), Num(s), Sym(')')]
    case XLoop(None) => [Word("loop")]
    case XLoop(Some(sub)) => [Word("loop"), Word(sub)]
  }

  function InterpText(i: Interp): seq<Token> {
    match i
    case PNone => [Word("none")]
    case PHeld => [Word("held")]
    case PLinear => [Word("linear")]
    case PCurve(t) => [Word("curve")] + TangentText(t)
  }

  function SpecText(s: Spec): seq<Token> {
    match s
    case Pre(t) => [Sym(';'), Word("pre")] + TangentText(t)
    case Post(i) => [Sym(';'), Word("post")] + InterpText(i)
    case CustomData => [Sym(';'), Dict]
  }

  function SpecsText(ss: seq<Spec>): seq<Token> {
    if ss == [] then [] else SpecText(ss[0]) + SpecsText(ss[1..])
  }

  function KnotText(time: real, value: real, second: Option<real>): seq<Token> {
    [Num(time), Sym(':'), Num(value)] + match second case Some(v) => [Sym('&'), Num(v)] case None => []
  }

  function LoopHead(a: real, b: real, c: real, d: real, o: real): seq<Token> {
    [Word("loop"), Sym(':'), Sym('('), Num(a), Sym(','), Num(b), Sym(','), Num(c), Sym(','), Num(d), Sym(','), Num(o)]
  }

  function EntryText(e: Entry): seq<Token> {
    match e
    case Curve(hermite) => [Word(if hermite then "hermite" else "bezier")]
    case Extrapolate(post, x) => [Word(if post then "post" else "pre"), Sym(':')] + ExtrapText(x)
    case LoopParams(a, b, c, d, o, closed) => LoopHead(a, b, c, d, o) + if closed then [Sym(')')] else []
    case Knot(time, value, second, specs) => KnotText(time, value, second) + SpecsText(specs)
  }

  function CommaText(comma: bool): seq<Token> { if comma then [Sym(',')] else [] }

  function ItemsText(items: Items): seq<Token> {
    match items
    case End(gap) => gap + [Sym('}')]
    case Shared => []
    case Next(gap, e, comma, rest) => gap + EntryText(e) + CommaText(comma) + ItemsText(rest)
  }

  function SplineText(items: Items): seq<Token> { [Sym('{')] + ItemsText(items) }

  /** A bare `loop` takes a word with a letter in front right behind it as its sub-mode, and a knot
      takes a semicolon right behind it as the start of a spec; so neither may follow without a
      comma. */
  predicate Bounded(items: Items) {
    match items
    case Next(_, e, comma, rest) =>
      && WellFormed(e) && (comma || !Absorbs(e, rest)) && Bounded(rest)
      && (rest.Shared? ==> !comma && EndsInDict(e))
    case _ => true
  }

  /** A knot whose last spec is a customData. */
  predicate EndsInDict(e: Entry) { e.Knot? && e.specs != [] && e.specs[|e.specs| - 1].CustomData? }

  /** Entries of which a text exists that is read. */
  predicate Accepted(items: Items) { Bounded(items) && !items.Shared? }

  /** Entries closed by a brace of their own. */
  predicate Whole(items: Items) { Bounded(items) && !EndsShared(items) }

  predicate EndsShared(items: Items) { items.Shared? || (items.Next? && EndsShared(items.rest)) }

  predicate Absorbs(e: Entry, rest: Items) {
    (TakesWord(e) && StartsWithWord(rest)) || (e.Knot? && StartsWithSemicolon(rest))
  }

  predicate TakesWord(e: Entry) { e.Extrapolate? && e.extrap == XLoop(None) }

  predicate StartsWithWord(items: Items) { items.Next? && items.gap == [] && !items.entry.Knot? }

  predicate StartsWithSemicolon(items: Items) { !items.Shared? && items.gap != [] && items.gap[0] == Sym(';') }

  predicate StartsWithLetter(w: string) { w != "" && IsLetter(w[0]) }

  /** A sub-mode starts with a letter. */
  predicate SubModeValid(x: Extrap) { x.XLoop? && x.sub.Some? ==> StartsWithLetter(x.sub.value) }

  predicate WellFormed(e: Entry) { e.Extrapolate? ==> SubModeValid(e.extrap) }

  // ----- reading ---------------------------------------------------------------------------

  predicate SymAt(ts: seq<Token>, p: nat, c: char) { p < |ts| && ts[p] == Sym(c) }

  predicate NumAt(ts: seq<Token>, p: nat) { p < |ts| && ts[p].Num? }

  predicate WordAt(ts: seq<Token>, p: nat) { p < |ts| && ts[p].Word? }

  predicate LetterWordAt(ts: seq<Token>, p: nat) { WordAt(ts, p) && StartsWithLetter(ts[p].word) }

  function ReadAlgo(ts: seq<Token>, p: nat): Option<Algo> {
    if WordAt(ts, p) then AlgoOf(ts[p].word) else None
  }

  function ReadTangent(ts: seq<Token>, p: nat): (r: Option<(Tangent, nat)>)
    ensures r.Some? ==> p < r.value.1 <= |ts|
  {
    if !(SymAt(ts, p, '(') && NumAt(ts, p + 1)) then None
    else if !SymAt(ts, p + 2, ',') then
      if SymAt(ts, p + 2, ')') then Some((Tangent(None, ts[p + 1].num, None), p + 3)) else None
    else if WordAt(ts, p + 3) then
      if ReadAlgo(ts, p + 3).Some? && SymAt(ts, p + 4, ')')
      then Some((Tangent(None, ts[p + 1].num, ReadAlgo(ts, p + 3)), p + 5)) else None
    else if !NumAt(ts, p + 3) then None
    else if !SymAt(ts, p + 4, ',') then
      if SymAt(ts, p + 4, ')') then Some((Tangent(Some(ts[p + 1].num), ts[p + 3].num, None), p + 5)) else None
    else if ReadAlgo(ts, p + 5).Some? && SymAt(ts, p + 6, ')')
      then Some((Tangent(Some(ts[p + 1].num), ts[p + 3].num, ReadAlgo(ts, p + 5)), p + 7))
    else None
  }

  function ReadExtrap(ts: seq<Token>, p: nat): (r: Option<(Extrap, nat)>)
    ensures r.Some? ==> p < r.value.1 <= |ts|
  {
    if !WordAt(ts, p) then None
    else if ts[p].word == "none" then Some((XNone, p + 1))
    else if ts[p].word == "held" then Some((XHeld, p + 1))
    else if ts[p].word == "linear" then Some((XLinear, p + 1))
    else if ts[p].word == "sloped" then
      if SymAt(ts, p + 1, '(') && NumAt(ts, p + 2) && SymAt(ts, p + 3, ')') then
          Some((XSloped(ts[p + 2].num), p + 4)) else None
    else if ts[p].word == "loop" then
      if LetterWordAt(ts, p + 1) then Some((XLoop(Some(ts[p + 1].word)), p + 2)) else Some((XLoop(None), p + 1))
    else None
  }

  function ReadInterp(ts: seq<Token>, p: nat): (r: Option<(Interp, nat)>)
    ensures r.Some? ==> p < r.value.1 <= |ts|
  {
    if !WordAt(ts, p) then None
    else if ts[p].word == "none" then Some((PNone, p + 1))
    else if ts[p].word == "held" then Some((PHeld, p + 1))
    else if ts[p].word == "linear" then Some((PLinear, p + 1))
    else if ts[p].word == "curve" then
      match ReadTangent(ts, p + 1) case Some(t) => Some((PCurve(t.0), t.1)) case None => None
    else None
  }

  /** One spec, at its semicolon. */
  function ReadSpec(ts: seq<Token>, p: nat): (r: Option<(Spec, nat)>)
    requires SymAt(ts, p, ';')
    ensures r.Some? ==> p < r.value.1 <= |ts|
  {
    if p + 1 < |ts| && ts[p + 1] == Dict then Some((CustomData, p + 2))
    else if !WordAt(ts, p + 1) then None
    else if ts[p + 1].word == "pre" then
      match ReadTangent(ts, p + 2) case Some(t) => Some((Pre(t.0), t.1)) case None => None
    else if ts[p + 1].word == "post" then
      match ReadInterp(ts, p + 2) case Some(i) => Some((Post(i.0), i.1)) case None => None
    else None
  }

  function ReadSpecs(ts: seq<Token>, p: nat): (r: Option<(seq<Spec>, nat)>)
    requires p <= |ts|
    ensures r.Some? ==> p <= r.value.1 <= |ts|
    decreases |ts| - p
  {
    if !SymAt(ts, p, ';') then Some(([], p))
    else
      match ReadSpec(ts, p)
      case None => None
      case Some(s) =>
        match ReadSpecs(ts, s.1)
        case None => None
        case Some(rest) => Some(([s.0] + rest.0, rest.1))
  }

  function ReadKnot(ts: seq<Token>, p: nat): (r: Option<(Entry, nat)>)
    ensures r.Some? ==> p < r.value.1 <= |ts|
  {
    if !(NumAt(ts, p) && SymAt(ts, p + 1, ':') && NumAt(ts, p + 2)) then None
    else if SymAt(ts, p + 3, '&') && !NumAt(ts, p + 4) then None
    else
      var second := if SymAt(ts, p + 3, '&') then Some(ts[p + 4].num) else None;
      match ReadSpecs(ts, if second.Some? then p + 5 else p + 3)
      case None => None
      case Some(specs) => Some((Knot(ts[p].num, ts[p + 2].num, second, specs.0), specs.1))
  }

  predicate LoopParamsAt(ts: seq<Token>, p: nat) {
    && SymAt(ts, p, ':') && SymAt(ts, p + 1, '(')
    && NumAt(ts, p + 2) && SymAt(ts, p + 3, ',') && NumAt(ts, p + 4) && SymAt(ts, p + 5, ',')
    && NumAt(ts, p + 6) && SymAt(ts, p + 7, ',') && NumAt(ts, p + 8) && SymAt(ts, p + 9, ',') && NumAt(ts, p + 10)
  }

  function ReadEntry(ts: seq<Token>, p: nat): (r: Option<(Entry, nat)>)
    ensures r.Some? ==> p < r.value.1 <= |ts|
  {
    if !WordAt(ts, p) then ReadKnot(ts, p)
    else if ts[p].word == "bezier" || ts[p].word == "hermite" then Some((Curve(ts[p].word == "hermite"), p + 1))
    else if ts[p].word == "pre" || ts[p].word == "post" then
      if !SymAt(ts, p + 1, ':') then None
      else
        match ReadExtrap(ts, p + 2)
        case Some(x) => Some((Extrapolate(ts[p].word == "post", x.0), x.1))
        case None => None
    else if ts[p].word == "loop" && LoopParamsAt(ts, p + 1) then
      var closed := SymAt(ts, p + 12, ')');
      Some((LoopParams(ts[p + 3].num, ts[p + 5].num, ts[p + 7].num, ts[p + 9].num, ts[p + 11].num, closed),
            if closed then p + 13 else p + 12))
    else None
  }

  function SkipGap(ts: seq<Token>, p: nat): (q: nat)
    requires p <= |ts|
    ensures p <= q <= |ts| && (q < |ts| ==> !IsGap(ts[q]))
    ensures forall k :: p <= k < q ==> IsGap(ts[k])
    decreases |ts| - p
  {
    if p < |ts| && IsGap(ts[p]) then SkipGap(ts, p + 1) else p
  }

  /** The input ends right behind a customData. */
  predicate BehindDict(ts: seq<Token>, p: nat) { 0 < p == |ts| && ts[p - 1].Dict? }

  function ReadItems(ts: seq<Token>, p: nat): (r: Option<(Items, nat)>)
    requires p <= |ts|
    ensures r.Some? ==> p <= r.value.1 <= |ts|
    decreases |ts| - p
  {
    var q := SkipGap(ts, p);
    if BehindDict(ts, p) then Some((Shared, p))
    else if SymAt(ts, q, '}') then Some((End(ts[p..q]), q + 1))
    else
      match ReadEntry(ts, q)
      case None => None
      case Some(e) =>
        var comma := SymAt(ts, e.1, ',');
        match ReadItems(ts, if comma then e.1 + 1 else e.1)
        case None => None
        case Some(rest) => Some((Next(ts[p..q], e.0, comma, rest.0), rest.1))
  }

  function ReadSpline(ts: seq<Token>, p: nat): Option<(Items, nat)> {
    if SymAt(ts, p, '{') then ReadItems(ts, p + 1) else None
  }

  // ----- what is read is what was written ------------------------------------------------------

  lemma TangentExact(ts: seq<Token>, p: nat, t: Tangent, q: nat)
    ensures ReadTangent(ts, p) == Some((t, q)) <==> q == p + |TangentText(t)| && StandsAt(ts, p, TangentText(t))
  {
    var text := TangentText(t);
    if StandsAt(ts, p, text) {
      forall i | 0 <= i < |text| ensures ts[p + i] == text[i] { ElementAt(ts, p, text, i); }
      assert ts[p] == text[0] && ts[p + 1] == text[1] && ts[p + 2] == text[2];
      if |text| > 3 {
        assert ts[p + 3] == text[3] && ts[p + 4] == text[4];
      }
      if |text| > 5 {
        assert ts[p + 5] == text[5] && ts[p + 6] == text[6];
      }
    }
    if ReadTangent(ts, p) == Some((t, q)) {
      Stands(ts, p, text);
    }
  }

  lemma ExtrapExact(ts: seq<Token>, p: nat, x: Extrap, q: nat)
    ensures ReadExtrap(ts, p) == Some((x, q)) <==>
            && q == p + |ExtrapText(x)| && StandsAt(ts, p, ExtrapText(x))
            && SubModeValid(x) && (x == XLoop(None) ==> !LetterWordAt(ts, q))
  {
    var text := ExtrapText(x);
    if StandsAt(ts, p, text) {
      forall i | 0 <= i < |text| ensures ts[p + i] == text[i] { ElementAt(ts, p, text, i); }
      assert ts[p] == text[0];
      if |text| > 1 {
        assert ts[p + 1] == text[1];
      }
      if |text| > 2 {
        assert ts[p + 2] == text[2] && ts[p + 3] == text[3];
      }
    }
    if ReadExtrap(ts, p) == Some((x, q)) {
      Stands(ts, p, text);
    }
  }

  lemma StandsOne(ts: seq<Token>, p: nat, t: Token)
    ensures StandsAt(ts, p, [t]) <==> p < |ts| && ts[p] == t
  {
  }

  lemma StandsTwo(ts: seq<Token>, p: nat, t: Token, u: Token)
    ensures StandsAt(ts, p, [t, u]) <==> p + 1 < |ts| && ts[p] == t && ts[p + 1] == u
  {
  }

  lemma InterpExact(ts: seq<Token>, p: nat, i: Interp, q: nat)
    ensures ReadInterp(ts, p) == Some((i, q)) <==> q == p + |InterpText(i)| && StandsAt(ts, p, InterpText(i))
  {
    hide ReadTangent, TangentText, StandsAt;
    match i
    case PCurve(t) =>
      StandsOne(ts, p, Word("curve"));
      StandsJoined(ts, p, [Word("curve")], TangentText(t));
      TangentExact(ts, p + 1, t, q);
    case PNone => StandsOne(ts, p, Word("none"));
    case PHeld => StandsOne(ts, p, Word("held"));
    case PLinear => StandsOne(ts, p, Word("linear"));
  }

  lemma SpecExact(ts: seq<Token>, p: nat, s: Spec, q: nat)
    requires SymAt(ts, p, ';')
    ensures ReadSpec(ts, p) == Some((s, q)) <==> q == p + |SpecText(s)| && StandsAt(ts, p, SpecText(s))
  {
    hide ReadTangent, TangentText, ReadInterp, InterpText, StandsAt;
    match s
    case Pre(t) =>
      StandsTwo(ts, p, Sym(';'), Word("pre"));
      StandsJoined(ts, p, [Sym(';'), Word("pre")], TangentText(t));
      TangentExact(ts, p + 2, t, q);
    case Post(i) =>
      StandsTwo(ts, p, Sym(';'), Word("post"));
      StandsJoined(ts, p, [Sym(';'), Word("post")], InterpText(i));
      InterpExact(ts, p + 2, i, q);
    case CustomData => StandsTwo(ts, p, Sym(';'), Dict);
  }

  lemma SpecStarts(ts: seq<Token>, p: nat, s: Spec, rest: seq<Token>)
    requires StandsAt(ts, p, SpecText(s) + rest)
    ensures SymAt(ts, p, ';')
  {
  }

  lemma {:induction false} SpecsExact(ts: seq<Token>, p: nat, ss: seq<Spec>, q: nat)
    requires p <= |ts|
    ensures ReadSpecs(ts, p) == Some((ss, q)) <==>
            q == p + |SpecsText(ss)| && StandsAt(ts, p, SpecsText(ss)) && !SymAt(ts, q, ';')
    decreases |ts| - p
  {
    hide ReadSpec, SpecText;
    if ss != [] {
      var m := p + |SpecText(ss[0])|;
      if StandsAt(ts, p, SpecsText(ss)) {
        SpecStarts(ts, p, ss[0], SpecsText(ss[1..]));
      }
      if SymAt(ts, p, ';') {
        StandsJoined(ts, p, SpecText(ss[0]), SpecsText(ss[1..]));
        SpecExact(ts, p, ss[0], m);
        if ReadSpec(ts, p).Some? {
          SpecExact(ts, p, ReadSpec(ts, p).value.0, ReadSpec(ts, p).value.1);
        }
        if ReadSpec(ts, p) == Some((ss[0], m)) {
          SpecsExact(ts, m, ss[1..], q);
        }
        assert ReadSpecs(ts, p).Some? && ReadSpecs(ts, p).value.0 == ss ==> ReadSpec(ts, p) == Some((ss[0], m)) by {
          if ReadSpecs(ts, p).Some? && ReadSpecs(ts, p).value.0 == ss {
            assert ReadSpecs(ts, p).value.0[0] == ReadSpec(ts, p).value.0;
          }
        }
        if ReadSpecs(ts, p) == Some((ss, q)) {
          assert ReadSpecs(ts, m).value.0 == ss[1..];
        }
        if ReadSpec(ts, p) == Some((ss[0], m)) && ReadSpecs(ts, m) == Some((ss[1..], q)) {
          assert ss == [ss[0]] + ss[1..];
        }
      }
    }
  }

  /** What may not follow an entry, because the parser would take it as part of it. */
  ghost predicate Follows(ts: seq<Token>, q: nat, e: Entry) {
    match e
    case Curve(_) => true
    case Extrapolate(_, x) => x == XLoop(None) ==> !LetterWordAt(ts, q)
    case LoopParams(_, _, _, _, _, closed) => !closed ==> !SymAt(ts, q, ')')
    case Knot(_, _, second, specs) => !SymAt(ts, q, ';') && (second.None? && specs == [] ==> !SymAt(ts, q, '&'))
  }

  lemma KnotTextExact(ts: seq<Token>, p: nat, time: real, value: real, second: Option<real>)
    ensures StandsAt(ts, p, KnotText(time, value, second)) <==>
            && NumAt(ts, p) && SymAt(ts, p + 1, ':') && NumAt(ts, p + 2) && ts[p].num == time && ts[p + 2].num == value
            && (second.Some? ==> SymAt(ts, p + 3, '&') && NumAt(ts, p + 4) && ts[p + 4].num == second.value)
  {
    var text := KnotText(time, value, second);
    if StandsAt(ts, p, text) {
      ElementAt(ts, p, text, 0);
      ElementAt(ts, p, text, 1);
      ElementAt(ts, p, text, 2);
      if second.Some? {
        ElementAt(ts, p, text, 3);
        ElementAt(ts, p, text, 4);
      }
    } else if p + |text| <= |ts| && forall i :: 0 <= i < |text| ==> ts[p + i] == text[i] {
      Stands(ts, p, text);
    }
  }

  lemma KnotExact(ts: seq<Token>, p: nat, time: real, value: real, second: Option<real>, specs: seq<Spec>, q: nat)
    ensures var e := Knot(time, value, second, specs);
      ReadKnot(ts, p) == Some((e, q)) <==> q == p + |EntryText(e)| && StandsAt(ts, p, EntryText(e)) && Follows(ts, q, e)
  {
    hide ReadSpecs, SpecsText, StandsAt;
    var m := if second.Some? then p + 5 else p + 3;
    StandsJoined(ts, p, KnotText(time, value, second), SpecsText(specs));
    KnotTextExact(ts, p, time, value, second);
    if m <= |ts| {
      SpecsExact(ts, m, specs, q);
      if specs != [] && StandsAt(ts, m, SpecsText(specs)) {
        SpecsStart(ts, m, specs);
      }
      if specs == [] {
        NoSpecs();
      }
    }
    if ReadKnot(ts, p).Some? {
      assert ReadSpecs(ts, if SymAt(ts, p + 3, '&') then p + 5 else p + 3).Some?;
    }
    if p + 3 <= |ts| && specs != [] && ReadSpecs(ts, p + 3) == Some((specs, q)) {
      SpecsReadStart(ts, p + 3);
    }
  }

  lemma SpecsStart(ts: seq<Token>, p: nat, ss: seq<Spec>)
    requires ss != [] && StandsAt(ts, p, SpecsText(ss))
    ensures SymAt(ts, p, ';')
  {
    assert SpecsText(ss) == SpecText(ss[0]) + SpecsText(ss[1..]);
    SpecStarts(ts, p, ss[0], SpecsText(ss[1..]));
  }

  lemma SpecsReadStart(ts: seq<Token>, p: nat)
    requires p <= |ts| && ReadSpecs(ts, p).Some? && ReadSpecs(ts, p).value.0 != []
    ensures SymAt(ts, p, ';')
  {
  }

  lemma NoSpecs()
    ensures SpecsText([]) == []
  {
  }

  lemma LoopHeadExact(ts: seq<Token>, p: nat, a: real, b: real, c: real, d: real, o: real)
    ensures StandsAt(ts, p, LoopHead(a, b, c, d, o)) <==>
            && p < |ts| && ts[p] == Word("loop") && LoopParamsAt(ts, p + 1)
            && ts[p + 3].num == a && ts[p + 5].num == b && ts[p + 7].num == c && ts[p + 9].num == d
                && ts[p + 11].num == o
  {
    var text := LoopHead(a, b, c, d, o);
    if p + 12 <= |ts| {
      var w := ts[p..p + 12];
      assert w[0] == ts[p] && w[1] == ts[p + 1] && w[2] == ts[p + 2] && w[3] == ts[p + 3] && w[4] == ts[p + 4]
          && w[5] == ts[p + 5];
      assert w[6] == ts[p + 6] && w[7] == ts[p + 7] && w[8] == ts[p + 8] && w[9] == ts[p + 9] && w[10] == ts[p + 10]
          && w[11] == ts[p + 11];
    }
  }

  lemma LoopExact(ts: seq<Token>, p: nat, e: Entry, q: nat)
    requires e.LoopParams?
    ensures ReadEntry(ts, p) == Some((e, q)) <==>
            q == p + |EntryText(e)| && StandsAt(ts, p, EntryText(e)) && Follows(ts, q, e)
  {
    hide ReadExtrap, ReadKnot, StandsAt, LoopParamsAt;
    KnotsAreKnots(ts, p);
    LoopHeadExact(ts, p, e.protoStart, e.protoEnd, e.preLoops, e.postLoops, e.offset);
    var head := LoopHead(e.protoStart, e.protoEnd, e.preLoops, e.postLoops, e.offset);
    assert |head| == 12;
    hide LoopHead;
    StandsJoined(ts, p, head, if e.closed then [Sym(')')] else []);
    StandsOne(ts, p + 12, Sym(')'));
    NothingStands(ts, p + 12);
  }

  lemma NothingStands(ts: seq<Token>, p: nat)
    ensures StandsAt(ts, p, []) <==> p <= |ts|
  {
  }

  lemma KnotsAreKnots(ts: seq<Token>, p: nat)
    ensures ReadKnot(ts, p).Some? ==> ReadKnot(ts, p).value.0.Knot?
  {
  }

  lemma CurveExact(ts: seq<Token>, p: nat, hermite: bool, q: nat)
    ensures ReadEntry(ts, p) == Some((Curve(hermite), q)) <==>
            q == p + 1 && StandsAt(ts, p, [Word(if hermite then "hermite" else "bezier")])
  {
  }

  lemma ExtrapolateExact(ts: seq<Token>, p: nat, post: bool, x: Extrap, q: nat)
    ensures ReadEntry(ts, p) == Some((Extrapolate(post, x), q)) <==>
            q == p + 2 + |ExtrapText(x)|
            && StandsAt(ts, p, [Word(if post then "post" else "pre"), Sym(':')] + ExtrapText(x))
            && SubModeValid(x) && (x == XLoop(None) ==> !LetterWordAt(ts, q))
  {
    hide ReadExtrap, ExtrapText, ReadKnot, StandsAt, LoopParamsAt;
    KnotsAreKnots(ts, p);
    var word := if post then "post" else "pre";
    StandsTwo(ts, p, Word(word), Sym(':'));
    StandsJoined(ts, p, [Word(word), Sym(':')], ExtrapText(x));
    ExtrapExact(ts, p + 2, x, q);
  }

  lemma EntryExact(ts: seq<Token>, p: nat, e: Entry, q: nat)
    ensures ReadEntry(ts, p) == Some((e, q)) <==>
            q == p + |EntryText(e)| && StandsAt(ts, p, EntryText(e)) && WellFormed(e) && Follows(ts, q, e)
  {
    match e
    case Curve(hermite) =>
      hide ReadEntry, StandsAt;
      CurveExact(ts, p, hermite, q);
    case Extrapolate(post, x) =>
      hide ReadEntry, StandsAt, ExtrapText;
      ExtrapolateExact(ts, p, post, x, q);
    case LoopParams(_, _, _, _, _, _) =>
      hide ReadEntry, StandsAt, EntryText, Follows;
      LoopExact(ts, p, e, q);
    case Knot(time, value, second, specs) =>
      hide ReadKnot, ReadExtrap, LoopParamsAt, SpecsText, StandsAt;
      KnotExact(ts, p, time, value, second, specs, q);
      if StandsAt(ts, p, EntryText(e)) {
        ElementAt(ts, p, EntryText(e), 0);
      }
  }

  lemma {:induction false} SkipGapIs(ts: seq<Token>, p: nat, q: nat)
    requires p <= q <= |ts| && (q < |ts| ==> !IsGap(ts[q])) && forall k :: p <= k < q ==> IsGap(ts[k])
    ensures SkipGap(ts, p) == q
    decreases q - p
  {
    if p < q {
      SkipGapIs(ts, p + 1, q);
    }
  }

  /** A gap in place is what is skipped. */
  lemma GapExact(ts: seq<Token>, p: nat, gap: Gap)
    requires StandsAt(ts, p, gap) && (p + |gap| < |ts| ==> !IsGap(ts[p + |gap|]))
    ensures SkipGap(ts, p) == p + |gap| && ts[p..p + |gap|] == gap
  {
    forall k | p <= k < p + |gap| ensures IsGap(ts[k]) {
      ElementAt(ts, p, gap, k - p);
      assert gap[k - p] in gap;
    }
    SkipGapIs(ts, p, p + |gap|);
  }

  lemma EntryStarts(ts: seq<Token>, p: nat, e: Entry)
    requires StandsAt(ts, p, EntryText(e))
    ensures p < |ts| && !IsGap(ts[p]) && !ts[p].Sym? && (if e.Knot? then ts[p].Num? else LetterWordAt(ts, p))
  {
    ElementAt(ts, p, EntryText(e), 0);
  }

  lemma ItemsTextNext(gap: Gap, e: Entry, comma: bool, rest: Items)
    ensures ItemsText(Next(gap, e, comma, rest)) == gap + (EntryText(e) + (CommaText(comma) + ItemsText(rest)))
  {
    hide EntryText, CommaText;
  }

  /** The first token of a list of entries. */
  lemma ItemsStart(ts: seq<Token>, p: nat, items: Items)
    requires !items.Shared? && StandsAt(ts, p, ItemsText(items))
    ensures p < |ts| && (LetterWordAt(ts, p) <==> StartsWithWord(items))
    ensures SymAt(ts, p, ';') <==> StartsWithSemicolon(items)
    ensures ts[p].Sym? ==> ts[p] == Sym('}') || ts[p] == Sym(';')
  {
    hide StandsAt, EntryText, CommaText;
    var gap := items.gap;
    if gap != [] {
      assert gap[0] in gap && ItemsText(items)[0] == gap[0];
      ElementAt(ts, p, ItemsText(items), 0);
    } else if items.End? {
      ElementAt(ts, p, ItemsText(items), 0);
    } else {
      hide ItemsText;
      ItemsTextNext(gap, items.entry, items.comma, items.rest);
      assert gap + (EntryText(items.entry) + (CommaText(items.comma) + ItemsText(items.rest)))
          == EntryText(items.entry) + (CommaText(items.comma) + ItemsText(items.rest));
      StandsJoined(ts, p, EntryText(items.entry), CommaText(items.comma) + ItemsText(items.rest));
      EntryStarts(ts, p, items.entry);
    }
  }

  lemma ItemsParts(ts: seq<Token>, p: nat, gap: Gap, e: Entry, comma: bool, rest: Items)
    ensures var items := Next(gap, e, comma, rest);
      var a := p + |gap|; var b := a + |EntryText(e)|; var c := b + |CommaText(comma)|;
      && |ItemsText(items)| == |gap| + |EntryText(e)| + |CommaText(comma)| + |ItemsText(rest)|
      && (StandsAt(ts, p, ItemsText(items)) <==>
          StandsAt(ts, p, gap) && StandsAt(ts, a, EntryText(e)) && StandsAt(ts, b, CommaText(comma))
          && StandsAt(ts, c, ItemsText(rest)))
  {
    var text := ItemsText(rest);
    ItemsTextNext(gap, e, comma, rest);
    hide StandsAt, EntryText, CommaText, ItemsText;
    StandsJoined(ts, p, gap, EntryText(e) + (CommaText(comma) + text));
    StandsJoined(ts, p + |gap|, EntryText(e), CommaText(comma) + text);
    StandsJoined(ts, p + |gap| + |EntryText(e)|, CommaText(comma), text);
  }

  lemma CommaLength(comma: bool)
    ensures |CommaText(comma)| == if comma then 1 else 0
  {
  }

  lemma CommaExact(ts: seq<Token>, p: nat, comma: bool)
    requires p <= |ts| && (!comma ==> !SymAt(ts, p, ','))
    ensures StandsAt(ts, p, CommaText(comma)) <==> comma == SymAt(ts, p, ',')
  {
  }

  /** A text of entries from `p` to `q`, which ends with the input when it has no brace of its own. */
  ghost predicate ItemsAt(ts: seq<Token>, p: nat, items: Items, q: nat) {
    && q == p + |ItemsText(items)| && StandsAt(ts, p, ItemsText(items)) && Bounded(items)
    && (EndsShared(items) ==> q == |ts|) && (items.Shared? ==> BehindDict(ts, p))
  }

  /** The entries up to the brace are read from `p` to `q` exactly when their text stands
      there and nothing that follows an entry belongs to it. */
  lemma {:induction false} ItemsExact(ts: seq<Token>, p: nat, items: Items, q: nat)
    requires p <= |ts|
    ensures ReadItems(ts, p) == Some((items, q)) <==> ItemsAt(ts, p, items, q)
  {
    hide ItemsAt, ReadItems;
    if ReadItems(ts, p) == Some((items, q)) {
      ItemsSound(ts, p);
    } else if ItemsAt(ts, p, items, q) {
      ItemsComplete(ts, p, items, q);
    }
  }

  lemma {:induction false} SpecsLast(ss: seq<Spec>)
    requires ss != []
    ensures var t := SpecsText(ss); t != [] && (t[|t| - 1].Dict? <==> ss[|ss| - 1].CustomData?)
  {
    if |ss| > 1 {
      SpecsLast(ss[1..]);
    } else {
      NoSpecs();
      assert SpecsText(ss) == SpecText(ss[0]) + SpecsText([]);
    }
  }

  lemma EntryLast(e: Entry)
    ensures var t := EntryText(e); t != [] && (t[|t| - 1].Dict? <==> EndsInDict(e))
  {
    match e
    case Knot(_, _, _, specs) =>
      if specs != [] {
        SpecsLast(specs);
      } else {
        NoSpecs();
      }
    case _ =>
  }

  /** Behind an entry in place: whether its last token is a customData. */
  lemma DictLast(ts: seq<Token>, a: nat, e: Entry)
    requires StandsAt(ts, a, EntryText(e))
    ensures var b := a + |EntryText(e)|; 0 < b <= |ts| && (ts[b - 1].Dict? <==> EndsInDict(e))
  {
    EntryLast(e);
    ElementAt(ts, a, EntryText(e), |EntryText(e)| - 1);
  }

  lemma EndSound(ts: seq<Token>, p: nat)
    requires p <= |ts| && ReadItems(ts, p).Some? && ReadItems(ts, p).value.0.End?
    ensures var items, q := ReadItems(ts, p).value.0, ReadItems(ts, p).value.1;
      ItemsAt(ts, p, items, q)
  {
    hide StandsAt, ReadEntry;
    var a := SkipGap(ts, p);
    Stands(ts, p, ts[p..a]);
    StandsOne(ts, a, Sym('}'));
    StandsJoined(ts, p, ts[p..a], [Sym('}')]);
  }

  /** The parts of what was read. */
  lemma NextRead(ts: seq<Token>, p: nat)
    requires p <= |ts| && ReadItems(ts, p).Some? && ReadItems(ts, p).value.0.Next?
    ensures var items, q := ReadItems(ts, p).value.0, ReadItems(ts, p).value.1; var a := p + |items.gap|;
      && a <= |ts| && ts[p..a] == items.gap && ReadEntry(ts, a).Some?
      && var b := ReadEntry(ts, a).value.1;
      && ReadEntry(ts, a).value.0 == items.entry && items.comma == SymAt(ts, b, ',')
      && ReadItems(ts, if items.comma then b + 1 else b) == Some((items.rest, q))
  {
    hide ReadEntry;
  }

  lemma {:induction false} ItemsSound(ts: seq<Token>, p: nat)
    requires p <= |ts| && ReadItems(ts, p).Some?
    ensures var items, q := ReadItems(ts, p).value.0, ReadItems(ts, p).value.1;
      ItemsAt(ts, p, items, q)
    decreases |ts| - p
  {
    hide StandsAt, ReadItems, EntryText, ReadEntry, ItemsText, Follows, Absorbs, WellFormed, CommaText, LetterWordAt,
      StartsWithWord, StartsWithSemicolon;
    match ReadItems(ts, p).value.0
    case End(_) => EndSound(ts, p);
    case Shared => SharedSound(ts, p);
    case Next(gap, e, comma, rest) =>
      var a := p + |gap|;
      NextRead(ts, p);
      Stands(ts, p, gap);
      var b := ReadEntry(ts, a).value.1;
      var c := if comma then b + 1 else b;
      CommaLength(comma);
      EntryExact(ts, a, e, b);
      CommaExact(ts, b, comma);
      ItemsSound(ts, c);
      ItemsParts(ts, p, gap, e, comma, rest);
      if !rest.Shared? {
        ItemsStart(ts, c, rest);
      }
      if !comma {
        FollowsNothing(ts, b, e, rest);
      }
      DictLast(ts, a, e);
  }

  lemma SharedSound(ts: seq<Token>, p: nat)
    requires p <= |ts| && ReadItems(ts, p).Some? && ReadItems(ts, p).value.0.Shared?
    ensures ItemsAt(ts, p, Shared, p) && ReadItems(ts, p).value.1 == p
  {
    hide ReadEntry;
  }

  lemma FollowsNothing(ts: seq<Token>, q: nat, e: Entry, rest: Items)
    requires Follows(ts, q, e)
    requires !rest.Shared? ==> (LetterWordAt(ts, q) <==> StartsWithWord(rest))
    requires !rest.Shared? ==> (SymAt(ts, q, ';') <==> StartsWithSemicolon(rest))
    ensures !Absorbs(e, rest)
  {
  }

  /** One entry read, and the rest behind it. */
  lemma ReadNext(ts: seq<Token>, p: nat, gap: Gap, e: Entry, b: nat, comma: bool, rest: Items, q: nat)
    requires var a := p + |gap|; a < |ts| && SkipGap(ts, p) == a && ts[p..a] == gap && !ts[a].Sym?
    requires ReadEntry(ts, p + |gap|) == Some((e, b)) && comma == SymAt(ts, b, ',')
    requires ReadItems(ts, if comma then b + 1 else b) == Some((rest, q))
    ensures ReadItems(ts, p) == Some((Next(gap, e, comma, rest), q))
  {
    hide ReadEntry;
  }

  lemma EndComplete(ts: seq<Token>, p: nat, gap: Gap)
    requires StandsAt(ts, p, gap + [Sym('}')])
    ensures ReadItems(ts, p) == Some((End(gap), p + |gap| + 1))
  {
    hide StandsAt, ReadEntry;
    StandsJoined(ts, p, gap, [Sym('}')]);
    StandsOne(ts, p + |gap|, Sym('}'));
    GapExact(ts, p, gap);
  }

  lemma NextComplete(ts: seq<Token>, p: nat, gap: Gap, e: Entry, comma: bool, rest: Items, c: nat)
    requires var items := Next(gap, e, comma, rest); StandsAt(ts, p, ItemsText(items)) && Bounded(items)
    requires c == p + |gap| + |EntryText(e)| + |CommaText(comma)| && c <= |ts| && (rest.Shared? ==> c == |ts|)
    requires ReadItems(ts, c) == Some((rest, c + |ItemsText(rest)|))
    ensures ReadItems(ts, p) == Some((Next(gap, e, comma, rest), c + |ItemsText(rest)|))
  {
    var a := p + |gap|;
    var b := a + |EntryText(e)|;
    hide StandsAt, EntryText, ReadEntry, ReadItems, ItemsText, SkipGap, Follows, CommaText, Absorbs, WellFormed,
      LetterWordAt, StartsWithWord, StartsWithSemicolon;
    CommaLength(comma);
    ItemsParts(ts, p, gap, e, comma, rest);
    EntryStarts(ts, a, e);
    GapExact(ts, p, gap);
    if rest.Shared? {
      NothingFollows(ts, e);
      CommaExact(ts, b, comma);
    } else {
      ItemsStart(ts, c, rest);
      CommaExact(ts, b, comma);
      NothingAbsorbed(ts, b, e, comma, rest);
    }
    EntryExact(ts, a, e, b);
    ReadNext(ts, p, gap, e, b, comma, rest, c + |ItemsText(rest)|);
  }

  lemma NothingFollows(ts: seq<Token>, e: Entry)
    ensures Follows(ts, |ts|, e)
  {
  }

  lemma SharedComplete(ts: seq<Token>, p: nat)
    requires BehindDict(ts, p)
    ensures ReadItems(ts, p) == Some((Shared, p))
  {
  }

  lemma {:induction false} ItemsComplete(ts: seq<Token>, p: nat, items: Items, q: nat)
    requires p <= |ts| && ItemsAt(ts, p, items, q)
    ensures ReadItems(ts, p) == Some((items, q))
    decreases items
  {
    hide StandsAt, EntryText, ReadItems, CommaText, Absorbs, WellFormed, BehindDict, EndsInDict;
    match items
    case End(gap) => EndComplete(ts, p, gap);
    case Shared => SharedComplete(ts, p);
    case Next(gap, e, comma, rest) =>
      var c := p + |gap| + |EntryText(e)| + |CommaText(comma)|;
      ItemsParts(ts, p, gap, e, comma, rest);
      assert c <= |ts| by { NothingPast(ts, c, ItemsText(rest)); }
      if rest.Shared? {
        CommaLength(comma);
        DictLast(ts, p + |gap|, e);
        assert EndsShared(rest) && EndsShared(items) && |ItemsText(rest)| == 0;
        assert c == q == |ts|;
        assert EndsInDict(e);
        assert BehindDict(ts, c) by { BehindDictIs(ts, c); }
      }
      ItemsComplete(ts, c, rest, q);
      NextComplete(ts, p, gap, e, comma, rest, c);
  }

  lemma BehindDictIs(ts: seq<Token>, p: nat)
    requires 0 < p == |ts| && ts[p - 1].Dict?
    ensures BehindDict(ts, p)
  {
  }

  lemma NothingPast(ts: seq<Token>, p: nat, t: seq<Token>)
    requires StandsAt(ts, p, t)
    ensures p + |t| <= |ts|
  {
  }

  lemma NothingAbsorbed(ts: seq<Token>, q: nat, e: Entry, comma: bool, rest: Items)
    requires q < |ts|
    requires if comma then ts[q] == Sym(',')
             else (LetterWordAt(ts, q) <==> StartsWithWord(rest)) && (SymAt(ts, q, ';') <==> StartsWithSemicolon(rest))
    requires comma || (ts[q].Sym? ==> ts[q] == Sym('}') || ts[q] == Sym(';'))
    requires comma || !Absorbs(e, rest)
    ensures Follows(ts, q, e)
  {
  }

  /** A whole spline value is read from `p` to `q` exactly when it stands there, at the end of the
      input when the brace of a last customData closes it. */
  lemma ReadsExactlyTexts(ts: seq<Token>, p: nat, items: Items, q: nat)
    ensures ReadSpline(ts, p) == Some((items, q)) <==>
            q == p + |SplineText(items)| && StandsAt(ts, p, SplineText(items)) && Accepted(items)
            && (EndsShared(items) ==> q == |ts|)
  {
    StandsOne(ts, p, Sym('{'));
    StandsJoined(ts, p, [Sym('{')], ItemsText(items));
    if SymAt(ts, p, '{') {
      ItemsExact(ts, p + 1, items, q);
    }
  }

  /** A semicolon in front of an entry or of the brace is skipped: `{ bezier; 0: 1 }` and `{ ; }`
      are read.  Behind a knot it announces a spec: `{ 0: 1; }` is not read. */
  lemma SemicolonsBetweenEntries()
    ensures var knot := Knot(0.0, 1.0, None, []);
      ReadSpline([Sym('{'), Word("bezier"), Sym(';'), Num(0.0), Sym(':'), Num(1.0), Sym('}')], 0) ==
        Some((Next([], Curve(false), false, Next([Sym(';')], knot, false, End([]))), 7))
    ensures ReadSpline([Sym('{'), Sym(';'), Sym('}')], 0) == Some((End([Sym(';')]), 3))
    ensures ReadSpline([Sym('{'), Num(0.0), Sym(':'), Num(1.0), Sym(';'), Sym('}')], 0) == None
  {
    hide ReadSpline, StandsAt;
    var knot := Knot(0.0, 1.0, None, []);
    var last := Next([Sym(';')], knot, false, End([]));
    assert Bounded(last) && SpecsText([]) == [];
    var items := Next([], Curve(false), false, last);
    var ts := [Sym('{'), Word("bezier"), Sym(';'), Num(0.0), Sym(':'), Num(1.0), Sym('}')];
    assert SplineText(items) == ts;
    WholeStands(ts);
    ReadsExactlyTexts(ts, 0, items, 7);
    var us := [Sym('{'), Sym(';'), Sym('}')];
    assert SplineText(End([Sym(';')])) == us;
    WholeStands(us);
    ReadsExactlyTexts(us, 0, End([Sym(';')]), 3);
    SemicolonBehindKnot();
  }

  lemma WholeStands(ts: seq<Token>)
    ensures StandsAt(ts, 0, ts)
  {
  }

  lemma SemicolonBehindKnot()
    ensures ReadSpline([Sym('{'), Num(0.0), Sym(':'), Num(1.0), Sym(';'), Sym('}')], 0) == None
  {
    var ts := [Sym('{'), Num(0.0), Sym(':'), Num(1.0), Sym(';'), Sym('}')];
    assert ReadSpecs(ts, 4) == None;
    assert ReadEntry(ts, 1) == None;
  }

  /** A knot with a customData from the second token on. */
  lemma KnotWithDict(ts: seq<Token>)
    requires |ts| >= 6 && ts[1] == Num(0.0) && ts[2] == Sym(':') && ts[3] == Num(1.0)
    requires ts[4] == Sym(';') && ts[5] == Dict && !SymAt(ts, 6, ';')
    ensures ReadEntry(ts, 1) == Some((Knot(0.0, 1.0, None, [CustomData]), 6))
  {
    assert [CustomData] + [] == [CustomData];
    assert ReadSpecs(ts, 6) == Some(([], 6));
    assert ReadSpecs(ts, 4) == Some(([CustomData], 6));
  }

  /** `{ 0: 1; {}` is read where the input ends behind it, and not with a line end behind it. */
  lemma DictClosesSpline()
    ensures var t := [Sym('{'), Num(0.0), Sym(':'), Num(1.0), Sym(';'), Dict];
      && ReadSpline(t, 0) == Some((Next([], Knot(0.0, 1.0, None, [CustomData]), false, Shared), 6))
      && ReadSpline(t + [Break], 0) == None
  {
    hide ReadEntry;
    var t := [Sym('{'), Num(0.0), Sym(':'), Num(1.0), Sym(';'), Dict];
    KnotWithDict(t);
    assert ReadItems(t, 6) == Some((Shared, 6));
    assert t[1..1] == [] && SkipGap(t, 1) == 1;
    var u := t + [Break];
    KnotWithDict(u);
    NoEntryAtEnd(u);
    assert SkipGap(u, 6) == 7;
    assert ReadItems(u, 6) == None;
    assert SkipGap(u, 1) == 1;
  }

  lemma NoEntryAtEnd(ts: seq<Token>)
    ensures ReadEntry(ts, |ts|) == None
  {
  }
}
